/** Additive projective shares: pairing certificates for [r_i]A, and their sum. */
module AdditiveShares {
  import opened ByteStrings
  import opened PrimeField
  import opened Groups

  ghost predicate AllDecode(ws: seq<Wire>, q: nat) {
    forall i :: 0 <= i < |ws| ==> Decodes(ws[i], q)
  }

  /** The sum of encoded points: nothing to sum, bytes that do not decode, and the identity all raise. */
  method Aggregate(encodings: seq<Wire>, q: nat) returns (r: Result<Wire>)
    requires q > 0
    ensures r.Ok? <==> encodings != [] && AllDecode(encodings, q) && Sum(Exponents(encodings)) % q != 0
    ensures r.Ok? ==> r.value == Point(Sum(Exponents(encodings)) % q)
  {
    var acc: Option<nat> := None;
    for i := 0 to |encodings|
      invariant AllDecode(encodings[..i], q)
      invariant acc == if i == 0 then None else Some(Sum(Exponents(encodings[..i])) % q)
    {
      if !Decodes(encodings[i], q) {
        assert !AllDecode(encodings, q);
        return Err;
      }
      var point := encodings[i].exponent;
      ghost var soFar := Exponents(encodings[..i]);
      assert Exponents(encodings[..i + 1]) == soFar + [point];
      SumSnoc(soFar, point);
      AddMod(Sum(soFar), point, q);
      assert i == 0 ==> soFar == [];
      acc := Some(if acc.None? then point else Add(acc.value, point, q));
      assert i == 0 ==> point % q == point;
    }
    assert encodings[..|encodings|] == encodings;
    match acc
    case None => return Err;
    case Some(e) => r := Compress(e);
  }

  /** e(output, delta) == e(input, anchor), false when any encoding fails to decode. */
  predicate CertifyShareOutput(inputA: Wire, output: Wire, delta: Wire, anchor: Wire, q: nat) {
    && Decodes(output, q) && Decodes(delta, q) && Decodes(inputA, q) && Decodes(anchor, q)
    && PairingProduct2(output.exponent, delta.exponent, Neg(inputA.exponent, q), anchor.exponent, q) == 0
  }

  /** A certificate for the anchor [r]delta passes for [r]A and for no other output. */
  lemma CertificateIsExact(inputA: Wire, output: Wire, delta: Wire, scale: nat, q: nat)
    requires Prime(q) && Decodes(inputA, q) && Decodes(output, q) && Decodes(delta, q) && scale % q != 0
    ensures CertifyShareOutput(inputA, output, delta, Point(Multiply(delta.exponent, scale, q)), q)
      <==> output == Point(Multiply(inputA.exponent, scale, q))
  {
    CertificateExact(output.exponent, delta.exponent, inputA.exponent, scale, q);
    ScaledPointNonzero(delta.exponent, scale, q);
  }

  // ---------------------------------------------------------------- the sum of certified shares

  ghost predicate AllCertified(inputA: Wire, outputs: seq<Wire>, delta: Wire, anchors: seq<Wire>, q: nat)
    requires |outputs| == |anchors|
  {
    forall i :: 0 <= i < |outputs| ==> CertifyShareOutput(inputA, outputs[i], delta, anchors[i], q)
  }

  /** Certified shares satisfy the pairing equation in the sum. */
  lemma {:induction false} CertifiedSums(a: nat, zs: seq<nat>, d: nat, rs: seq<nat>, q: nat)
    requires q > 0 && |zs| == |rs|
    requires forall i :: 0 <= i < |zs| ==> (zs[i] * d) % q == (a * rs[i]) % q
    ensures (Sum(zs) * d) % q == (a * Sum(rs)) % q
  {
    if zs == [] {
    } else {
      CertifiedSums(a, zs[1..], d, rs[1..], q);
      var z, zt, r, rt := zs[0], Sum(zs[1..]), rs[0], Sum(rs[1..]);
      Distribute(z, zt, d);
      Distribute(r, rt, a);
      CongruentSum(z * d, a * r, zt * d, a * rt, q);
    }
  }

  lemma CertifiedSumsBalance(inputA: Wire, outputs: seq<Wire>, delta: Wire, anchors: seq<Wire>, q: nat)
    requires q > 0 && outputs != [] && |outputs| == |anchors|
    requires AllCertified(inputA, outputs, delta, anchors, q)
    ensures AllDecode(outputs, q) && AllDecode(anchors, q) && Decodes(inputA, q) && Decodes(delta, q)
    ensures (Sum(Exponents(outputs)) * delta.exponent) % q == (inputA.exponent * Sum(Exponents(anchors))) % q
  {
    assert CertifyShareOutput(inputA, outputs[0], delta, anchors[0], q);
    var zs, rs := Exponents(outputs), Exponents(anchors);
    forall i | 0 <= i < |zs|
      ensures (zs[i] * delta.exponent) % q == (inputA.exponent * rs[i]) % q
    {
      assert CertifyShareOutput(inputA, outputs[i], delta, anchors[i], q);
      PairingQuotientIsOne(zs[i], delta.exponent, inputA.exponent, rs[i], q);
    }
    CertifiedSums(inputA.exponent, zs, delta.exponent, rs, q);
  }

  /** When every share is certified, both sums vanish together, and otherwise the aggregate is certified. */
  lemma AggregateIsCertified(inputA: Wire, outputs: seq<Wire>, delta: Wire, anchors: seq<Wire>, q: nat)
    requires Prime(q) && outputs != [] && |outputs| == |anchors|
    requires AllCertified(inputA, outputs, delta, anchors, q)
    ensures AllDecode(outputs, q) && AllDecode(anchors, q)
    ensures Sum(Exponents(outputs)) % q == 0 <==> Sum(Exponents(anchors)) % q == 0
    ensures Sum(Exponents(outputs)) % q != 0 ==>
      CertifyShareOutput(inputA, Point(Sum(Exponents(outputs)) % q), delta, Point(Sum(Exponents(anchors)) % q), q)
  {
    CertifiedSumsBalance(inputA, outputs, delta, anchors, q);
    var z, r, d, a := Sum(Exponents(outputs)), Sum(Exponents(anchors)), delta.exponent, inputA.exponent;
    SmallMod(d, q);
    SmallMod(a, q);
    PrimeDividesProduct(q, z, d);
    PrimeDividesProduct(q, a, r);
    PairingQuotientIsOne(z % q, d, a, r % q, q);
    ModMod(z, q);
    ModMod(r, q);
    CongruentProduct(z % q, z, d, q);
    CongruentProduct(r % q, r, a, q);
  }

  /**
   * Certify every share, sum outputs and anchors, certify the sums. The result is an error for exactly
   * the listed reasons, and a failing final certificate is not one of them.
   */
  method AggregateCertifiedOutputs(inputA: Wire, outputs: seq<Wire>, delta: Wire, anchors: seq<Wire>, q: nat)
    returns (r: Result<(Wire, Wire)>)
    requires Prime(q)
    ensures r.Ok? <==>
      && outputs != [] && |outputs| == |anchors|
      && AllCertified(inputA, outputs, delta, anchors, q)
      && AllDecode(outputs, q) && Sum(Exponents(outputs)) % q != 0
    ensures r.Ok? ==>
      && AllDecode(anchors, q)
      && r.value == (Point(Sum(Exponents(outputs)) % q), Point(Sum(Exponents(anchors)) % q))
  {
    if outputs == [] || |outputs| != |anchors| {
      return Err;
    }
    for i := 0 to |outputs|
      invariant AllCertified(inputA, outputs[..i], delta, anchors[..i], q)
    {
      if !CertifyShareOutput(inputA, outputs[i], delta, anchors[i], q) {
        return Err;
      }
    }
    assert outputs[..|outputs|] == outputs && anchors[..|anchors|] == anchors;
    AggregateIsCertified(inputA, outputs, delta, anchors, q);
    var output := Aggregate(outputs, q);
    if output.Err? { return Err; }
    var anchor := Aggregate(anchors, q);
    if anchor.Err? { return Err; }
    if !CertifyShareOutput(inputA, output.value, delta, anchor.value, q) {
      return Err;
    }
    return Ok((output.value, anchor.value));
  }

  // ---------------------------------------------------------------- shares of a known scalar

  ghost predicate AllNonzero(scales: seq<nat>, q: nat)
    requires q > 0
  {
    forall i :: 0 <= i < |scales| ==> scales[i] % q != 0
  }

  /** [s_i]base for every scale, as encodings. */
  function Scaled(base: nat, scales: seq<nat>, q: nat): (r: seq<Wire>)
    requires q > 0
    ensures |r| == |scales|
  {
    seq(|scales|, i requires 0 <= i < |scales| => Point(Multiply(base, scales[i] % q, q)))
  }

  method ContributorShareFixture(delta: Wire, inputA: Wire, scales: seq<nat>, q: nat)
    returns (r: Result<(seq<Wire>, seq<Wire>, Wire, Wire)>)
    requires Prime(q)
    ensures r.Ok? <==>
      Decodes(inputA, q) && Decodes(delta, q) && AllNonzero(scales, q) && Sum(scales) % q != 0
    ensures r.Ok? ==> r.value == (
      Scaled(inputA.exponent, scales, q), Scaled(delta.exponent, scales, q),
      Point(Multiply(inputA.exponent, Sum(scales) % q, q)), Point(Multiply(delta.exponent, Sum(scales) % q, q)))
  {
    if !Decodes(inputA, q) || !Decodes(delta, q) {
      return Err;
    }
    var a, d := inputA.exponent, delta.exponent;
    var outputs: seq<Wire>, anchors: seq<Wire> := [], [];
    var total := 0;
    for i := 0 to |scales|
      invariant AllNonzero(scales[..i], q)
      invariant total == Sum(scales[..i]) % q
      invariant outputs == Scaled(a, scales[..i], q)
      invariant anchors == Scaled(d, scales[..i], q)
    {
      var scale := scales[i] % q;
      if scale == 0 {
        return Err;
      }
      SumPrefix(scales, i);
      SumOfResidues(Sum(scales[..i]), scales[i], q);
      total := (total + scale) % q;
      var output := ScaledPoint(a, scale, q);
      var anchor := ScaledPoint(d, scale, q);
      ScaledSnoc(a, scales, i, q);
      ScaledSnoc(d, scales, i, q);
      outputs := outputs + [output];
      anchors := anchors + [anchor];
    }
    assert scales[..|scales|] == scales;
    if total == 0 {
      return Err;
    }
    var sumOutput := ScaledPoint(a, total, q);
    var sumAnchor := ScaledPoint(d, total, q);
    return Ok((outputs, anchors, sumOutput, sumAnchor));
  }

  /** Compressing a nonzero multiple of a point never raises. */
  function ScaledPoint(base: nat, scale: nat, q: nat): (w: Wire)
    requires Prime(q) && 0 < base < q && 0 < scale < q
    ensures Decodes(w, q) && w == Point(Multiply(base, scale, q))
  {
    SmallMod(scale, q);
    ScaledPointNonzero(base, scale, q);
    Compress(Multiply(base, scale, q)).value
  }

  lemma ScaledSnoc(base: nat, scales: seq<nat>, i: nat, q: nat)
    requires q > 0 && i < |scales|
    ensures Scaled(base, scales[..i + 1], q)
      == Scaled(base, scales[..i], q) + [Point(Multiply(base, scales[i] % q, q))]
  {
  }

  lemma {:induction false} ScaledSum(base: nat, scales: seq<nat>, q: nat)
    requires q > 0
    ensures Sum(Exponents(Scaled(base, scales, q))) % q == Multiply(base, Sum(scales) % q, q)
  {
    var es := Exponents(Scaled(base, scales, q));
    if scales != [] {
      var head, rest := scales[0], scales[1..];
      ScaledSum(base, rest, q);
      assert es[1..] == Exponents(Scaled(base, rest, q));
      assert es[0] == Multiply(base, head % q, q);
      ScaledStep(base, head, Sum(rest), Sum(es[1..]), q);
    } else {
      assert es == [];
      assert base * (0 % q) == 0;
    }
  }

  lemma ScaledStep(base: nat, head: nat, rest: nat, tail: nat, q: nat)
    requires q > 0 && tail % q == Multiply(base, rest % q, q)
    ensures (Multiply(base, head % q, q) + tail) % q == Multiply(base, (head + rest) % q, q)
  {
    ModMod(head, q);
    ModMod(rest, q);
    ModMod(head + rest, q);
    CongruentProduct(head % q, head, base, q);
    CongruentProduct(rest % q, rest, base, q);
    CongruentProduct((head + rest) % q, head + rest, base, q);
    ModMod(base * head, q);
    CongruentSum(Multiply(base, head % q, q), base * head, tail, base * rest, q);
    Distribute(head, rest, base);
  }

  /**
   * For anchors [s_i]delta and outputs [s_i]A every certificate passes and the aggregate is
   * ([sum s_i]A, [sum s_i]delta), whatever the number of contributors, as long as the sum is not zero.
   */
  lemma SharesAggregate(delta: Wire, inputA: Wire, scales: seq<nat>, q: nat)
    requires Prime(q) && Decodes(inputA, q) && Decodes(delta, q)
    requires scales != [] && AllNonzero(scales, q)
    ensures var outputs, anchors := Scaled(inputA.exponent, scales, q), Scaled(delta.exponent, scales, q);
      && AllCertified(inputA, outputs, delta, anchors, q)
      && Sum(Exponents(outputs)) % q == Multiply(inputA.exponent, Sum(scales) % q, q)
      && Sum(Exponents(anchors)) % q == Multiply(delta.exponent, Sum(scales) % q, q)
      && (Sum(Exponents(outputs)) % q == 0 <==> Sum(scales) % q == 0)
  {
    var a, d := inputA.exponent, delta.exponent;
    var outputs, anchors := Scaled(a, scales, q), Scaled(d, scales, q);
    forall i | 0 <= i < |scales|
      ensures CertifyShareOutput(inputA, outputs[i], delta, anchors[i], q)
    {
      var s := scales[i] % q;
      ModMod(scales[i], q);
      ScaledPointNonzero(a, s, q);
      ScaledPointNonzero(d, s, q);
      CertificateIsExact(inputA, outputs[i], delta, s, q);
    }
    ScaledSum(a, scales, q);
    ScaledSum(d, scales, q);
    SmallMod(a, q);
    ModMod(Sum(scales), q);
    PrimeDividesProduct(q, a, Sum(scales) % q);
  }
}
