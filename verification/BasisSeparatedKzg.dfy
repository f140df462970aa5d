/** Basis-separated KZG: setup, commitment, opening by synthetic division, and witness encryption. */
module BasisSeparatedKzg {
  import opened ByteStrings
  import opened PrimeField
  import opened Groups

  // ---------------------------------------------------------------- polynomials, lowest coefficient first

  /** p(x) over the integers. */
  function Value(p: seq<int>, x: int): int {
    if p == [] then 0 else p[0] + x * Value(p[1..], x)
  }

  function Reduced(p: seq<int>, q: nat): (r: seq<int>)
    requires q > 0
    ensures |r| == |p|
  {
    seq(|p|, i requires 0 <= i < |p| => p[i] % q)
  }

  lemma {:induction false} ReducedValue(p: seq<int>, x: int, q: nat)
    requires q > 0
    ensures Value(Reduced(p, q), x) % q == Value(p, x) % q
  {
    if p == [] {
    } else {
      ReducedValue(p[1..], x, q);
      assert Reduced(p, q)[1..] == Reduced(p[1..], q);
      CongruentProduct(Value(Reduced(p[1..], q), x), Value(p[1..], x), x, q);
      ModMod(p[0], q);
      CongruentSum(p[0] % q, p[0], x * Value(Reduced(p[1..], q), x), x * Value(p[1..], x), q);
    }
  }

  lemma {:induction false} TrailingZero(p: seq<int>, x: int)
    ensures Value(p + [0], x) == Value(p, x)
  {
    if p == [] {
    } else {
      TrailingZero(p[1..], x);
      assert (p + [0])[1..] == p[1..] + [0];
    }
  }

  ghost predicate SamePolynomial(p: seq<int>, r: seq<int>, q: nat)
    requires q > 0
  {
    forall x: int :: Value(p, x) % q == Value(r, x) % q
  }

  /** Trailing zero coefficients dropped, the last one kept. */
  function TrimZeros(p: seq<int>): (r: seq<int>)
    ensures p != [] ==> r != []
    ensures |r| <= |p|
  {
    if |p| > 1 && p[|p| - 1] == 0 then TrimZeros(p[..|p| - 1]) else p
  }

  lemma {:induction false} TrimZerosValue(p: seq<int>, x: int)
    ensures Value(TrimZeros(p), x) == Value(p, x)
  {
    if |p| <= 1 || p[|p| - 1] != 0 {
    } else {
      var shorter := p[..|p| - 1];
      TrimZerosValue(shorter, x);
      TrailingZero(shorter, x);
      assert p == shorter + [0];
    }
  }

  function Trim(p: seq<int>, q: nat): (r: seq<int>)
    requires q > 0
    ensures p != [] ==> r != []
    ensures |r| <= |p|
  {
    TrimZeros(Reduced(p, q))
  }

  lemma {:induction false} TrimZerosExactly(p: seq<int>)
    ensures TrimZeros(p) <= p && forall i :: |TrimZeros(p)| <= i < |p| ==> p[i] == 0
    ensures var t := TrimZeros(p); |t| > 1 ==> t[|t| - 1] != 0
  {
    if |p| <= 1 || p[|p| - 1] != 0 {
    } else {
      TrimZerosExactly(p[..|p| - 1]);
    }
  }

  /** Trimming reduces every coefficient and drops exactly the highest zeros, but for the constant one. */
  lemma TrimExactly(p: seq<int>, q: nat)
    requires q > 0
    ensures var t := Trim(p, q);
      && (forall i :: 0 <= i < |t| ==> t[i] == p[i] % q)
      && (forall i :: |t| <= i < |p| ==> p[i] % q == 0)
      && (|t| > 1 ==> t[|t| - 1] != 0)
  {
    TrimZerosExactly(Reduced(p, q));
    assert forall i :: 0 <= i < |p| ==> Reduced(p, q)[i] == p[i] % q;
  }

  lemma TrimSame(p: seq<int>, q: nat)
    requires q > 0
    ensures SamePolynomial(Trim(p, q), p, q)
  {
    forall x: int
      ensures Value(Trim(p, q), x) % q == Value(p, x) % q
    {
      TrimAt(p, x, q);
    }
  }

  lemma TrimAt(p: seq<int>, x: int, q: nat)
    requires q > 0
    ensures Value(Trim(p, q), x) % q == Value(p, x) % q
  {
    TrimZerosValue(Reduced(p, q), x);
    ReducedValue(p, x, q);
  }

  method PolyTrim(values: seq<int>, q: nat) returns (r: Result<seq<int>>)
    requires q > 0
    ensures r == if values == [] then Err else Ok(Trim(values, q))
  {
    if values == [] {
      return Err;
    }
    var result := Reduced(values, q);
    while |result| > 1 && result[|result| - 1] == 0
      invariant result != []
      invariant TrimZeros(result) == Trim(values, q)
    {
      result := result[..|result| - 1];
    }
    return Ok(result);
  }

  /** Horner's rule, from the highest coefficient down. */
  method PolynomialEvaluate(p: seq<int>, point: int, q: nat) returns (result: nat)
    requires q > 0
    ensures result == Value(p, point) % q
  {
    result := 0;
    var z := point % q;
    SmallMod(0, q);
    for i := |p| downto 0
      invariant result == Value(p[i..], point) % q
    {
      ghost var rest := Value(p[i + 1..], point);
      assert p[i..][1..] == p[i + 1..];
      HornerStep(rest, p[i], point, q);
      result := (result * z + p[i]) % q;
    }
    assert p[0..] == p;
  }

  lemma HornerStep(rest: int, c: int, x: int, q: nat)
    requires q > 0
    ensures ((rest % q) * (x % q) + c) % q == (c + x * rest) % q
  {
    ModMod(rest, q);
    ModMod(x, q);
    CongruentProduct(rest % q, rest, x % q, q);
    CongruentProduct(x % q, x, rest, q);
    Commute(x, rest);
    CongruentSum((rest % q) * (x % q), x * rest, c, c, q);
  }

  // ---------------------------------------------------------------- synthetic division

  /** Remainder first, then the quotient, of division by X - z. */
  function Division(p: seq<int>, z: int, q: nat): (b: seq<int>)
    requires q > 0 && p != []
    ensures |b| == |p|
  {
    if |p| == 1 then p
    else
      var b := Division(p[1..], z, q);
      [(p[0] + z * b[0]) % q] + b
  }

  /** p(x) == remainder + (x - z) * quotient(x), modulo q, at every x. */
  lemma {:induction false} DivisionIdentity(p: seq<int>, z: int, x: int, q: nat)
    requires q > 0 && p != []
    ensures Value(p, x) % q == (Division(p, z, q)[0] + (x - z) * Value(Division(p, z, q)[1..], x)) % q
  {
    var b := Division(p, z, q);
    if |p| == 1 {
      assert p[1..] == [] && b[1..] == [];
    } else {
      var b' := Division(p[1..], z, q);
      DivisionIdentity(p[1..], z, x, q);
      assert b[1..] == b' && b'[1..] == b[2..];
      DivisionStep(p[0], b'[0], Value(b'[1..], x), Value(p[1..], x), z, x, q);
    }
  }

  lemma DivisionStep(c: int, b: int, v: int, rest: int, z: int, x: int, q: nat)
    requires q > 0 && rest % q == (b + (x - z) * v) % q
    ensures (c + x * rest) % q == ((c + z * b) % q + (x - z) * (b + x * v)) % q
  {
    var inner := b + (x - z) * v;
    CongruentProduct(rest, inner, x, q);
    CongruentSum(c, c, x * rest, x * inner, q);
    AddMod(c + z * b, (x - z) * (b + x * v), q);
    DivisionRing(c, b, v, z, x);
  }

  lemma DivisionRing(c: int, b: int, v: int, z: int, x: int)
    ensures c + x * (b + (x - z) * v) == c + z * b + (x - z) * (b + x * v)
  {
    var w := x - z;
    calc {
      z * b + w * (b + x * v);
      z * b + (w * b + w * (x * v));
      (z + w) * b + w * (x * v);
      x * b + w * (x * v);
      x * b + x * (w * v);
      x * (b + w * v);
    }
  }

  lemma DivisionRemainder(p: seq<int>, z: int, q: nat)
    requires q > 0 && p != []
    ensures Division(p, z, q)[0] % q == Value(p, z) % q
  {
    DivisionIdentity(p, z, z, q);
    assert (z - z) * Value(Division(p, z, q)[1..], z) == 0;
  }

  function Reverse(s: seq<int>): (r: seq<int>)
    ensures |r| == |s| && forall i :: 0 <= i < |s| ==> r[i] == s[|s| - 1 - i]
  {
    seq(|s|, i requires 0 <= i < |s| => s[|s| - 1 - i])
  }

  lemma ReverseSnoc(s: seq<int>, c: int)
    ensures Reverse(s + [c]) == [c] + Reverse(s)
  {
  }

  /** (value, quotient) describes p when value is p(z) and p(X) - value is (X - z) * quotient(X) modulo q. */
  ghost predicate ExactDivision(p: seq<int>, z: int, value: nat, quotient: seq<int>, q: nat)
    requires q > 0
  {
    value == Value(p, z) % q && forall x: int :: DividesAt(p, z, value, quotient, x, q)
  }

  ghost predicate DividesAt(p: seq<int>, z: int, value: nat, quotient: seq<int>, x: int, q: nat)
    requires q > 0
  {
    Value(p, x) % q == (value + (x - z) * Value(quotient, x)) % q
  }

  /** The coefficients that an opening at z is computed from. */
  function Quotient(p: seq<int>, z: int, q: nat): (b: seq<int>)
    requires q > 0 && p != []
    ensures 1 <= |b| && (|p| > 1 ==> |b| < |p|)
  {
    var t := Trim(p, q);
    if |t| == 1 then [0] else Trim(Division(t, z, q)[1..], q)
  }

  /** The coefficients of a division from the highest down to coefficient i, as synthetic division finds them. */
  ghost predicate Synthesized(p: seq<int>, z: int, i: nat, desc: seq<int>, q: nat)
    requires q > 0 && i < |p|
  {
    desc != [] && Reverse(desc) == Division(p[i..], z, q)
  }

  /** One more coefficient, at the end of the reversed quotient, is one more at the front of the division. */
  lemma SynthesisStep(p: seq<int>, z: int, i: nat, desc: seq<int>, next: int, q: nat)
    requires q > 0 && i + 1 < |p| && Synthesized(p, z, i + 1, desc, q)
    requires next == (p[i] + z * desc[|desc| - 1]) % q
    ensures Synthesized(p, z, i, desc + [next], q)
  {
    assert p[i..][1..] == p[i + 1..] && p[i..][0] == p[i];
    assert Division(p[i + 1..], z, q)[0] == desc[|desc| - 1];
    ReverseSnoc(desc, next);
  }

  lemma SynthesisStart(p: seq<int>, z: int, q: nat)
    requires q > 0 && p != []
    ensures Synthesized(p, z, |p| - 1, [p[|p| - 1]], q)
  {
    assert p[|p| - 1..] == [p[|p| - 1]];
  }

  lemma SynthesisEnd(coefficients: seq<int>, p: seq<int>, z: int, desc: seq<int>, remainder: int, q: nat)
    requires q > 1 && coefficients != [] && p == Trim(coefficients, q) && |p| > 1
    requires Synthesized(p, z, 0, desc + [remainder], q) && 0 <= remainder < q
    ensures desc != [] && Trim(Reverse(desc), q) == Quotient(coefficients, z, q)
    ensures remainder == Value(p, z) % q
  {
    assert p[0..] == p;
    assert |desc + [remainder]| == |p|;
    ReverseSnoc(desc, remainder);
    DivisionRemainder(p, z, q);
    SmallMod(remainder, q);
  }

  /** Synthetic division over the reversed coefficients; its closing self-check never fires. */
  method OpeningQuotient(coefficients: seq<int>, point: int, q: nat) returns (r: Result<(nat, seq<int>)>)
    requires q > 1
    ensures r == if coefficients == [] then Err
                 else Ok((Value(coefficients, point % q) % q, Quotient(coefficients, point % q, q)))
  {
    var trimmed := PolyTrim(coefficients, q);
    if trimmed.Err? {
      return Err;
    }
    var p := trimmed.value;
    var z := point % q;
    var value := PolynomialEvaluate(p, z, q);
    TrimSame(coefficients, q);
    assert Value(p, z) % q == Value(coefficients, z) % q;
    if |p| == 1 {
      return Ok((value, [0]));
    }
    var quotientDesc := [p[|p| - 1]];
    SynthesisStart(p, z, q);
    for i := |p| - 1 downto 1
      invariant Synthesized(p, z, i, quotientDesc, q)
    {
      var next := (p[i] + z * quotientDesc[|quotientDesc| - 1]) % q;
      SynthesisStep(p, z, i, quotientDesc, next, q);
      quotientDesc := quotientDesc + [next];
    }
    var remainder := (p[0] + z * quotientDesc[|quotientDesc| - 1]) % q;
    SynthesisStep(p, z, 0, quotientDesc, remainder, q);
    SynthesisEnd(coefficients, p, z, quotientDesc, remainder, q);
    if remainder != value {
      return Err;
    }
    var quotient := PolyTrim(Reverse(quotientDesc), q);
    return Ok((value, quotient.value));
  }

  lemma QuotientSame(p: seq<int>, z: int, x: int, q: nat)
    requires q > 0 && p != []
    ensures Value(Quotient(p, z, q), x) % q == Value(Division(Trim(p, q), z, q)[1..], x) % q
  {
    var tail := Division(Trim(p, q), z, q)[1..];
    if |Trim(p, q)| == 1 {
      assert tail == [] && Value([0], x) == 0;
    } else {
      TrimAt(tail, x, q);
    }
  }

  lemma QuotientAt(p: seq<int>, z: int, x: int, q: nat)
    requires q > 0 && p != []
    ensures Value(p, x) % q == (Value(p, z) % q + (x - z) * Value(Quotient(p, z, q), x)) % q
  {
    var t := Trim(p, q);
    TrimAt(p, x, q);
    TrimAt(p, z, q);
    DivisionRemainder(t, z, q);
    DivisionIdentity(t, z, x, q);
    QuotientSame(p, z, x, q);
    SwapParts(Value(p, z), Division(t, z, q)[0], x - z, Value(Quotient(p, z, q), x), Value(Division(t, z, q)[1..], x),
              q);
  }

  lemma SwapParts(y: int, y': int, w: int, v: int, v': int, q: nat)
    requires q > 0 && y % q == y' % q && v % q == v' % q
    ensures (y % q + w * v) % q == (y' + w * v') % q
  {
    ModMod(y, q);
    CongruentProduct(v, v', w, q);
    CongruentSum(y % q, y', w * v, w * v', q);
  }

  /** What the opening publishes is the exact division of p(X) - p(z) by X - z. */
  lemma QuotientDivides(p: seq<int>, z: int, q: nat)
    requires q > 0 && p != []
    ensures ExactDivision(p, z, Value(p, z) % q, Quotient(p, z, q), q)
  {
    forall x: int
      ensures DividesAt(p, z, Value(p, z) % q, Quotient(p, z, q), x, q)
    {
      QuotientAt(p, z, x, q);
    }
  }

  // ---------------------------------------------------------------- structured reference string

  /** Exponents of the published elements; construction requires every element to decompress. */
  datatype Srs = Srs(commitment: seq<nat>, opening: seq<nat>, tauG2: nat, rhoG2: nat)

  function Power(tau: nat, i: nat, q: nat): (p: nat)
    requires q > 1
    ensures p < q
  {
    if i == 0 then 1 else (Power(tau, i - 1, q) * tau) % q
  }

  lemma {:induction false} PowerNonzero(tau: nat, i: nat, q: nat)
    requires Prime(q) && 0 < tau < q
    ensures Power(tau, i, q) > 0
  {
    if i == 0 {
    } else {
      PowerNonzero(tau, i - 1, q);
      SmallMod(tau, q);
      ScaledPointNonzero(Power(tau, i - 1, q), tau, q);
    }
  }

  /** What generate publishes: the powers of tau, and the same powers scaled by rho. */
  ghost predicate IsSrs(srs: Srs, degree: nat, tau: nat, rho: nat, q: nat)
    requires q > 1
  {
    && |srs.commitment| == |srs.opening| == degree + 1
    && (forall i :: 0 <= i <= degree ==> srs.commitment[i] == Power(tau, i, q))
    && (forall i :: 0 <= i <= degree ==> srs.opening[i] == Multiply(rho, Power(tau, i, q), q))
    && srs.tauG2 == tau && srs.rhoG2 == rho
  }

  method Generate(maximumDegree: int, tauSecret: int, rhoSecret: int, q: nat) returns (r: Result<Srs>)
    requires Prime(q)
    ensures r.Ok? <==> 1 <= maximumDegree <= 1_000_000 && tauSecret % q != 0 && rhoSecret % q != 0
    ensures r.Ok? ==> IsSrs(r.value, maximumDegree, tauSecret % q, rhoSecret % q, q)
  {
    if !(1 <= maximumDegree <= 1_000_000) {
      return Err;
    }
    var tau, rho := tauSecret % q, rhoSecret % q;
    if tau == 0 || rho == 0 {
      return Err;
    }
    var commitment, opening := [], [];
    var power := 1;
    for i := 0 to maximumDegree + 1
      invariant |commitment| == |opening| == i
      invariant power == Power(tau, i, q)
      invariant forall j :: 0 <= j < i ==> commitment[j] == Power(tau, j, q)
      invariant forall j :: 0 <= j < i ==> opening[j] == Multiply(rho, Power(tau, j, q), q)
    {
      PowerNonzero(tau, i, q);
      SmallMod(power, q);
      ScaledPointNonzero(rho, power, q);
      var c := Compress(power);
      var o := Compress(Multiply(rho, power, q));
      if c.Err? || o.Err? {
        return Err;
      }
      commitment := commitment + [c.value.exponent];
      opening := opening + [o.value.exponent];
      power := power * tau % q;
    }
    return Ok(Srs(commitment, opening, tau, rho));
  }

  /** sum of bases[i] * scalars[i]. */
  function Dot(bases: seq<nat>, scalars: seq<int>): int
    requires |scalars| <= |bases|
  {
    if scalars == [] then 0 else bases[0] * scalars[0] + Dot(bases[1..], scalars[1..])
  }

  /** sum of the multiples actually computed: reduced scalars, zero ones skipped. */
  function Terms(bases: seq<nat>, scalars: seq<int>, q: nat): seq<nat>
    requires q > 0 && |scalars| <= |bases|
  {
    if scalars == [] then []
    else
      (if scalars[0] % q == 0 then [] else [Multiply(bases[0], scalars[0] % q, q)])
      + Terms(bases[1..], scalars[1..], q)
  }

  lemma {:induction false} TermsSum(bases: seq<nat>, scalars: seq<int>, q: nat)
    requires q > 0 && |scalars| <= |bases|
    ensures Sum(Terms(bases, scalars, q)) % q == Dot(bases, scalars) % q
  {
    if scalars == [] {
    } else {
      var b, s := bases[0], scalars[0];
      var rest, restDot := Terms(bases[1..], scalars[1..], q), Dot(bases[1..], scalars[1..]);
      TermsSum(bases[1..], scalars[1..], q);
      ModMod(s, q);
      CongruentProduct(s % q, s, b, q);
      if s % q == 0 {
        assert Terms(bases, scalars, q) == rest;
        assert b * 0 == 0;
        CongruentSum(b * s, 0, restDot, restDot, q);
      } else {
        var t := Multiply(b, s % q, q);
        assert Terms(bases, scalars, q) == [t] + rest;
        assert Sum([t] + rest) == t + Sum(rest) by { assert ([t] + rest)[1..] == rest; }
        ModMod(b * (s % q), q);
        CongruentSum(t, b * s, Sum(rest), restDot, q);
      }
    }
  }

  method Msm(bases: seq<nat>, scalars: seq<int>, q: nat) returns (r: Result<Wire>)
    requires q > 0
    ensures r ==
      if |scalars| <= |bases| && Dot(bases, scalars) % q != 0 then Ok(Point(Dot(bases, scalars) % q)) else Err
  {
    if |scalars| > |bases| {
      return Err;
    }
    var terms := Terms(bases, scalars, q);
    var result := Multiply(1, 0, q);
    SmallMod(0, q);
    for i := 0 to |terms|
      invariant result == Sum(terms[..i]) % q
    {
      SumPrefix(terms, i);
      AddMod(Sum(terms[..i]), terms[i], q);
      result := Add(result, terms[i], q);
    }
    assert terms[..|terms|] == terms;
    TermsSum(bases, scalars, q);
    r := Compress(result);
  }

  /** sum of k * tau^i * p_i over i is k * tau^from * p(tau). */
  lemma {:induction false} DotIsValue(bases: seq<nat>, p: seq<int>, k: nat, tau: nat, from: nat, q: nat)
    requires q > 1 && |p| <= |bases|
    requires forall i :: 0 <= i < |bases| ==> bases[i] % q == (k * Power(tau, from + i, q)) % q
    ensures Dot(bases, p) % q == (k * Power(tau, from, q) * Value(p, tau)) % q
  {
    if p == [] {
      assert k * Power(tau, from, q) * 0 == 0;
    } else {
      forall i | 0 <= i < |bases[1..]|
        ensures bases[1..][i] % q == (k * Power(tau, from + 1 + i, q)) % q
      {
        assert bases[1..][i] == bases[i + 1];
        assert from + 1 + i == from + (i + 1);
      }
      DotIsValue(bases[1..], p[1..], k, tau, from + 1, q);
      assert bases[0] % q == (k * Power(tau, from + 0, q)) % q;
      DotStep(bases[0], p[0], Dot(bases[1..], p[1..]), k, Power(tau, from, q), tau, Value(p[1..], tau), q);
    }
  }

  lemma DotStep(base: nat, c: int, rest: int, k: nat, power: nat, tau: nat, v: int, q: nat)
    requires q > 1 && base % q == (k * power) % q
    requires rest % q == (k * ((power * tau) % q) * v) % q
    ensures (base * c + rest) % q == (k * power * (c + tau * v)) % q
  {
    CongruentProduct(base, k * power, c, q);
    ModMod(power * tau, q);
    CongruentProduct((power * tau) % q, power * tau, k, q);
    CongruentProduct(k * ((power * tau) % q), k * (power * tau), v, q);
    CongruentSum(base * c, k * power * c, rest, k * (power * tau) * v, q);
    Distribute(c, tau * v, k * power);
    Associate(k, power, tau);
    Associate(k * power, tau, v);
  }

  method Commit(srs: Srs, coefficients: seq<int>, q: nat) returns (r: Result<Wire>)
    requires q > 0
    ensures r ==
      if coefficients != [] && |coefficients| <= |srs.commitment| && Dot(srs.commitment, coefficients) % q != 0
                 then Ok(Point(Dot(srs.commitment, coefficients) % q)) else Err
  {
    if coefficients == [] {
      return Err;
    }
    r := Msm(srs.commitment, coefficients, q);
  }

  /** Over a generated string a commitment is p(tau) and an opening basis evaluates to rho * p(tau). */
  lemma SrsEvaluates(srs: Srs, degree: nat, tau: nat, rho: nat, p: seq<int>, q: nat)
    requires Prime(q) && IsSrs(srs, degree, tau, rho, q) && |p| <= degree + 1
    ensures Dot(srs.commitment, p) % q == Value(p, tau) % q
    ensures Dot(srs.opening, p) % q == (rho * Value(p, tau)) % q
  {
    CommitmentBasisEvaluates(srs, degree, tau, rho, p, q);
    OpeningBasisEvaluates(srs, degree, tau, rho, p, q);
  }

  lemma CommitmentBasisEvaluates(srs: Srs, degree: nat, tau: nat, rho: nat, p: seq<int>, q: nat)
    requires Prime(q) && IsSrs(srs, degree, tau, rho, q) && |p| <= degree + 1
    ensures Dot(srs.commitment, p) % q == Value(p, tau) % q
  {
    forall i | 0 <= i < |srs.commitment|
      ensures srs.commitment[i] % q == (1 * Power(tau, 0 + i, q)) % q
    {
    }
    DotIsValue(srs.commitment, p, 1, tau, 0, q);
    assert 1 * 1 * Value(p, tau) == Value(p, tau);
  }

  lemma OpeningBasisEvaluates(srs: Srs, degree: nat, tau: nat, rho: nat, p: seq<int>, q: nat)
    requires Prime(q) && IsSrs(srs, degree, tau, rho, q) && |p| <= degree + 1
    ensures Dot(srs.opening, p) % q == (rho * Value(p, tau)) % q
  {
    forall i | 0 <= i < |srs.opening|
      ensures srs.opening[i] % q == (rho * Power(tau, 0 + i, q)) % q
    {
      ModMod(rho * Power(tau, i, q), q);
    }
    DotIsValue(srs.opening, p, rho, tau, 0, q);
    assert rho * 1 * Value(p, tau) == rho * Value(p, tau);
  }

  datatype Opening = Opening(point: nat, value: nat, proof: Wire)

  datatype Statement = Statement(commitment: Wire, point: nat, value: nat, context: Bytes) {
    predicate Valid(q: nat) {
      Decodes(commitment, q) && point < q && value < q
    }
  }

  /**
   * An opening exists unless the polynomial is empty, its quotient outgrows the string or the proof is the identity.
   */
  method Open(srs: Srs, coefficients: seq<int>, point: int, q: nat) returns (r: Result<Opening>)
    requires q > 1
    ensures r == if coefficients == [] then Err else
      var z, quotient := point % q, Quotient(coefficients, point % q, q);
      if |quotient| <= |srs.opening| && Dot(srs.opening, quotient) % q != 0
      then Ok(Opening(z, Value(coefficients, z) % q, Point(Dot(srs.opening, quotient) % q)))
      else Err
  {
    var division := OpeningQuotient(coefficients, point, q);
    if division.Err? {
      return Err;
    }
    var (value, quotient) := division.value;
    if forall i :: 0 <= i < |quotient| ==> quotient[i] % q == 0 {
      if |quotient| <= |srs.opening| {
        ZeroDot(srs.opening, quotient, q);
      }
      return Err;
    }
    var proof := Msm(srs.opening, quotient, q);
    if proof.Err? {
      return Err;
    }
    return Ok(Opening(point % q, value, proof.value));
  }

  lemma {:induction false} ZeroDot(bases: seq<nat>, scalars: seq<int>, q: nat)
    requires q > 0 && |scalars| <= |bases|
    requires forall i :: 0 <= i < |scalars| ==> scalars[i] % q == 0
    ensures Dot(bases, scalars) % q == 0
  {
    SmallMod(0, q);
    if scalars != [] {
      forall i | 0 <= i < |scalars[1..]|
        ensures scalars[1..][i] % q == 0
      {
        assert scalars[1..][i] == scalars[i + 1];
      }
      ZeroDot(bases[1..], scalars[1..], q);
      CongruentProduct(scalars[0], 0, bases[0], q);
      CongruentSum(bases[0] * scalars[0], 0, Dot(bases[1..], scalars[1..]), 0, q);
    }
  }

  // ---------------------------------------------------------------- verification

  function CommitmentMinusValue(s: Statement, q: nat): nat
    requires q > 0 && s.commitment.Point?
  {
    Add(s.commitment.exponent, Neg(Multiply(1, s.value, q), q), q)
  }

  function TauMinusPoint(tau: nat, z: nat, q: nat): nat
    requires q > 0
  {
    Add(tau, Neg(Multiply(1, z, q), q), q)
  }

  /** e(proof, [tau - z]) == e(C - y, [rho]). */
  predicate VerifyOpening(srs: Srs, s: Statement, o: Opening, q: nat)
    requires q > 0
  {
    && o.point == s.point && o.value == s.value
    && Decodes(o.proof, q) && Decodes(s.commitment, q)
    && PairingProduct2(o.proof.exponent, TauMinusPoint(srs.tauG2, s.point, q), Neg(CommitmentMinusValue(s, q), q),
                       srs.rhoG2, q) == 0
  }

  lemma Difference(a: nat, b: nat, q: nat)
    requires q > 0
    ensures Add(a, Neg(Multiply(1, b, q), q), q) == (a - b) % q
  {
    var m: int := Multiply(1, b, q);
    AddMod(-1 * m, a, q);
    assert 1 * b == b;
    SubMod(a, b, q);
  }

  /** The check says proof * (tau - z) == (C - y) * rho, modulo q. */
  lemma VerifyEquation(srs: Srs, s: Statement, o: Opening, q: nat)
    requires q > 0 && o.point == s.point && o.value == s.value && Decodes(o.proof, q) && Decodes(s.commitment, q)
    ensures VerifyOpening(srs, s, o, q) <==>
      (o.proof.exponent * (srs.tauG2 - s.point)) % q == ((s.commitment.exponent - s.value) * srs.rhoG2) % q
  {
    var cy, tz := CommitmentMinusValue(s, q), TauMinusPoint(srs.tauG2, s.point, q);
    Difference(srs.tauG2, s.point, q);
    Difference(s.commitment.exponent, s.value, q);
    PairingQuotientIsOne(o.proof.exponent, tz, cy, srs.rhoG2, q);
    ModMod(srs.tauG2 - s.point, q);
    ModMod(s.commitment.exponent - s.value, q);
    CongruentProduct(tz, srs.tauG2 - s.point, o.proof.exponent, q);
    CongruentProduct(cy, s.commitment.exponent - s.value, srs.rhoG2, q);
  }

  /** Over a generated string, the opening of a committed polynomial always verifies. */
  lemma HonestOpeningVerifies(srs: Srs, degree: nat, tau: nat, rho: nat, p: seq<int>, z: nat, context: Bytes, q: nat)
    requires Prime(q) && IsSrs(srs, degree, tau, rho, q) && p != [] && |p| <= degree + 1 && z < q
    requires Dot(srs.commitment, p) % q != 0 && Dot(srs.opening, Quotient(p, z, q)) % q != 0
    ensures var y := Value(p, z) % q;
      VerifyOpening(srs, Statement(Point(Dot(srs.commitment, p) % q), z, y, context),
                    Opening(z, y, Point(Dot(srs.opening, Quotient(p, z, q)) % q)), q)
  {
    var quotient, value := Quotient(p, z, q), Value(p, z) % q;
    var c, w := Dot(srs.commitment, p) % q, Dot(srs.opening, quotient) % q;
    QuotientAt(p, z, tau, q);
    SrsEvaluates(srs, degree, tau, rho, p, q);
    SrsEvaluates(srs, degree, tau, rho, quotient, q);
    var s, o := Statement(Point(c), z, value, context), Opening(z, value, Point(w));
    VerifyEquation(srs, s, o, q);
    HonestEquation(c, w, Value(p, tau), Value(quotient, tau), tau, rho, z, value, q);
  }

  lemma HonestEquation(c: nat, w: nat, pv: int, qv: int, tau: nat, rho: nat, z: nat, y: nat, q: nat)
    requires q > 0 && c == pv % q && w == (rho * qv) % q
    requires pv % q == (y + (tau - z) * qv) % q
    ensures (w * (tau - z)) % q == ((c - y) * rho) % q
  {
    var t := tau - z;
    ModMod(rho * qv, q);
    CongruentProduct(w, rho * qv, t, q);
    ModMod(pv, q);
    CongruentSum(c, y + t * qv, -1 * y, -1 * y, q);
    CongruentProduct(c - y, t * qv, rho, q);
    Associate(rho, qv, t);
    Commute(qv, t);
    Commute(rho, t * qv);
  }

  /**
   * Beside an accepted opening, another proof is accepted for the same statement exactly when the
   * evaluation point is tau: away from tau the accepted proof is unique.
   */
  lemma AcceptedProofUnique(srs: Srs, s: Statement, o: Opening, other: Wire, q: nat)
    requires Prime(q) && srs.tauG2 < q && s.Valid(q) && VerifyOpening(srs, s, o, q)
    requires Decodes(other, q) && other != o.proof
    ensures VerifyOpening(srs, s, o.(proof := other), q) <==> s.point == srs.tauG2
  {
    var t := srs.tauG2 - s.point;
    VerifyEquation(srs, s, o, q);
    VerifyEquation(srs, s, o.(proof := other), q);
    Commute(o.proof.exponent, t);
    Commute(other.exponent, t);
    SmallMod(o.proof.exponent, q);
    SmallMod(other.exponent, q);
    if t != 0 {
      DifferenceNonzero(srs.tauG2, s.point, q);
      Cancel(q, t, o.proof.exponent, other.exponent);
    }
  }

  lemma DifferenceNonzero(a: nat, b: nat, q: nat)
    requires a < q && b < q
    ensures (a - b) % q == 0 <==> a == b
  {
    CongruentIff(a, b, q);
    SmallMod(a, q);
    SmallMod(b, q);
    SmallMod(0, q);
  }

  // ---------------------------------------------------------------- witness encryption

  /** Authenticated encryption under a key derived from the session and the statement. */
  datatype Cipher = Cipher(seal: (nat, Statement, Bytes) -> Bytes, unseal: (nat, Statement, Bytes) -> Option<Bytes>) {
    /** What is sealed opens under the same session and statement. */
    ghost predicate Correct() {
      forall k: nat, s: Statement, m: Bytes :: unseal(k, s, seal(k, s, m)) == Some(m)
    }
  }

  datatype Ciphertext = Ciphertext(headerTau: nat, headerOne: nat, payload: Bytes)

  function EncryptionSession(srs: Srs, s: Statement, r: nat, q: nat): nat
    requires q > 0 && s.commitment.Point?
  {
    (Multiply(CommitmentMinusValue(s, q), r, q) * srs.rhoG2) % q
  }

  function Encrypt(cipher: Cipher, srs: Srs, s: Statement, secret: Bytes, randomness: int, q: nat): Result<Ciphertext>
    requires q > 0 && s.commitment.Point?
  {
    var r := randomness % q;
    if |secret| != 32 || r == 0 then Err
    else Ok(Ciphertext(Multiply(srs.tauG2, r, q), Multiply(1, r, q),
                       cipher.seal(EncryptionSession(srs, s, r, q), s, secret)))
  }

  /** r[tau] - z * r[1], which must have an encoding. */
  function HeaderForPoint(c: Ciphertext, point: int, q: nat): Result<Wire>
    requires q > 0
  {
    Compress(Add(c.headerTau, Neg(Multiply(c.headerOne, point % q, q), q), q))
  }

  function Decrypt(cipher: Cipher, s: Statement, c: Ciphertext, o: Opening, q: nat): Result<Bytes>
    requires q > 0
  {
    if o.point != s.point || o.value != s.value || !Decodes(o.proof, q) then Err
    else
      var header :- HeaderForPoint(c, s.point, q);
      match cipher.unseal((o.proof.exponent * header.exponent) % q, s, c.payload)
      case None => Err
      case Some(m) => Ok(m)
  }

  function SessionFromScaledRho(s: Statement, scaledRho: nat, q: nat): nat
    requires q > 0 && s.commitment.Point?
  {
    (CommitmentMinusValue(s, q) * scaledRho) % q
  }

  /** The header for z is r * (tau - z), so it has an encoding exactly when z is not tau. */
  lemma HeaderValue(tau: nat, z: nat, r: nat, payload: Bytes, q: nat)
    requires Prime(q) && tau < q && z < q && r % q != 0
    ensures HeaderForPoint(Ciphertext(Multiply(tau, r, q), Multiply(1, r, q), payload), z, q)
      == if z == tau then Err else Ok(Point((r * (tau - z)) % q))
  {
    var ht, ho := Multiply(tau, r, q), Multiply(1, r, q);
    SmallMod(z, q);
    assert 1 * r == r;
    HeaderExponent(ht, ho, tau, z, r, q);
    DifferenceNonzero(tau, z, q);
    PrimeDividesProduct(q, r, tau - z);
  }

  lemma HeaderExponent(ht: nat, ho: nat, tau: nat, z: nat, r: nat, q: nat)
    requires q > 0 && ht == (tau * r) % q && ho == r % q
    ensures Add(ht, Neg(Multiply(ho, z, q), q), q) == (r * (tau - z)) % q
  {
    var m: int := Multiply(ho, z, q);
    AddMod(-1 * m, ht, q);
    ModMod(tau * r, q);
    ModMod(r, q);
    CongruentProduct(ho, r, z, q);
    AddMod(tau * r, -1 * m, q);
    SubMod(tau * r, ho * z, q);
    SubMod(tau * r, r * z, q);
    Commute(tau, r);
    Distribute(tau, -1 * z, r);
  }

  /**
   * Decryption derives the encryption session from exactly the openings that verify, at every point
   * other than tau; at tau the header has no encoding and decryption always fails.
   */
  lemma DecryptionSession(srs: Srs, s: Statement, o: Opening, randomness: int, q: nat)
    requires Prime(q) && srs.tauG2 < q && 0 < srs.rhoG2 < q && s.Valid(q)
    requires o.point == s.point && o.value == s.value && Decodes(o.proof, q) && randomness % q != 0
    ensures
      var r := randomness % q;
      var header := HeaderForPoint(Ciphertext(Multiply(srs.tauG2, r, q), Multiply(1, r, q), []), s.point, q);
      && (header.Ok? <==> s.point != srs.tauG2)
      && (header.Ok? ==>
          ((o.proof.exponent * header.value.exponent) % q == EncryptionSession(srs, s, r, q)
           <==> VerifyOpening(srs, s, o, q)))
  {
    var r := randomness % q;
    ModMod(randomness, q);
    HeaderValue(srs.tauG2, s.point, r, [], q);
    VerifyEquation(srs, s, o, q);
    var w, t, cy := o.proof.exponent, srs.tauG2 - s.point, s.commitment.exponent - s.value;
    SessionEquation(srs, s, r, q);
    ModMod(r * t, q);
    CongruentProduct((r * t) % q, r * t, w, q);
    Commute(w, r * t);
    Associate(r, t, w);
    Commute(t, w);
    Cancel(q, r, w * t, cy * srs.rhoG2);
  }

  lemma SessionEquation(srs: Srs, s: Statement, r: nat, q: nat)
    requires q > 0 && s.commitment.Point?
    ensures EncryptionSession(srs, s, r, q) == (r * ((s.commitment.exponent - s.value) * srs.rhoG2)) % q
  {
    var cy := s.commitment.exponent - s.value;
    var m := CommitmentMinusValue(s, q);
    Difference(s.commitment.exponent, s.value, q);
    ModMod(cy, q);
    ModMod(m * r, q);
    CongruentProduct(m, cy, r, q);
    CongruentProduct(Multiply(m, r, q), cy * r, srs.rhoG2, q);
    Associate(cy, r, srs.rhoG2);
    Commute(cy * srs.rhoG2, r);
  }

  /** For an accepted opening, decryption returns the secret exactly when the point is not tau. */
  lemma DecryptsExactly(cipher: Cipher, srs: Srs, s: Statement, o: Opening, secret: Bytes, randomness: int, q: nat)
    requires cipher.Correct() && Prime(q) && srs.tauG2 < q && 0 < srs.rhoG2 < q && s.Valid(q)
    requires VerifyOpening(srs, s, o, q) && Encrypt(cipher, srs, s, secret, randomness, q).Ok?
    ensures Decrypt(cipher, s, Encrypt(cipher, srs, s, secret, randomness, q).value, o, q)
      == if s.point == srs.tauG2 then Err else Ok(secret)
  {
    DecryptionSession(srs, s, o, randomness, q);
  }

  /** An opening of another point or value, or with a proof that does not decode, neither verifies nor decrypts. */
  lemma ForeignOpeningFails(cipher: Cipher, srs: Srs, s: Statement, c: Ciphertext, o: Opening, q: nat)
    requires q > 0 && (o.point != s.point || o.value != s.value || !Decodes(o.proof, q))
    ensures !VerifyOpening(srs, s, o, q) && Decrypt(cipher, s, c, o, q) == Err
  {
  }

  /** Encryption raises exactly for a secret of another width and for zero randomness. */
  lemma EncryptsExactly(cipher: Cipher, srs: Srs, s: Statement, secret: Bytes, randomness: int, q: nat)
    requires q > 0 && s.commitment.Point?
    ensures Encrypt(cipher, srs, s, secret, randomness, q).Err? <==> |secret| != 32 || randomness % q == 0
  {
  }

  /** No other session opens this payload for the statement. */
  ghost predicate OnlyOpensUnder(cipher: Cipher, s: Statement, session: nat, payload: Bytes) {
    forall k: nat :: k != session ==> cipher.unseal(k, s, payload).None?
  }

  /**
   * If no other session opens the payload, decryption returns the secret for exactly the openings that verify away
   * from tau, and raises for every other one.
   */
  lemma DecryptsOnlyAccepted(
    cipher: Cipher, srs: Srs, s: Statement, o: Opening, secret: Bytes, randomness: int, q: nat)
    requires cipher.Correct() && Prime(q) && srs.tauG2 < q && 0 < srs.rhoG2 < q && s.Valid(q)
    requires Encrypt(cipher, srs, s, secret, randomness, q).Ok?
    requires OnlyOpensUnder(cipher, s, EncryptionSession(srs, s, randomness % q, q),
                            Encrypt(cipher, srs, s, secret, randomness, q).value.payload)
    ensures Decrypt(cipher, s, Encrypt(cipher, srs, s, secret, randomness, q).value, o, q)
      == if VerifyOpening(srs, s, o, q) && s.point != srs.tauG2 then Ok(secret) else Err
  {
    var c := Encrypt(cipher, srs, s, secret, randomness, q).value;
    if o.point != s.point || o.value != s.value || !Decodes(o.proof, q) {
      ForeignOpeningFails(cipher, srs, s, c, o, q);
    } else {
      DecryptionSession(srs, s, o, randomness, q);
    }
  }

  /**
   * At tau the two differ: the opening of p(X) = X there verifies, and decrypting with it fails for every secret
   * and randomness.
   */
  lemma OpeningAtTauDoesNotDecrypt(
    cipher: Cipher, srs: Srs, degree: nat, tau: nat, rho: nat, context: Bytes, secret: Bytes, randomness: int, q: nat)
    requires cipher.Correct() && Prime(q) && 0 < tau < q && 0 < rho < q
    requires IsSrs(srs, degree, tau, rho, q) && degree >= 1
    requires |secret| == 32 && randomness % q != 0
    ensures
      var s, o := Statement(Point(tau), tau, tau, context), Opening(tau, tau, Point(rho));
      && Dot(srs.commitment, [0, 1]) % q == tau && Value([0, 1], tau) == tau
      && VerifyOpening(srs, s, o, q)
      && Encrypt(cipher, srs, s, secret, randomness, q).Ok?
      && Decrypt(cipher, s, Encrypt(cipher, srs, s, secret, randomness, q).value, o, q) == Err
  {
    var s, o := Statement(Point(tau), tau, tau, context), Opening(tau, tau, Point(rho));
    VerifyEquation(srs, s, o, q);
    DecryptsExactly(cipher, srs, s, o, secret, randomness, q);
    IdentityPolynomial(srs, degree, tau, rho, q);
  }

  lemma IdentityPolynomial(srs: Srs, degree: nat, tau: nat, rho: nat, q: nat)
    requires Prime(q) && tau < q && IsSrs(srs, degree, tau, rho, q) && degree >= 1
    ensures Dot(srs.commitment, [0, 1]) % q == tau && Value([0, 1], tau) == tau
  {
    var p := [0, 1];
    var none: seq<int> := [];
    assert p[1..] == [1] && [1][1..] == none;
    assert Value([1], tau) == 1 + tau * Value(none, tau);
    CommitmentBasisEvaluates(srs, degree, tau, rho, p, q);
    SmallMod(tau, q);
  }

  /** Publishing r[rho] hands the encryption session to everybody. */
  lemma ScaledRhoSession(srs: Srs, s: Statement, r: nat, q: nat)
    requires q > 0 && s.commitment.Point?
    ensures SessionFromScaledRho(s, Multiply(srs.rhoG2, r, q), q) == EncryptionSession(srs, s, r, q)
  {
    var m := CommitmentMinusValue(s, q);
    ModMod(srs.rhoG2 * r, q);
    ModMod(m * r, q);
    CongruentProduct(Multiply(srs.rhoG2, r, q), srs.rhoG2 * r, m, q);
    CongruentProduct(Multiply(m, r, q), m * r, srs.rhoG2, q);
    Commute(srs.rhoG2, r);
    Associate(m, r, srs.rhoG2);
  }
}
