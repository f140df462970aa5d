/** Algebraic input authentication: affine one-time tokens, their aggregate and the two gadgets that check it. */
module InputAuth {
  import opened ByteStrings
  import opened PrimeField

  datatype Group = G1 | G2 | GT

  /** A formal group element; construction reduces the exponent. */
  datatype Element = Element(group: Group, exponent: nat, modulus: nat) {
    ghost predicate Valid() {
      modulus > 2 && exponent < modulus
    }

    ghost predicate Compatible(other: Element) {
      group == other.group && modulus == other.modulus
    }

    function Plus(other: Element): Element
      requires Valid() && other.Valid() && Compatible(other)
    {
      Element(group, (exponent + other.exponent) % modulus, modulus)
    }

    function Minus(other: Element): Element
      requires Valid() && other.Valid() && Compatible(other)
    {
      Element(group, (exponent - other.exponent) % modulus, modulus)
    }

    function Scale(scalar: int): Element
      requires Valid()
    {
      Element(group, (exponent * scalar) % modulus, modulus)
    }
  }

  datatype PublicKey = PublicKey(base: Element, slope: Element) {
    /** What construction of a coordinate key checks. */
    ghost predicate Valid() {
      && base.Valid() && slope.Valid()
      && base.group == G2 && slope.group == G2 && base.modulus == slope.modulus
    }

    function At(value: int): (e: Element)
      requires Valid()
      ensures e.Valid() && e.group == G2 && e.modulus == base.modulus
    {
      base.Plus(slope.Scale(value))
    }
  }

  datatype Token = Token(coordinate: nat, value: byte, signature: Element) {
    ghost predicate Valid() {
      signature.Valid() && signature.group == G1
    }
  }

  datatype Witness = Witness(values: seq<byte>, signature: Element, aggregateKey: Element)

  datatype Authority = Authority(tag: nat, bases: seq<nat>, slopes: seq<nat>, modulus: nat) {
    /** What construction of an authority establishes, vectors reduced. */
    ghost predicate Valid() {
      && modulus > 257 && 0 < tag < modulus
      && bases != [] && |bases| == |slopes|
      && (forall i :: 0 <= i < |bases| ==> bases[i] < modulus)
      && (forall i :: 0 <= i < |slopes| ==> 0 < slopes[i] < modulus)
    }

    /** Made from these scalars, each reduced. */
    ghost predicate MadeFrom(tag: int, bases: seq<int>, slopes: seq<int>, modulus: int)
      requires modulus > 0
    {
      && this.modulus == modulus && this.tag == tag % modulus
      && |this.bases| == |bases| && (forall i :: 0 <= i < |bases| ==> this.bases[i] == bases[i] % modulus)
      && |this.slopes| == |slopes| && (forall i :: 0 <= i < |slopes| ==> this.slopes[i] == slopes[i] % modulus)
    }

    function TagPoint(): Element
      requires Valid()
    {
      Element(G1, tag, modulus)
    }

    function Keys(): (keys: seq<PublicKey>)
      requires Valid()
      ensures |keys| == |bases|
      ensures forall i :: 0 <= i < |keys| ==> keys[i].Valid() && keys[i].base.modulus == modulus
    {
      seq(|bases|, i requires 0 <= i < |bases| =>
        PublicKey(Element(G2, bases[i], modulus), Element(G2, slopes[i], modulus)))
    }

    function TokenFor(coordinate: nat, value: byte): (t: Token)
      requires Valid() && coordinate < |bases|
      ensures t.Valid() && t.signature.modulus == modulus
    {
      var secret := (bases[coordinate] + value * slopes[coordinate]) % modulus;
      Token(coordinate, value, TagPoint().Scale(secret))
    }

    function Select(values: seq<byte>): (tokens: seq<Token>)
      requires Valid() && |values| == |bases|
      ensures |tokens| == |values|
      ensures forall i :: 0 <= i < |tokens| ==> tokens[i] == TokenFor(i, values[i])
    {
      seq(|values|, i requires 0 <= i < |values| => TokenFor(i, values[i]))
    }

    /** sum of a_i + v_i * b_i over the first n coordinates. */
    ghost function Secrets(values: seq<byte>, n: nat): nat
      requires |values| == |bases| == |slopes| && n <= |values|
    {
      if n == 0 then 0 else Secrets(values, n - 1) + bases[n - 1] + values[n - 1] * slopes[n - 1]
    }
  }

  /** Reduces every scalar; rejects small orders, a zero tag, mismatched vectors and zero slopes. */
  function MakeAuthority(tag: int, bases: seq<int>, slopes: seq<int>, modulus: int): (r: Result<Authority>)
    ensures r.Ok? <==>
      && modulus > 257 && tag % modulus != 0 && bases != [] && |bases| == |slopes|
      && forall i :: 0 <= i < |slopes| ==> slopes[i] % modulus != 0
    ensures r.Ok? ==> r.value.Valid() && r.value.MadeFrom(tag, bases, slopes, modulus)
  {
    if modulus <= 257 then Err
    else if tag % modulus == 0 then Err
    else if bases == [] || |bases| != |slopes| then Err
    else
      var a := seq(|bases|, i requires 0 <= i < |bases| => bases[i] % modulus);
      var b := seq(|slopes|, i requires 0 <= i < |slopes| => slopes[i] % modulus);
      if exists i :: 0 <= i < |b| && b[i] == 0 then
        var i :| 0 <= i < |b| && b[i] == 0;
        assert slopes[i] % modulus == 0;
        Err
      else
        assert forall i :: 0 <= i < |slopes| ==> slopes[i] % modulus == b[i];
        Ok(Authority(tag % modulus, a, b, modulus))
  }

  // ---------------------------------------------------------------- aggregation

  ghost predicate KeysShare(keys: seq<PublicKey>, modulus: nat) {
    forall i :: 0 <= i < |keys| ==> keys[i].Valid() && keys[i].base.modulus == modulus
  }

  ghost predicate InOrder(tokens: seq<Token>, modulus: nat) {
    forall i :: 0 <= i < |tokens| ==>
      tokens[i].Valid() && tokens[i].coordinate == i && tokens[i].signature.modulus == modulus
  }

  ghost function SignatureSum(tokens: seq<Token>, n: nat): nat
    requires n <= |tokens|
  {
    if n == 0 then 0 else SignatureSum(tokens, n - 1) + tokens[n - 1].signature.exponent
  }

  ghost function KeySum(values: seq<byte>, keys: seq<PublicKey>, n: nat): nat
    requires n <= |values| == |keys| && forall i :: 0 <= i < |keys| ==> keys[i].Valid()
  {
    if n == 0 then 0 else KeySum(values, keys, n - 1) + keys[n - 1].At(values[n - 1]).exponent
  }

  ghost function Values(tokens: seq<Token>): (v: seq<byte>)
    ensures |v| == |tokens|
  {
    seq(|tokens|, i requires 0 <= i < |tokens| => tokens[i].value)
  }

  /** The first n coordinates were in order and over one field, and w holds their running sums. */
  ghost predicate Aggregated(tokens: seq<Token>, keys: seq<PublicKey>, n: nat, m: nat, w: Witness)
    requires m > 0 && n <= |tokens| == |keys| && forall i :: 0 <= i < |keys| ==> keys[i].Valid()
  {
    && InOrder(tokens[..n], m) && KeysShare(keys[..n], m)
    && w == Witness(Values(tokens)[..n],
                    Element(G1, SignatureSum(tokens, n) % m, m),
                    Element(G2, KeySum(Values(tokens), keys, n) % m, m))
  }

  lemma AggregateStep(tokens: seq<Token>, keys: seq<PublicKey>, n: nat, m: nat, w: Witness)
    requires m > 2 && n < |tokens| == |keys| && forall i :: 0 <= i < |keys| ==> keys[i].Valid()
    requires Aggregated(tokens, keys, n, m, w)
    requires tokens[n].Valid() && tokens[n].coordinate == n
    requires tokens[n].signature.modulus == m && keys[n].base.modulus == m
    ensures w.signature.Valid() && w.signature.Compatible(tokens[n].signature)
    ensures w.aggregateKey.Valid() && w.aggregateKey.Compatible(keys[n].At(tokens[n].value))
    ensures Aggregated(tokens, keys, n + 1, m,
                       Witness(w.values + [tokens[n].value], w.signature.Plus(tokens[n].signature),
                               w.aggregateKey.Plus(keys[n].At(tokens[n].value))))
  {
    var next := keys[n].At(tokens[n].value);
    PlusReduced(G1, SignatureSum(tokens, n), tokens[n].signature, m);
    PlusReduced(G2, KeySum(Values(tokens), keys, n), next, m);
    assert KeySum(Values(tokens), keys, n + 1) == KeySum(Values(tokens), keys, n) + next.exponent;
  }

  /** Every coordinate exactly once and in order, over one field; anything else raises. */
  method AggregateTokens(tokens: seq<Token>, keys: seq<PublicKey>) returns (r: Result<Witness>)
    requires forall i :: 0 <= i < |tokens| ==> tokens[i].Valid()
    requires forall i :: 0 <= i < |keys| ==> keys[i].Valid()
    ensures r.Ok? <==>
      && tokens != [] && |tokens| == |keys|
      && InOrder(tokens, tokens[0].signature.modulus) && KeysShare(keys, tokens[0].signature.modulus)
    ensures r.Ok? ==>
      var m := tokens[0].signature.modulus;
      r.value == Witness(Values(tokens),
                         Element(G1, SignatureSum(tokens, |tokens|) % m, m),
                         Element(G2, KeySum(Values(tokens), keys, |keys|) % m, m))
  {
    if tokens == [] || |tokens| != |keys| {
      return Err;
    }
    var modulus := tokens[0].signature.modulus;
    var signature := Element(G1, 0, modulus);
    var aggregateKey := Element(G2, 0, modulus);
    var values: seq<byte> := [];
    var seen: set<nat> := {};
    SmallMod(0, modulus);
    for i := 0 to |tokens|
      invariant forall j: nat :: j in seen ==> j < i
      invariant Aggregated(tokens, keys, i, modulus, Witness(values, signature, aggregateKey))
    {
      var token, key := tokens[i], keys[i];
      if token.coordinate != i || token.coordinate in seen {
        return Err;
      }
      if token.signature.modulus != modulus || key.base.modulus != modulus {
        return Err;
      }
      seen := seen + {token.coordinate};
      AggregateStep(tokens, keys, i, modulus, Witness(values, signature, aggregateKey));
      signature := signature.Plus(token.signature);
      aggregateKey := aggregateKey.Plus(key.At(token.value));
      values := values + [token.value];
    }
    assert tokens[..|tokens|] == tokens && keys[..|keys|] == keys && Values(tokens)[..|tokens|] == Values(tokens);
    return Ok(Witness(values, signature, aggregateKey));
  }

  /** Adding to a reduced running sum reduces the longer sum. */
  lemma PlusReduced(group: Group, sum: nat, e: Element, m: nat)
    requires m > 2 && e.Valid() && e.group == group && e.modulus == m
    ensures Element(group, sum % m, m).Valid()
    ensures Element(group, sum % m, m).Plus(e) == Element(group, (sum + e.exponent) % m, m)
  {
    AddMod(sum, e.exponent, m);
  }

  method ExpectedAggregateKey(values: seq<byte>, keys: seq<PublicKey>) returns (r: Result<Element>)
    requires forall i :: 0 <= i < |keys| ==> keys[i].Valid()
    ensures r == Expected(values, keys)
  {
    if values == [] || |values| != |keys| {
      return Err;
    }
    var modulus := keys[0].base.modulus;
    var result := Element(G2, 0, modulus);
    SmallMod(0, modulus);
    for i := 0 to |values|
      invariant KeysShare(keys[..i], modulus)
      invariant result == Element(G2, KeySum(values, keys, i) % modulus, modulus)
    {
      if keys[i].base.modulus != modulus {
        return Err;
      }
      var next := keys[i].At(values[i]);
      PlusReduced(G2, KeySum(values, keys, i), next, modulus);
      assert KeySum(values, keys, i + 1) == KeySum(values, keys, i) + next.exponent;
      result := result.Plus(next);
    }
    return Ok(result);
  }

  ghost function Expected(values: seq<byte>, keys: seq<PublicKey>): Result<Element>
    requires forall i :: 0 <= i < |keys| ==> keys[i].Valid()
  {
    if values != [] && |values| == |keys| && KeysShare(keys, keys[0].base.modulus)
    then Ok(Element(G2, KeySum(values, keys, |keys|) % keys[0].base.modulus, keys[0].base.modulus))
    else Err
  }

  /** e(signature, g2) == e(tag, key); mixed fields or groups raise. */
  function SignatureGadget(w: Witness, tagPoint: Element): Result<bool> {
    if tagPoint.group != G1 || w.signature.group != G1 || w.aggregateKey.group != G2
       || w.signature.modulus != tagPoint.modulus || w.aggregateKey.modulus != tagPoint.modulus
       || tagPoint.modulus <= 2
    then Err
    else
      var m := tagPoint.modulus;
      Ok((w.signature.exponent * 1) % m == (tagPoint.exponent * w.aggregateKey.exponent) % m)
  }

  ghost function InnerProductGadget(w: Witness, keys: seq<PublicKey>): Result<bool>
    requires forall i :: 0 <= i < |keys| ==> keys[i].Valid()
  {
    var expected :- Expected(w.values, keys);
    Ok(w.aggregateKey == expected)
  }

  // ---------------------------------------------------------------- completeness and binding

  lemma {:induction false} KeySumIsSecrets(a: Authority, values: seq<byte>, n: nat)
    requires a.Valid() && |values| == |a.bases| && n <= |values|
    ensures KeySum(values, a.Keys(), n) % a.modulus == a.Secrets(values, n) % a.modulus
  {
    if n == 0 {
    } else {
      var i, m := n - 1, a.modulus;
      var b, s, v := a.bases[i], a.slopes[i], values[i];
      KeySumIsSecrets(a, values, i);
      Commute(s, v);
      KeyAt(b, s * v, m);
      CongruentSum(KeySum(values, a.Keys(), i), a.Secrets(values, i), (b + (s * v) % m) % m, b + s * v, m);
    }
  }

  lemma KeyAt(b: nat, sv: nat, m: nat)
    requires m > 0
    ensures ((b + sv % m) % m) % m == (b + sv) % m
  {
    ModMod(b + sv % m, m);
    AddMod(sv, b, m);
  }

  lemma {:induction false} SignatureSumIsSecrets(a: Authority, values: seq<byte>, n: nat)
    requires a.Valid() && |values| == |a.bases| && n <= |values|
    ensures SignatureSum(a.Select(values), n) % a.modulus == (a.tag * a.Secrets(values, n)) % a.modulus
  {
    if n == 0 {
      assert a.tag * 0 == 0;
    } else {
      var i, m := n - 1, a.modulus;
      var secret := a.bases[i] + values[i] * a.slopes[i];
      SignatureSumIsSecrets(a, values, i);
      ModMod(secret, m);
      CongruentProduct(secret % m, secret, a.tag, m);
      ModMod(a.tag * (secret % m), m);
      CongruentSum(SignatureSum(a.Select(values), i), a.tag * a.Secrets(values, i),
                   (a.tag * (secret % m)) % m, a.tag * secret, m);
      Distribute(a.Secrets(values, i), secret, a.tag);
    }
  }

  /** The only witness that both gadgets accept for a value vector. */
  ghost function AcceptedWitness(a: Authority, values: seq<byte>): Witness
    requires a.Valid() && |values| == |a.bases|
  {
    var secrets := a.Secrets(values, |values|);
    Witness(values, Element(G1, (a.tag * secrets) % a.modulus, a.modulus), Element(G2, secrets % a.modulus, a.modulus))
  }

  /**
   * For every authority and witness over its field: both gadgets accept exactly when the values have the
   * right width and the signature is tag * sum(a_i + v_i * b_i).
   */
  lemma GadgetsAcceptExactly(a: Authority, w: Witness)
    requires a.Valid() && w.signature.Valid() && w.aggregateKey.Valid()
    ensures
      SignatureGadget(w, a.TagPoint()) == Ok(true) && InnerProductGadget(w, a.Keys()) == Ok(true)
      <==> |w.values| == |a.bases| && w == AcceptedWitness(a, w.values)
  {
    var m := a.modulus;
    if |w.values| == |a.bases| {
      var secrets := a.Secrets(w.values, |w.values|);
      KeySumIsSecrets(a, w.values, |w.values|);
      assert Expected(w.values, a.Keys()) == Ok(Element(G2, secrets % m, m));
      ModMod(secrets, m);
      CongruentProduct(secrets % m, secrets, a.tag, m);
      ModMod(a.tag * secrets, m);
      if w.signature.modulus == m {
        SmallMod(w.signature.exponent, m);
      }
    }
  }

  /** Aggregating the selected tokens yields the accepted witness, so honest inputs pass both gadgets. */
  lemma HonestAggregate(a: Authority, values: seq<byte>)
    requires a.Valid() && |values| == |a.bases|
    ensures var tokens := a.Select(values);
      && InOrder(tokens, a.modulus) && KeysShare(a.Keys(), a.modulus)
      && AcceptedWitness(a, values)
         == Witness(Values(tokens),
                    Element(G1, SignatureSum(tokens, |tokens|) % a.modulus, a.modulus),
                    Element(G2, KeySum(Values(tokens), a.Keys(), |tokens|) % a.modulus, a.modulus))
  {
    assert Values(a.Select(values)) == values;
    SignatureSumIsSecrets(a, values, |values|);
    KeySumIsSecrets(a, values, |values|);
  }

  /**
   * An authority made from raw scalars publishes a_i + v * b_i at every value and signs it with the tag, whatever
   * multiples of the order the scalars carry.
   */
  lemma MadeTokens(tag: int, bases: seq<int>, slopes: seq<int>, modulus: int, i: nat, v: byte)
    requires MakeAuthority(tag, bases, slopes, modulus).Ok? && i < |bases|
    ensures var a := MakeAuthority(tag, bases, slopes, modulus).value;
      && a.TagPoint() == Element(G1, tag % modulus, modulus)
      && a.Keys()[i] == PublicKey(Element(G2, bases[i] % modulus, modulus), Element(G2, slopes[i] % modulus, modulus))
      && a.Keys()[i].At(v) == Element(G2, (bases[i] + v * slopes[i]) % modulus, modulus)
      && a.TokenFor(i, v) == Token(i, v, Element(G1, (tag * (bases[i] + v * slopes[i])) % modulus, modulus))
  {
    var a := MakeAuthority(tag, bases, slopes, modulus).value;
    var m, b, s := modulus, bases[i], slopes[i];
    var secret := b + v * s;
    ModMod(b, m);
    ModMod(s, m);
    ModMod(tag, m);
    CongruentProduct(s % m, s, v, m);
    Commute(s % m, v);
    ModMod(v * s, m);
    CongruentSum(b % m, b, v * (s % m), v * s, m);
    CongruentSum(b % m, b, (v * s) % m, v * s, m);
    ModMod((b % m) + v * (s % m), m);
    CongruentProduct(((b % m) + v * (s % m)) % m, secret, tag % m, m);
    CongruentProduct(tag % m, tag, secret, m);
    Commute(tag % m, secret);
    Commute(tag, secret);
  }

  // ---------------------------------------------------------------- two tokens of one coordinate

  /** The inverse of d modulo m, found or refuted by search; Python's pow raises when there is none. */
  function InverseFrom(d: nat, m: nat, x: nat): (r: Option<nat>)
    requires m > 0
    ensures r.Some? ==> r.value < m && (d * r.value) % m == 1
    ensures r.None? ==> forall y :: x <= y < m ==> !IsInverse(d, m, y)
    decreases m - x
  {
    if x >= m then None else if IsInverse(d, m, x) then Some(x) else InverseFrom(d, m, x + 1)
  }

  predicate IsInverse(d: nat, m: nat, y: nat)
    requires m > 0
  {
    (d * y) % m == 1
  }

  ghost predicate Invertible(d: nat, m: nat)
    requires m > 0
  {
    exists y :: 0 <= y < m && IsInverse(d, m, y)
  }

  /** Raises for foreign coordinates or fields, equal values, and a difference that the order cannot divide. */
  function RecoverSlope(first: Token, second: Token): Result<Element>
    requires first.Valid() && second.Valid()
  {
    if first.coordinate != second.coordinate || first.signature.modulus != second.signature.modulus then Err
    else
      var m := first.signature.modulus;
      var delta := (second.value - first.value) % m;
      if delta == 0 then Err
      else match InverseFrom(delta, m, 0)
        case None => Err
        case Some(inverse) => Ok(second.signature.Minus(first.signature).Scale(inverse))
  }

  function ForgeTokenFromTwo(first: Token, second: Token, target: int): Result<Token>
    requires first.Valid() && second.Valid()
  {
    if !(0 <= target <= 255) then Err
    else
      var slope :- RecoverSlope(first, second);
      Ok(Token(first.coordinate, target, first.signature.Plus(slope.Scale(target - first.value))))
  }

  /** Forging raises for a target that is no byte, for tokens of two coordinates or fields, and for equal values. */
  lemma ForgeRaises(first: Token, second: Token, target: int)
    requires first.Valid() && second.Valid()
    requires || !(0 <= target <= 255) || first.coordinate != second.coordinate
             || first.signature.modulus != second.signature.modulus || first.value == second.value
    ensures ForgeTokenFromTwo(first, second, target) == Err
  {
    SmallMod(0, first.signature.modulus);
  }

  /** tag * (a + v*b) */
  lemma TokenExponent(a: Authority, i: nat, v: byte)
    requires a.Valid() && i < |a.bases|
    ensures a.TokenFor(i, v).signature.exponent == (a.tag * (a.bases[i] + v * a.slopes[i])) % a.modulus
  {
    var m, secret := a.modulus, a.bases[i] + v * a.slopes[i];
    ModMod(secret, m);
    CongruentProduct(secret % m, secret, a.tag, m);
  }

  /** The slope that two tokens reveal is tag * b. */
  lemma SlopeExponent(tag: nat, b: nat, s: nat, v: int, u: int, first: nat, second: nat, inv: nat, m: nat)
    requires m > 0
    requires first == (tag * (b + v * s)) % m && second == (tag * (b + u * s)) % m
    requires (((u - v) % m) * inv) % m == 1
    ensures (((second - first) % m) * inv) % m == (tag * s) % m
  {
    var d, ts := u - v, tag * s;
    ModMod(tag * (b + v * s), m);
    ModMod(tag * (b + u * s), m);
    SubMod(second, tag * (b + v * s), m);
    AddMod(tag * (b + u * s), -1 * (tag * (b + v * s)), m);
    SlopeRing(tag, b, s, v, u);
    ModMod(second - first, m);
    CongruentProduct((second - first) % m, ts * d, inv, m);
    Associate(ts, d, inv);
    ModMod(d, m);
    CongruentProduct(d % m, d, inv, m);
    OneMod(m, d * inv, ((d % m) * inv) % m);
    CongruentProduct(d * inv, 1, ts, m);
  }

  lemma OneMod(m: nat, x: int, r: int)
    requires m > 0 && x % m == r == 1
    ensures x % m == 1 % m
  {
    ModMod(x, m);
  }

  lemma SlopeRing(tag: nat, b: nat, s: nat, v: int, u: int)
    ensures tag * (b + u * s) - tag * (b + v * s) == (tag * s) * (u - v)
  {
    Distribute(b, u * s, tag);
    Distribute(b, v * s, tag);
    Distribute(u, -1 * v, s);
    Associate(tag, s, u - v);
    Commute(s, u - v);
    Distribute(u * s, -1 * (v * s), tag);
  }

  lemma ForgedExponent(tag: nat, b: nat, s: nat, v: int, t: int, first: nat, slope: nat, m: nat)
    requires m > 0 && first == (tag * (b + v * s)) % m && slope == (tag * s) % m
    ensures (first + (slope * (t - v)) % m) % m == (tag * (b + t * s)) % m
  {
    var ts, d := tag * s, t - v;
    ModMod(ts, m);
    CongruentProduct(slope, ts, d, m);
    ModMod(tag * (b + v * s), m);
    ModMod(slope * d, m);
    CongruentSum(first, tag * (b + v * s), (slope * d) % m, ts * d, m);
    SlopeRing(tag, b, s, v, t);
  }

  lemma DistinctBytes(u: byte, v: byte, m: nat)
    requires u != v && m > 257
    ensures (u - v) % m != 0
  {
    if u > v {
      SmallMod(u - v, m);
    } else {
      ResidueUnique(u - v, m, -1, m + u - v);
    }
  }

  /**
   * Two tokens of one coordinate give every token of that coordinate, exactly as the authority would issue it,
   * whenever the difference of their values is invertible modulo the group order, and raise otherwise.
   */
  lemma ForgeEqualsAuthority(a: Authority, i: nat, v: byte, u: byte, target: byte)
    requires a.Valid() && i < |a.bases|
    ensures ForgeTokenFromTwo(a.TokenFor(i, v), a.TokenFor(i, u), target)
      == if Invertible((u - v) % a.modulus, a.modulus) then Ok(a.TokenFor(i, target)) else Err
  {
    var m := a.modulus;
    var delta := (u - v) % m;
    if delta == 0 {
      assert forall y :: 0 <= y < m ==> !IsInverse(0, m, y);
    } else {
      var found := InverseFrom(delta, m, 0);
      if found.Some? {
        assert IsInverse(delta, m, found.value);
        ForgeWithInverse(a, i, v, u, target, found.value);
      }
    }
  }

  lemma ForgeWithInverse(a: Authority, i: nat, v: byte, u: byte, target: byte, inverse: nat)
    requires a.Valid() && i < |a.bases| && (u - v) % a.modulus != 0
    requires InverseFrom((u - v) % a.modulus, a.modulus, 0) == Some(inverse)
    ensures ForgeTokenFromTwo(a.TokenFor(i, v), a.TokenFor(i, u), target) == Ok(a.TokenFor(i, target))
  {
    var m, first, second := a.modulus, a.TokenFor(i, v), a.TokenFor(i, u);
    TokenExponent(a, i, v);
    TokenExponent(a, i, u);
    TokenExponent(a, i, target);
    SlopeExponent(a.tag, a.bases[i], a.slopes[i], v, u, first.signature.exponent, second.signature.exponent, inverse,
                  m);
    ForgedExponent(a.tag, a.bases[i], a.slopes[i], v, target, first.signature.exponent, (a.tag * a.slopes[i]) % m, m);
  }

  /** Modulo a prime order every two different byte values have an invertible difference. */
  lemma PrimeOrderInverts(v: byte, u: byte, m: nat)
    requires Prime(m) && m > 257
    ensures Invertible((u - v) % m, m) <==> u != v
  {
    if u == v {
      SmallMod(0, m);
      assert forall y :: 0 <= y < m ==> !IsInverse(0, m, y);
    } else {
      DistinctBytes(u, v, m);
      assert IsInverse((u - v) % m, m, Inverse((u - v) % m, m));
    }
  }
}
