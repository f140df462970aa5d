/**
 * Bilinear groups by exponents: an element of G1, G2 or GT is the exponent of its generator modulo the
 * group order, and the pairing multiplies exponents.
 */
module Groups {
  import opened ByteStrings
  import opened PrimeField

  /** A compressed encoding, as decompression sees it: rejected bytes or a point. The identity has no encoding. */
  datatype Wire = Malformed | Point(exponent: nat)

  predicate Decodes(w: Wire, q: nat) {
    w.Point? && 0 < w.exponent < q
  }

  function Compress(e: nat): Result<Wire> {
    if e == 0 then Err else Ok(Point(e))
  }

  function Add(a: nat, b: nat, q: nat): (r: nat)
    requires q > 0
    ensures r < q
  {
    (a + b) % q
  }

  function Neg(a: nat, q: nat): (r: nat)
    requires q > 0
    ensures r < q
  {
    (-1 * a) % q
  }

  function Multiply(a: nat, scalar: int, q: nat): (r: nat)
    requires q > 0
    ensures r < q
  {
    (a * scalar) % q
  }

  /** e(p1, q1) * e(p2, q2), the product of two pairings. */
  function PairingProduct2(p1: nat, q1: nat, p2: nat, q2: nat, q: nat): (r: nat)
    requires q > 0
    ensures r < q
  {
    (p1 * q1 + p2 * q2) % q
  }

  /** e(p1, q1) * e(-p2, q2) is the difference of the two products of exponents. */
  lemma PairingQuotient(p1: nat, q1: nat, p2: nat, q2: nat, q: nat)
    requires q > 0
    ensures PairingProduct2(p1, q1, Neg(p2, q), q2, q) == (p1 * q1 - p2 * q2) % q
  {
    var n, k := Neg(p2, q), (-1 * p2) / q;
    assert -1 * p2 == k * q + n;
    assert n * q2 == -1 * (p2 * q2) + (-1 * (k * q2)) * q by {
      assert n == -1 * p2 - k * q;
      assert (-1 * p2 - k * q) * q2 == -1 * (p2 * q2) - (k * q2) * q;
      assert (-1 * (k * q2)) * q == -1 * ((k * q2) * q);
    }
    SameResidue(p1 * q1 + n * q2, p1 * q1 - p2 * q2, q, -1 * (k * q2));
  }

  /** A product of a pairing and an inverted pairing is one exactly when both pairings agree. */
  lemma PairingQuotientIsOne(p1: nat, q1: nat, p2: nat, q2: nat, q: nat)
    requires q > 0
    ensures PairingProduct2(p1, q1, Neg(p2, q), q2, q) == 0 <==> (p1 * q1) % q == (p2 * q2) % q
  {
    PairingQuotient(p1, q1, p2, q2, q);
    CongruentIff(p1 * q1, p2 * q2, q);
  }

  /** A nonzero multiple of a nonidentity point is not the identity. */
  lemma ScaledPointNonzero(x: nat, r: nat, q: nat)
    requires Prime(q) && 0 < x < q && r % q != 0
    ensures 0 < Multiply(x, r, q) < q
  {
    SmallMod(x, q);
    PrimeDividesProduct(q, x, r);
  }

  /** e(z, d) == e(a, [r]d) holds for z == [r]a and for no other z. */
  lemma CertificateExact(z: nat, d: nat, a: nat, r: nat, q: nat)
    requires Prime(q) && 0 < d < q && z < q
    ensures PairingProduct2(z, d, Neg(a, q), Multiply(d, r, q), q) == 0 <==> z == Multiply(a, r, q)
  {
    var rd, ra := Multiply(d, r, q), Multiply(a, r, q);
    PairingQuotientIsOne(z, d, a, rd, q);
    ModMod(d * r, q);
    ModMod(a * r, q);
    CongruentProduct(rd, d * r, a, q);
    CongruentProduct(ra, a * r, d, q);
    Associate(d, r, a);
    Commute(d * r, a);
    Associate(a, r, d);
    Commute(a, d);
    SmallMod(d, q);
    SmallMod(z, q);
    SmallMod(ra, q);
    Commute(z, d);
    Commute(ra, d);
    Cancel(q, d, z, ra);
  }

  // ---------------------------------------------------------------- sums of group elements

  function Sum(xs: seq<nat>): nat {
    if xs == [] then 0 else xs[0] + Sum(xs[1..])
  }

  lemma {:induction false} SumSnoc(xs: seq<nat>, x: nat)
    ensures Sum(xs + [x]) == Sum(xs) + x
  {
    if xs == [] {
    } else {
      SumSnoc(xs[1..], x);
      assert (xs + [x])[1..] == xs[1..] + [x];
    }
  }

  lemma SumPrefix(xs: seq<nat>, i: nat)
    requires i < |xs|
    ensures Sum(xs[..i + 1]) == Sum(xs[..i]) + xs[i]
  {
    SumSnoc(xs[..i], xs[i]);
    assert xs[..i + 1] == xs[..i] + [xs[i]];
  }

  function Exponents(ws: seq<Wire>): (r: seq<nat>)
    requires forall i :: 0 <= i < |ws| ==> ws[i].Point?
    ensures |r| == |ws|
  {
    seq(|ws|, i requires 0 <= i < |ws| => ws[i].exponent)
  }
}
