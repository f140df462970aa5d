/** Arithmetic modulo a prime: cancellation and inverses, from first principles. */
module PrimeField {

  ghost predicate Divides(d: nat, n: int) {
    d > 0 && n % d == 0
  }

  ghost predicate Prime(q: nat) {
    q >= 2 && forall d: nat :: 2 <= d < q ==> !Divides(d, q)
  }

  // ---------------------------------------------------------------- residues

  lemma SmallMultipleIsZero(t: int, q: nat)
    requires -1 * q < t * q < q
    ensures t == 0
  {
    if t != 0 { NonzeroMultiple(t, q); }
  }

  lemma NonzeroMultiple(t: int, q: nat)
    requires t != 0
    ensures t * q >= q || t * q <= -1 * q
  {
    if t > 0 {
      assert t * q == (t - 1) * q + q;
    } else {
      assert t * q == (t + 1) * q - q;
    }
  }

  /** The quotient and remainder of a division are the only ones. */
  lemma ResidueUnique(a: int, q: nat, k: int, r: int)
    requires q > 0 && 0 <= r < q && a == k * q + r
    ensures a % q == r
  {
    var k', r' := a / q, a % q;
    assert a == k' * q + r';
    assert (k - k') * q == k * q - k' * q;
    SmallMultipleIsZero(k - k', q);
  }

  lemma AddMultiple(a: int, q: nat, k: int)
    requires q > 0
    ensures (a + k * q) % q == a % q
  {
    var t := a / q;
    assert a == t * q + a % q;
    assert (t + k) * q == t * q + k * q;
    ResidueUnique(a + k * q, q, t + k, a % q);
  }

  /** Two integers that differ by a multiple of the modulus have one residue. */
  lemma SameResidue(a: int, b: int, q: nat, k: int)
    requires q > 0 && a == b + k * q
    ensures a % q == b % q
  {
    AddMultiple(b, q, k);
  }

  lemma MultipleHasNoResidue(k: int, q: nat)
    requires q > 0
    ensures (k * q) % q == 0
  {
    ResidueUnique(k * q, q, k, 0);
  }

  /** Congruence, as equality of residues. */
  lemma CongruentIff(a: int, b: int, q: nat)
    requires q > 0
    ensures a % q == b % q <==> (a - b) % q == 0
  {
    var s, t, u := a / q, b / q, (a - b) / q;
    assert a == s * q + a % q && b == t * q + b % q;
    assert a - b == u * q + (a - b) % q;
    if a % q == b % q {
      assert (s - t) * q == s * q - t * q;
      MultipleHasNoResidue(s - t, q);
    }
    if (a - b) % q == 0 {
      SameResidue(a, b, q, u);
    }
  }

  lemma AddMod(a: int, b: int, q: nat)
    requires q > 0
    ensures (a % q + b) % q == (a + b) % q
  {
    var t := a / q;
    assert a == t * q + a % q;
    SameResidue(a + b, a % q + b, q, t);
  }

  lemma SubMod(a: int, b: int, q: nat)
    requires q > 0
    ensures (a - b % q) % q == (a - b) % q
  {
    var t := b / q;
    assert b == t * q + b % q;
    SameResidue(a - b % q, a - b, q, t);
  }

  lemma MulMod(a: int, b: int, q: nat)
    requires q > 0
    ensures ((a % q) * b) % q == (a * b) % q
  {
    var t, r := a / q, a % q;
    assert a == t * q + r;
    assert (t * q + r) * b == r * b + (t * b) * q;
    SameResidue(a * b, r * b, q, t * b);
  }

  lemma CongruentSum(x: int, x': int, y: int, y': int, q: nat)
    requires q > 0 && x % q == x' % q && y % q == y' % q
    ensures (x + y) % q == (x' + y') % q
  {
    AddMod(x, y, q);
    AddMod(x', y, q);
    AddMod(y, x', q);
    AddMod(y', x', q);
  }

  lemma SumOfResidues(a: int, b: int, q: nat)
    requires q > 0
    ensures (a % q + b % q) % q == (a + b) % q
  {
    AddMod(a, b % q, q);
    AddMod(b, a, q);
  }

  lemma CongruentProduct(x: int, x': int, c: int, q: nat)
    requires q > 0 && x % q == x' % q
    ensures (x * c) % q == (x' * c) % q && (c * x) % q == (c * x') % q
  {
    MulMod(x, c, q);
    MulMod(x', c, q);
    Commute(x, c);
    Commute(x', c);
  }

  lemma Commute(a: int, b: int)
    ensures a * b == b * a
  {
  }

  lemma Distribute(a: int, b: int, c: int)
    ensures (a + b) * c == a * c + b * c
    ensures c * (a + b) == c * a + c * b
  {
  }

  lemma Associate(a: int, b: int, c: int)
    ensures (a * b) * c == a * (b * c) == (a * c) * b
  {
  }

  lemma SmallMod(a: nat, q: nat)
    requires a < q
    ensures a % q == a
  {
    ResidueUnique(a, q, 0, a);
  }

  lemma ModMod(a: int, q: nat)
    requires q > 0
    ensures 0 <= a % q < q && (a % q) % q == a % q
  {
    SmallMod(a % q, q);
  }

  // ---------------------------------------------------------------- primes

  /** Euclid's lemma for a residue: a prime that divides m*b with 0 < m < q divides b. */
  lemma {:induction false} EuclidResidue(q: nat, m: nat, b: int)
    requires Prime(q) && 0 < m < q
    requires (m * b) % q == 0
    ensures b % q == 0
    decreases m
  {
    if m > 1 {
      assert !Divides(m, q);
      EuclidStep(q, m, b);
      EuclidResidue(q, q % m, b);
    } else {
      assert m * b == b;
    }
  }

  lemma EuclidStep(q: nat, m: nat, b: int)
    requires 0 < m < q && (m * b) % q == 0
    ensures ((q % m) * b) % q == 0
  {
    var k, r, t := q / m, q % m, (m * b) / q;
    assert q == k * m + r;
    assert m * b == t * q;
    calc {
      r * b;
      (q - k * m) * b;
      q * b - k * (m * b);
      q * b - k * (t * q);
      (b - k * t) * q;
    }
    MultipleHasNoResidue(b - k * t, q);
  }

  /** A prime divides a product exactly when it divides one of the factors. */
  lemma PrimeDividesProduct(q: nat, a: int, b: int)
    requires Prime(q)
    ensures (a * b) % q == 0 <==> a % q == 0 || b % q == 0
  {
    MulMod(a, b, q);
    if a % q != 0 && (a * b) % q == 0 {
      EuclidResidue(q, a % q, b);
    }
    if a % q != 0 && b % q == 0 {
      var t := b / q;
      assert b == t * q;
      assert a * (t * q) == (a * t) * q;
      MultipleHasNoResidue(a * t, q);
    }
  }

  lemma Cancel(q: nat, c: int, a: int, b: int)
    requires Prime(q) && c % q != 0
    ensures (c * a) % q == (c * b) % q <==> a % q == b % q
  {
    CongruentIff(c * a, c * b, q);
    CongruentIff(a, b, q);
    assert c * a - c * b == c * (a - b);
    PrimeDividesProduct(q, c, a - b);
  }

  /** The modular inverse, by the recursion q == (q / m) * m + q % m. */
  function Inverse(m: nat, q: nat): (x: nat)
    requires Prime(q) && 0 < m < q
    ensures x < q && (m * x) % q == 1
    decreases m
  {
    if m == 1 then 1
    else
      assert !Divides(m, q);
      var y := Inverse(q % m, q);
      InverseStep(m, q, y);
      (-1 * (q / m) * y) % q
  }

  lemma InverseStep(m: nat, q: nat, y: nat)
    requires 0 < m < q && ((q % m) * y) % q == 1
    ensures (m * ((-1 * (q / m) * y) % q)) % q == 1
  {
    var k, r := q / m, q % m;
    var x := -1 * k * y;
    MulMod(x, m, q);
    assert m * (x % q) == (x % q) * m;
    assert q == k * m + r;
    calc {
      r * y;
      (q - k * m) * y;
      x * m + y * q;
    }
    SameResidue(r * y, x * m, q, y);
  }
}
