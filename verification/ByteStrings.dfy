/** Results, byte strings, fixed-width integers and the hash interface used by every other module. */
module ByteStrings {

  datatype Option<+T> = None | Some(value: T)

  /** The outcome of an operation that raises in the original; the error kind is not kept. */
  datatype Result<+T> = Ok(value: T) | Err {
    predicate IsFailure() {
      Err?
    }

    function PropagateFailure<U>(): Result<U>
      requires Err?
    {
      Err
    }

    function Extract(): T
      requires Ok?
    {
      value
    }
  }

  type byte = i: int | 0 <= i < 256

  type Bytes = seq<byte>

  type Digest = d: Bytes | |d| == 32 witness seq(32, _ => 0)

  /** An arbitrary hash with 32-byte digests. */
  type Hash = Bytes -> Digest

  /** No two distinct members of a finite set of hashed strings share a digest. */
  ghost predicate CollisionFree(h: Hash, queries: set<Bytes>) {
    forall x, y :: x in queries && y in queries && h(x) == h(y) ==> x == y
  }

  function Ascii(s: string): Bytes {
    seq(|s|, i requires 0 <= i < |s| => (s[i] as int) % 256)
  }

  function Zeros(n: nat): (b: Bytes)
    ensures |b| == n
  {
    seq(n, _ => 0)
  }

  // ---------------------------------------------------------------- fixed-width integers

  function Pow256(w: nat): (p: nat)
    ensures p > 0
  {
    if w == 0 then 1 else 256 * Pow256(w - 1)
  }

  function BigEndian(v: nat, w: nat): (b: Bytes)
    ensures |b| == w
  {
    if w == 0 then [] else BigEndian(v / 256, w - 1) + [v % 256]
  }

  function FromBigEndian(b: Bytes): nat {
    if b == [] then 0 else FromBigEndian(b[..|b| - 1]) * 256 + b[|b| - 1]
  }

  function LittleEndian(v: nat, w: nat): (b: Bytes)
    ensures |b| == w
  {
    if w == 0 then [] else [v % 256] + LittleEndian(v / 256, w - 1)
  }

  function FromLittleEndian(b: Bytes): nat {
    if b == [] then 0 else b[0] + 256 * FromLittleEndian(b[1..])
  }

  /** An unsigned integer in exactly w bytes, which raises when it does not fit. */
  function Fixed(v: int, w: nat): (r: Result<Bytes>)
    ensures r.Ok? <==> 0 <= v < Pow256(w)
    ensures r.Ok? ==> |r.value| == w
  {
    if 0 <= v < Pow256(w) then Ok(BigEndian(v, w)) else Err
  }

  lemma {:induction false} BigEndianRoundTrip(v: nat, w: nat)
    requires v < Pow256(w)
    ensures FromBigEndian(BigEndian(v, w)) == v
  {
    if w == 0 {
    } else {
      BigEndianRoundTrip(v / 256, w - 1);
      assert BigEndian(v, w)[..w - 1] == BigEndian(v / 256, w - 1);
    }
  }

  lemma {:induction false} BigEndianOfBytes(b: Bytes)
    ensures FromBigEndian(b) < Pow256(|b|)
    ensures BigEndian(FromBigEndian(b), |b|) == b
  {
    if b == [] {
    } else {
      var front := b[..|b| - 1];
      BigEndianOfBytes(front);
      assert FromBigEndian(b) / 256 == FromBigEndian(front);
      assert b == front + [b[|b| - 1]];
    }
  }

  lemma BigEndianInjective(v: nat, u: nat, w: nat)
    requires v < Pow256(w) && u < Pow256(w)
    requires BigEndian(v, w) == BigEndian(u, w)
    ensures v == u
  {
    BigEndianRoundTrip(v, w);
    BigEndianRoundTrip(u, w);
  }

  lemma {:induction false} LittleEndianRoundTrip(v: nat, w: nat)
    requires v < Pow256(w)
    ensures FromLittleEndian(LittleEndian(v, w)) == v
  {
    if w == 0 {
    } else {
      LittleEndianRoundTrip(v / 256, w - 1);
      assert LittleEndian(v, w)[1..] == LittleEndian(v / 256, w - 1);
    }
  }

  lemma {:induction false} LittleEndianOfBytes(b: Bytes)
    ensures FromLittleEndian(b) < Pow256(|b|)
    ensures LittleEndian(FromLittleEndian(b), |b|) == b
  {
    if b == [] {
    } else {
      LittleEndianOfBytes(b[1..]);
      assert FromLittleEndian(b) / 256 == FromLittleEndian(b[1..]);
      assert b == [b[0]] + b[1..];
    }
  }

  lemma PowersOf256()
    ensures Pow256(1) == 0x100
    ensures Pow256(2) == 0x1_0000
    ensures Pow256(4) == 0x1_0000_0000
    ensures Pow256(8) == 0x1_0000_0000_0000_0000
  {
    assert Pow256(3) == 0x100_0000;
    assert Pow256(5) == 256 * Pow256(4);
    assert Pow256(6) == 256 * Pow256(5);
    assert Pow256(7) == 256 * Pow256(6);
  }

  // ---------------------------------------------------------------- concatenation

  function Reversed(b: Bytes): (r: Bytes)
    ensures |r| == |b|
    ensures forall i :: 0 <= i < |b| ==> r[i] == b[|b| - 1 - i]
  {
    seq(|b|, i requires 0 <= i < |b| => b[|b| - 1 - i])
  }

  lemma ReversedInjective(a: Bytes, b: Bytes)
    requires Reversed(a) == Reversed(b)
    ensures a == b
  {
    assert |a| == |b|;
    forall i | 0 <= i < |a|
      ensures a[i] == b[i]
    {
      assert Reversed(a)[|a| - 1 - i] == a[i];
      assert Reversed(b)[|b| - 1 - i] == b[i];
    }
  }

  lemma ReversedTwice(b: Bytes)
    ensures Reversed(Reversed(b)) == b
  {
  }

  /** Equal concatenations whose first parts have equal length split the same way. */
  lemma SplitEqual(a: Bytes, b: Bytes, c: Bytes, d: Bytes)
    requires a + b == c + d
    requires |a| == |c|
    ensures a == c && b == d
  {
    assert a == (a + b)[..|a|];
    assert b == (a + b)[|a|..];
  }

  lemma Regroup(a: Bytes, b: Bytes, c: Bytes)
    ensures (a + b) + c == a + (b + c)
  {
  }

  lemma Regroup4(a: Bytes, b: Bytes, c: Bytes, d: Bytes)
    ensures a + b + c + d == a + (b + (c + d))
  {
    Regroup(a + b, c, d);
    Regroup(a, b, c + d);
  }

  /** The member of a pair that a bit selects. */
  function Choose(p: (Bytes, Bytes), bit: nat): Bytes {
    if bit == 0 then p.0 else p.1
  }

  function Concat(parts: seq<Bytes>): Bytes {
    if parts == [] then [] else parts[0] + Concat(parts[1..])
  }

  lemma {:induction false} ConcatSnoc(parts: seq<Bytes>, last: Bytes)
    ensures Concat(parts + [last]) == Concat(parts) + last
  {
    if parts == [] {
    } else {
      ConcatSnoc(parts[1..], last);
      assert (parts + [last])[1..] == parts[1..] + [last];
    }
  }

  ghost predicate AllOfWidth(parts: seq<Bytes>, w: nat) {
    forall i :: 0 <= i < |parts| ==> |parts[i]| == w
  }

  lemma {:induction false} ConcatLength(parts: seq<Bytes>, w: nat)
    requires AllOfWidth(parts, w)
    ensures |Concat(parts)| == |parts| * w
  {
    if parts == [] {
    } else {
      ConcatLength(parts[1..], w);
      assert |parts| * w == w + (|parts| - 1) * w;
    }
  }

  /** Concatenating any number of parts of one positive width is unambiguous. */
  lemma {:induction false} ConcatInjective(p: seq<Bytes>, r: seq<Bytes>, w: nat)
    requires w > 0 && AllOfWidth(p, w) && AllOfWidth(r, w)
    requires Concat(p) == Concat(r)
    ensures p == r
  {
    if p == [] || r == [] {
      ConcatLength(p, w);
      ConcatLength(r, w);
    } else {
      SplitEqual(p[0], Concat(p[1..]), r[0], Concat(r[1..]));
      ConcatInjective(p[1..], r[1..], w);
      assert p == [p[0]] + p[1..] && r == [r[0]] + r[1..];
    }
  }

  // ---------------------------------------------------------------- exclusive or

  function XorBits(a: nat, b: nat, k: nat): (r: nat) {
    if k == 0 then 0
    else 2 * XorBits(a / 2, b / 2, k - 1) + (if a % 2 == b % 2 then 0 else 1)
  }

  function Pow2(k: nat): (p: nat)
    ensures p > 0
  {
    if k == 0 then 1 else 2 * Pow2(k - 1)
  }

  lemma {:induction false} XorBitsBound(a: nat, b: nat, k: nat)
    ensures XorBits(a, b, k) < Pow2(k)
  {
    if k == 0 {
    } else {
      XorBitsBound(a / 2, b / 2, k - 1);
    }
  }

  lemma {:induction false} XorBitsTwice(a: nat, b: nat, k: nat)
    requires a < Pow2(k)
    ensures XorBits(XorBits(a, b, k), b, k) == a
  {
    if k == 0 {
    } else {
      var half, bit := XorBits(a / 2, b / 2, k - 1), if a % 2 == b % 2 then 0 else 1;
      assert XorBits(a, b, k) / 2 == half && XorBits(a, b, k) % 2 == bit;
      XorBitsTwice(a / 2, b / 2, k - 1);
    }
  }

  lemma ByteIsPow2()
    ensures Pow2(8) == 256
  {
    assert Pow2(4) == 16;
    assert Pow2(6) == 64;
  }

  function XorByte(a: byte, b: byte): byte {
    ByteIsPow2();
    XorBitsBound(a, b, 8);
    XorBits(a, b, 8)
  }

  function Xor(a: Bytes, b: Bytes): (r: Bytes)
    requires |a| == |b|
    ensures |r| == |a|
  {
    seq(|a|, i requires 0 <= i < |a| => XorByte(a[i], b[i]))
  }

  lemma XorTwice(a: Bytes, pad: Bytes)
    requires |a| == |pad|
    ensures Xor(Xor(a, pad), pad) == a
  {
    forall i | 0 <= i < |a|
      ensures Xor(Xor(a, pad), pad)[i] == a[i]
    {
      ByteIsPow2();
      XorBitsTwice(a[i], pad[i], 8);
    }
  }

  lemma {:induction false} XorBitsCancel(x: nat, a: nat, b: nat, k: nat)
    requires a < Pow2(k) && b < Pow2(k) && XorBits(x, a, k) == XorBits(x, b, k)
    ensures a == b
  {
    if k == 0 {
    } else {
      var u, v := XorBits(x / 2, a / 2, k - 1), XorBits(x / 2, b / 2, k - 1);
      var s, t := if x % 2 == a % 2 then 0 else 1, if x % 2 == b % 2 then 0 else 1;
      assert 2 * u + s == 2 * v + t;
      assert u == v && s == t;
      XorBitsCancel(x / 2, a / 2, b / 2, k - 1);
    }
  }

  lemma XorCancel(x: Bytes, a: Bytes, b: Bytes)
    requires |x| == |a| == |b| && Xor(x, a) == Xor(x, b)
    ensures a == b
  {
    ByteIsPow2();
    forall i | 0 <= i < |a|
      ensures a[i] == b[i]
    {
      assert Xor(x, a)[i] == Xor(x, b)[i];
      XorBitsCancel(x[i], a[i], b[i], 8);
    }
  }

  /** Unmasking gives a string back exactly when the two masks agree. */
  lemma Unmasks(a: Bytes, mask: Bytes, other: Bytes)
    requires |a| == |mask| == |other|
    ensures Xor(Xor(a, mask), other) == a <==> mask == other
  {
    XorTwice(a, mask);
    if Xor(Xor(a, mask), other) == a {
      XorCancel(Xor(a, mask), mask, other);
    }
  }

  // ---------------------------------------------------------------- bits

  /** A right shift: repeated halving. */
  function Shift(v: nat, k: nat): nat {
    if k == 0 then v else Shift(v / 2, k - 1)
  }

  /** Bit k of a number, the lowest being bit 0. */
  function Bit(v: nat, k: nat): nat {
    Shift(v, k) % 2
  }

  /** Shifting by k divides by the k-th power of two and drops the remainder. */
  lemma {:induction false} ShiftDivides(v: nat, k: nat)
    ensures Pow2(k) * Shift(v, k) <= v < Pow2(k) * (Shift(v, k) + 1)
  {
    if k == 0 {
    } else {
      ShiftDivides(v / 2, k - 1);
      var p, s := Pow2(k - 1), Shift(v / 2, k - 1);
      assert 2 * (p * s) <= v < 2 * (p * (s + 1));
      Doubled(p, s);
      Doubled(p, s + 1);
    }
  }

  lemma Doubled(p: nat, s: nat)
    ensures 2 * (p * s) == (2 * p) * s
  {
  }

  /** Bit j of an exclusive or is set exactly when bit j of one operand alone is. */
  lemma {:induction false} XorBitwise(a: nat, b: nat, k: nat, j: nat)
    requires j < k
    ensures Bit(XorBits(a, b, k), j) == if Bit(a, j) == Bit(b, j) then 0 else 1
  {
    var half, bit := XorBits(a / 2, b / 2, k - 1), if a % 2 == b % 2 then 0 else 1;
    assert XorBits(a, b, k) / 2 == half && XorBits(a, b, k) % 2 == bit;
    if j == 0 {
    } else {
      XorBitwise(a / 2, b / 2, k - 1, j - 1);
    }
  }

  lemma ShiftByte(v: nat, k: nat)
    ensures Shift(v, k + 8) == Shift(v / 256, k)
  {
    assert Shift(v, k + 8) == Shift(v / 2 / 2, k + 6);
    assert Shift(v / 2 / 2, k + 6) == Shift(v / 2 / 2 / 2 / 2, k + 4);
    assert Shift(v / 2 / 2 / 2 / 2, k + 4) == Shift(v / 2 / 2 / 2 / 2 / 2 / 2, k + 2);
    assert Shift(v / 2 / 2 / 2 / 2 / 2 / 2, k + 2) == Shift(v / 2 / 2 / 2 / 2 / 2 / 2 / 2 / 2, k);
  }

  /** Byte i of a big-endian number holds its bits from 8 * (w - 1 - i) on: the highest byte comes first. */
  lemma {:induction false} BigEndianBytes(v: nat, w: nat, i: nat)
    requires i < w
    ensures BigEndian(v, w)[i] == Shift(v, 8 * (w - 1 - i)) % 256
  {
    if i == w - 1 {
    } else {
      BigEndianBytes(v / 256, w - 1, i);
      ShiftByte(v, 8 * (w - 2 - i));
    }
  }

  /** Little-endian bytes are the same ones in reverse. */
  lemma {:induction false} LittleEndianReverses(v: nat, w: nat)
    ensures LittleEndian(v, w) == Reversed(BigEndian(v, w))
  {
    if w == 0 {
    } else {
      LittleEndianReverses(v / 256, w - 1);
      var front := BigEndian(v / 256, w - 1);
      assert Reversed(front + [v % 256]) == [v % 256] + Reversed(front);
    }
  }
}
