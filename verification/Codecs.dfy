/** Unambiguous byte codecs: a parser and an encoder that undo each other, and ways to combine them. */
module Codecs {
  import opened ByteStrings

  /** parse reads one value off the front and returns the unread rest. */
  datatype Codec<!T(!new)> = Codec(parse: Bytes -> Option<(T, Bytes)>, encode: T -> Bytes, valid: T -> bool) {
    /** Every valid value parses back, whatever follows it. */
    ghost predicate Complete() {
      forall x: T, rest: Bytes :: valid(x) ==> parse(encode(x) + rest) == Some((x, rest))
    }

    /** What parses is valid and is exactly the encoding that was read. */
    ghost predicate Sound() {
      forall s: Bytes :: parse(s).Some? ==>
        valid(parse(s).value.0) && s == encode(parse(s).value.0) + parse(s).value.1
    }

    ghost predicate Lawful() {
      Complete() && Sound()
    }
  }

  /** Two encodings with any remainders agree only if the values do. */
  lemma Unambiguous<T(!new)>(c: Codec<T>, x: T, r: Bytes, y: T, s: Bytes)
    requires c.Lawful() && c.valid(x) && c.valid(y) && c.encode(x) + r == c.encode(y) + s
    ensures x == y && r == s
  {
    assert c.parse(c.encode(x) + r) == Some((x, r));
    assert c.parse(c.encode(y) + s) == Some((y, s));
  }

  // ---------------------------------------------------------------- fixed width

  function ParseFixed(n: nat, s: Bytes): Option<(Bytes, Bytes)> {
    if |s| < n then None else Some((s[..n], s[n..]))
  }

  function FixedBytes(n: nat): Codec<Bytes> {
    Codec(s => ParseFixed(n, s), b => b, b => |b| == n)
  }

  lemma FixedBytesLawful(n: nat)
    ensures FixedBytes(n).Lawful()
  {
    var c := FixedBytes(n);
    forall x: Bytes, rest: Bytes | c.valid(x)
      ensures c.parse(c.encode(x) + rest) == Some((x, rest))
    {
      assert (x + rest)[..n] == x && (x + rest)[n..] == rest;
    }
    forall s: Bytes | c.parse(s).Some?
      ensures c.valid(c.parse(s).value.0) && s == c.encode(c.parse(s).value.0) + c.parse(s).value.1
    {
      assert s == s[..n] + s[n..];
    }
  }

  // ---------------------------------------------------------------- CompactSize

  /** The shortest little-endian form, behind a marker byte when it is longer than one byte. */
  function EncodeCompact(v: nat): Bytes {
    if v < 0xFD then [v]
    else if v <= 0xFFFF then [0xFD] + LittleEndian(v, 2)
    else if v <= 0xFFFF_FFFF then [0xFE] + LittleEndian(v, 4)
    else [0xFF] + LittleEndian(v, 8)
  }

  function CompactWidth(prefix: byte): nat {
    if prefix < 0xFD then 0 else if prefix == 0xFD then 2 else if prefix == 0xFE then 4 else 8
  }

  function CompactMinimum(prefix: byte): nat {
    if prefix < 0xFD then 0 else if prefix == 0xFD then 0xFD else if prefix == 0xFE then 0x1_0000 else 0x1_0000_0000
  }

  function ParseCompact(s: Bytes): Option<(nat, Bytes)> {
    if s == [] then None
    else if s[0] < 0xFD then Some((s[0], s[1..]))
    else
      var width := CompactWidth(s[0]);
      if |s| < 1 + width then None
      else
        var v := FromLittleEndian(s[1..1 + width]);
        if v < CompactMinimum(s[0]) then None else Some((v, s[1 + width..]))
  }

  function Compact(): Codec<nat> {
    Codec(ParseCompact, EncodeCompact, v => v < 0x1_0000_0000_0000_0000)
  }

  lemma CompactParsesBack(v: nat, rest: Bytes)
    requires v < 0x1_0000_0000_0000_0000
    ensures ParseCompact(EncodeCompact(v) + rest) == Some((v, rest))
  {
    var s := EncodeCompact(v) + rest;
    if v >= 0xFD {
      var width := CompactWidth(s[0]);
      PowersOf256();
      LittleEndianRoundTrip(v, width);
      assert s[1..1 + width] == LittleEndian(v, width);
      assert s[1 + width..] == rest;
    } else {
      assert s[1..] == rest;
    }
  }

  lemma CompactReadsCanonical(s: Bytes)
    requires ParseCompact(s).Some?
    ensures ParseCompact(s).value.0 < 0x1_0000_0000_0000_0000
    ensures s == EncodeCompact(ParseCompact(s).value.0) + ParseCompact(s).value.1
  {
    if s[0] >= 0xFD {
      var width := CompactWidth(s[0]);
      var body := s[1..1 + width];
      PowersOf256();
      LittleEndianOfBytes(body);
      assert |body| == width;
      assert s == [s[0]] + body + s[1 + width..];
    } else {
      assert s == [s[0]] + s[1..];
    }
  }

  lemma CompactLawful()
    ensures Compact().Lawful()
  {
    var c := Compact();
    forall x: nat, rest: Bytes | c.valid(x)
      ensures c.parse(c.encode(x) + rest) == Some((x, rest))
    {
      CompactParsesBack(x, rest);
    }
    forall s: Bytes | c.parse(s).Some?
      ensures c.valid(c.parse(s).value.0) && s == c.encode(c.parse(s).value.0) + c.parse(s).value.1
    {
      CompactReadsCanonical(s);
    }
  }

  // ---------------------------------------------------------------- sequencing

  function ParsePair<A(!new), B(!new)>(a: Codec<A>, b: Codec<B>, s: Bytes): Option<((A, B), Bytes)> {
    match a.parse(s)
    case None => None
    case Some((x, rest)) =>
      match b.parse(rest)
      case None => None
      case Some((y, tail)) => Some(((x, y), tail))
  }

  function Pair<A(!new), B(!new)>(a: Codec<A>, b: Codec<B>): Codec<(A, B)> {
    Codec(s => ParsePair(a, b, s), (p: (A, B)) => a.encode(p.0) + b.encode(p.1),
          (p: (A, B)) => a.valid(p.0) && b.valid(p.1))
  }

  lemma PairLawful<A(!new), B(!new)>(a: Codec<A>, b: Codec<B>)
    requires a.Lawful() && b.Lawful()
    ensures Pair(a, b).Lawful()
  {
    var c := Pair(a, b);
    forall p: (A, B), rest: Bytes | c.valid(p)
      ensures c.parse(c.encode(p) + rest) == Some((p, rest))
    {
      var tail := b.encode(p.1) + rest;
      assert c.encode(p) + rest == a.encode(p.0) + tail;
      assert a.parse(a.encode(p.0) + tail) == Some((p.0, tail));
      assert b.parse(tail) == Some((p.1, rest));
    }
    forall s: Bytes | c.parse(s).Some?
      ensures c.valid(c.parse(s).value.0) && s == c.encode(c.parse(s).value.0) + c.parse(s).value.1
    {
      var rest := a.parse(s).value.1;
      assert s == a.encode(a.parse(s).value.0) + rest;
      assert rest == b.encode(b.parse(rest).value.0) + b.parse(rest).value.1;
      Regroup(a.encode(a.parse(s).value.0), b.encode(b.parse(rest).value.0), b.parse(rest).value.1);
    }
  }

  // ---------------------------------------------------------------- repetition

  function ParseMany<T(!new)>(c: Codec<T>, n: nat, s: Bytes): Option<(seq<T>, Bytes)> {
    if n == 0 then Some(([], s))
    else
      match c.parse(s)
      case None => None
      case Some((x, rest)) =>
        match ParseMany(c, n - 1, rest)
        case None => None
        case Some((xs, tail)) => Some(([x] + xs, tail))
  }

  function EncodeMany<T(!new)>(c: Codec<T>, xs: seq<T>): Bytes {
    if xs == [] then [] else c.encode(xs[0]) + EncodeMany(c, xs[1..])
  }

  predicate AllValid<T(!new)>(c: Codec<T>, xs: seq<T>) {
    forall i :: 0 <= i < |xs| ==> c.valid(xs[i])
  }

  lemma {:induction false} ManyParseBack<T(!new)>(c: Codec<T>, xs: seq<T>, rest: Bytes)
    requires c.Lawful() && AllValid(c, xs)
    ensures ParseMany(c, |xs|, EncodeMany(c, xs) + rest) == Some((xs, rest))
  {
    if xs == [] {
      assert EncodeMany(c, xs) + rest == rest;
    } else {
      var tail := EncodeMany(c, xs[1..]) + rest;
      Regroup(c.encode(xs[0]), EncodeMany(c, xs[1..]), rest);
      assert c.valid(xs[0]);
      assert c.parse(c.encode(xs[0]) + tail) == Some((xs[0], tail));
      ManyParseBack(c, xs[1..], rest);
      assert xs == [xs[0]] + xs[1..];
    }
  }

  lemma {:induction false} ManyReadExactly<T(!new)>(c: Codec<T>, n: nat, s: Bytes)
    requires c.Lawful() && ParseMany(c, n, s).Some?
    ensures var (xs, rest) := ParseMany(c, n, s).value;
      |xs| == n && AllValid(c, xs) && s == EncodeMany(c, xs) + rest
  {
    var (xs, rest) := ParseMany(c, n, s).value;
    if n == 0 {
      assert s == [] + s;
    } else {
      var (x, after) := c.parse(s).value;
      ManyReadExactly(c, n - 1, after);
      var tail := ParseMany(c, n - 1, after).value.0;
      assert xs == [x] + tail && xs[1..] == tail;
      assert s == c.encode(x) + after;
      Regroup(c.encode(x), EncodeMany(c, tail), rest);
    }
  }

  /** A count of at most max, then that many values. */
  function ParseCounted<T(!new)>(c: Codec<T>, max: nat, s: Bytes): Option<(seq<T>, Bytes)> {
    match ParseCompact(s)
    case None => None
    case Some((n, rest)) => if n > max then None else ParseMany(c, n, rest)
  }

  function Counted<T(!new)>(c: Codec<T>, max: nat): Codec<seq<T>> {
    Codec(s => ParseCounted(c, max, s), (xs: seq<T>) => EncodeCompact(|xs|) + EncodeMany(c, xs),
          (xs: seq<T>) => |xs| <= max && AllValid(c, xs))
  }

  lemma CountedLawful<T(!new)>(c: Codec<T>, max: nat)
    requires c.Lawful() && max < 0x1_0000_0000_0000_0000
    ensures Counted(c, max).Lawful()
  {
    var d := Counted(c, max);
    forall xs: seq<T>, rest: Bytes | d.valid(xs)
      ensures d.parse(d.encode(xs) + rest) == Some((xs, rest))
    {
      Regroup(EncodeCompact(|xs|), EncodeMany(c, xs), rest);
      CompactParsesBack(|xs|, EncodeMany(c, xs) + rest);
      ManyParseBack(c, xs, rest);
    }
    forall s: Bytes | d.parse(s).Some?
      ensures d.valid(d.parse(s).value.0) && s == d.encode(d.parse(s).value.0) + d.parse(s).value.1
    {
      CompactReadsCanonical(s);
      var (n, rest) := ParseCompact(s).value;
      ManyReadExactly(c, n, rest);
      var (xs, tail) := ParseMany(c, n, rest).value;
      Regroup(EncodeCompact(n), EncodeMany(c, xs), tail);
    }
  }

  // ---------------------------------------------------------------- length-prefixed bytes

  function ParseVar(max: nat, s: Bytes): Option<(Bytes, Bytes)> {
    match ParseCompact(s)
    case None => None
    case Some((n, rest)) => if n > max then None else ParseFixed(n, rest)
  }

  function VarBytes(max: nat): Codec<Bytes> {
    Codec(s => ParseVar(max, s), b => EncodeCompact(|b|) + b, b => |b| <= max)
  }

  lemma VarBytesLawful(max: nat)
    requires max < 0x1_0000_0000_0000_0000
    ensures VarBytes(max).Lawful()
  {
    var c := VarBytes(max);
    forall b: Bytes, rest: Bytes | c.valid(b)
      ensures c.parse(c.encode(b) + rest) == Some((b, rest))
    {
      Regroup(EncodeCompact(|b|), b, rest);
      CompactParsesBack(|b|, b + rest);
      assert (b + rest)[..|b|] == b && (b + rest)[|b|..] == rest;
    }
    forall s: Bytes | c.parse(s).Some?
      ensures c.valid(c.parse(s).value.0) && s == c.encode(c.parse(s).value.0) + c.parse(s).value.1
    {
      CompactReadsCanonical(s);
      var (n, rest) := ParseCompact(s).value;
      assert rest == rest[..n] + rest[n..];
      Regroup(EncodeCompact(n), rest[..n], rest[n..]);
    }
  }

  // ---------------------------------------------------------------- little-endian integers and records

  function ParseUint(w: nat, s: Bytes): Option<(nat, Bytes)> {
    if |s| < w then None else Some((FromLittleEndian(s[..w]), s[w..]))
  }

  function Uint(w: nat): Codec<nat> {
    Codec(s => ParseUint(w, s), v => LittleEndian(v, w), v => v < Pow256(w))
  }

  lemma UintLawful(w: nat)
    ensures Uint(w).Lawful()
  {
    var c := Uint(w);
    forall v: nat, rest: Bytes | c.valid(v)
      ensures c.parse(c.encode(v) + rest) == Some((v, rest))
    {
      LittleEndianRoundTrip(v, w);
      var s := LittleEndian(v, w) + rest;
      assert s[..w] == LittleEndian(v, w) && s[w..] == rest;
    }
    forall s: Bytes | c.parse(s).Some?
      ensures c.valid(c.parse(s).value.0) && s == c.encode(c.parse(s).value.0) + c.parse(s).value.1
    {
      LittleEndianOfBytes(s[..w]);
      assert s == s[..w] + s[w..];
    }
  }

  function ParseMapped<A(!new), B(!new)>(c: Codec<A>, to: A -> B, s: Bytes): Option<(B, Bytes)> {
    match c.parse(s)
    case None => None
    case Some((x, rest)) => Some((to(x), rest))
  }

  /** The same bytes read as another type. */
  function Mapped<A(!new), B(!new)>(c: Codec<A>, to: A -> B, from: B -> A): Codec<B> {
    Codec(s => ParseMapped(c, to, s), (y: B) => c.encode(from(y)), (y: B) => c.valid(from(y)))
  }

  lemma MappedLawful<A(!new), B(!new)>(c: Codec<A>, to: A -> B, from: B -> A)
    requires c.Lawful() && (forall x: A :: from(to(x)) == x) && (forall y: B :: to(from(y)) == y)
    ensures Mapped(c, to, from).Lawful()
  {
    var d := Mapped(c, to, from);
    forall y: B, rest: Bytes | d.valid(y)
      ensures d.parse(d.encode(y) + rest) == Some((y, rest))
    {
      assert c.parse(c.encode(from(y)) + rest) == Some((from(y), rest));
    }
    forall s: Bytes | d.parse(s).Some?
      ensures d.valid(d.parse(s).value.0) && s == d.encode(d.parse(s).value.0) + d.parse(s).value.1
    {
      var x := c.parse(s).value.0;
      assert from(to(x)) == x;
    }
  }
}
