/** Lamport one-time authentication of a future input. */
module Lamport {
  import opened ByteStrings

  const BITS := 256

  type Pair = (Bytes, Bytes)

  function Domain(): Bytes {
    Ascii("ranklock/authenticated-witness-lift/v1") + [0]
  }

  function InputDigest(h: Hash, context: Bytes, input: Bytes): Digest {
    h(Domain() + context + input)
  }

  // ---------------------------------------------------------------- bits, highest first

  function ByteBits(b: nat, k: nat): (bits: seq<nat>)
    ensures |bits| == k
  {
    if k == 0 then [] else ByteBits(b / 2, k - 1) + [b % 2]
  }

  function Bits(data: Bytes): (bits: seq<nat>)
    ensures |bits| == 8 * |data|
    ensures forall i :: 0 <= i < |bits| ==> bits[i] == 0 || bits[i] == 1
  {
    if data == [] then []
    else
      BinaryDigits(data[0], 8);
      ByteBits(data[0], 8) + Bits(data[1..])
  }

  lemma {:induction false} BinaryDigits(b: nat, k: nat)
    ensures forall i :: 0 <= i < k ==> ByteBits(b, k)[i] == 0 || ByteBits(b, k)[i] == 1
  {
    if k == 0 {
    } else {
      BinaryDigits(b / 2, k - 1);
    }
  }

  lemma {:induction false} ByteBitsDescend(b: nat, k: nat, j: nat)
    requires j < k
    ensures ByteBits(b, k)[j] == Bit(b, k - 1 - j)
  {
    if j == k - 1 {
    } else {
      ByteBitsDescend(b / 2, k - 1, j);
    }
  }

  /** The bits of a string are those of its bytes in order, within a byte the highest first. */
  lemma {:induction false} BitsHighestFirst(data: Bytes, i: nat, j: nat)
    requires i < |data| && j < 8
    ensures Bits(data)[8 * i + j] == Bit(data[i], 7 - j)
  {
    if i == 0 {
      ByteBitsDescend(data[0], 8, j);
    } else {
      BitsHighestFirst(data[1..], i - 1, j);
      assert Bits(data)[8 * i + j] == Bits(data[1..])[8 * (i - 1) + j];
    }
  }

  lemma {:induction false} ByteBitsInjective(a: nat, b: nat, k: nat)
    requires a < Pow2(k) && b < Pow2(k) && ByteBits(a, k) == ByteBits(b, k)
    ensures a == b
  {
    if k == 0 {
    } else {
      var x, y := ByteBits(a / 2, k - 1), ByteBits(b / 2, k - 1);
      assert x == (x + [a % 2])[..k - 1] && y == (y + [b % 2])[..k - 1];
      assert (x + [a % 2])[k - 1] == (y + [b % 2])[k - 1];
      ByteBitsInjective(a / 2, b / 2, k - 1);
    }
  }

  lemma {:induction false} BitsInjective(a: Bytes, b: Bytes)
    requires Bits(a) == Bits(b)
    ensures a == b
  {
    if a == [] || b == [] {
    } else {
      var x, y := ByteBits(a[0], 8), ByteBits(b[0], 8);
      assert x == Bits(a)[..8] && y == Bits(b)[..8];
      assert Bits(a[1..]) == Bits(a)[8..] && Bits(b[1..]) == Bits(b)[8..];
      ByteIsPow2();
      ByteBitsInjective(a[0], b[0], 8);
      BitsInjective(a[1..], b[1..]);
      assert a == [a[0]] + a[1..] && b == [b[0]] + b[1..];
    }
  }

  // ---------------------------------------------------------------- keys and signatures

  function SecretPreimage(seed: Bytes, index: nat, bit: byte): Bytes {
    Domain() + Ascii("lamport-secret") + seed + BigEndian(index, 2) + [bit]
  }

  function SecretPair(h: Hash, seed: Bytes, index: nat): Pair {
    (h(SecretPreimage(seed, index, 0)), h(SecretPreimage(seed, index, 1)))
  }

  function SecretKey(h: Hash, seed: Bytes): (sk: seq<Pair>)
    ensures |sk| == BITS
  {
    seq(BITS, i requires 0 <= i < BITS => SecretPair(h, seed, i))
  }

  method Keygen(h: Hash, seed: Bytes) returns (r: Result<seq<Pair>>)
    ensures r == if seed == [] then Err else Ok(SecretKey(h, seed))
  {
    if seed == [] {
      return Err;
    }
    var pairs: seq<Pair> := [];
    for index := 0 to BITS
      invariant pairs == SecretKey(h, seed)[..index]
    {
      var values: seq<Bytes> := [];
      for bit := 0 to 2
        invariant |values| == bit
        invariant forall b :: 0 <= b < bit ==> values[b] == h(SecretPreimage(seed, index, b))
      {
        values := values + [h(Domain() + Ascii("lamport-secret") + seed + BigEndian(index, 2) + [bit])];
      }
      pairs := pairs + [(values[0], values[1])];
    }
    assert SecretKey(h, seed)[..BITS] == SecretKey(h, seed);
    return Ok(pairs);
  }

  function PublicKey(h: Hash, sk: seq<Pair>): (pk: seq<Pair>)
    ensures |pk| == |sk|
  {
    seq(|sk|, i requires 0 <= i < |sk| => (h(sk[i].0), h(sk[i].1)))
  }

  function Sign(h: Hash, sk: seq<Pair>, context: Bytes, input: Bytes): (s: seq<Bytes>)
    requires |sk| == BITS
    ensures |s| == BITS
  {
    var bits := Bits(InputDigest(h, context, input));
    seq(BITS, i requires 0 <= i < BITS => Choose(sk[i], bits[i]))
  }

  /** A signature reveals, digest bit by digest bit and the highest of each byte first, the secret of that bit. */
  lemma SignatureReveals(h: Hash, sk: seq<Pair>, context: Bytes, input: Bytes, i: nat, j: nat)
    requires |sk| == BITS && i < 32 && j < 8
    ensures Sign(h, sk, context, input)[8 * i + j]
      == if Bit(InputDigest(h, context, input)[i], 7 - j) == 0 then sk[8 * i + j].0 else sk[8 * i + j].1
  {
    BitsHighestFirst(InputDigest(h, context, input), i, j);
  }

  predicate Verify(h: Hash, pk: seq<Pair>, signature: seq<Bytes>, context: Bytes, input: Bytes)
    requires |pk| == BITS
  {
    && |signature| == BITS
    && var bits := Bits(InputDigest(h, context, input));
       forall i :: 0 <= i < BITS ==> h(signature[i]) == Choose(pk[i], bits[i])
  }

  // ---------------------------------------------------------------- what a signature binds

  /** Everything a verifier of this key and signature has hashed on the key side. */
  ghost function KeyQueries(sk: seq<Pair>, signature: seq<Bytes>): set<Bytes> {
    (set i | 0 <= i < |sk| :: sk[i].0) + (set i | 0 <= i < |sk| :: sk[i].1)
    + (set i | 0 <= i < |signature| :: signature[i])
  }

  /** Honest signatures verify, and without collisions no other signature does. */
  lemma VerifiesExactly(h: Hash, sk: seq<Pair>, signature: seq<Bytes>, context: Bytes, input: Bytes)
    requires |sk| == BITS
    ensures Verify(h, PublicKey(h, sk), Sign(h, sk, context, input), context, input)
    ensures CollisionFree(h, KeyQueries(sk, signature)) ==>
      (Verify(h, PublicKey(h, sk), signature, context, input) <==> signature == Sign(h, sk, context, input))
  {
    var expected := Sign(h, sk, context, input);
    if CollisionFree(h, KeyQueries(sk, signature)) && Verify(h, PublicKey(h, sk), signature, context, input) {
      forall i | 0 <= i < BITS
        ensures signature[i] == expected[i]
      {
        assert h(signature[i]) == h(expected[i]);
        assert signature[i] in KeyQueries(sk, signature) && expected[i] in KeyQueries(sk, signature);
      }
      assert signature == expected;
    }
  }

  ghost function KeygenQueries(seed: Bytes): set<Bytes> {
    (set i: nat | 0 <= i < BITS :: SecretPreimage(seed, i, 0))
    + (set i: nat | 0 <= i < BITS :: SecretPreimage(seed, i, 1))
  }

  lemma SecretPreimageInjective(seed: Bytes, i: nat, a: byte, j: nat, b: byte)
    requires i < BITS && j < BITS
    requires SecretPreimage(seed, i, a) == SecretPreimage(seed, j, b)
    ensures i == j && a == b
  {
    PowersOf256();
    var prefix := Domain() + Ascii("lamport-secret") + seed;
    assert SecretPreimage(seed, i, a) == prefix + (BigEndian(i, 2) + [a]);
    assert SecretPreimage(seed, j, b) == prefix + (BigEndian(j, 2) + [b]);
    SplitEqual(prefix, BigEndian(i, 2) + [a], prefix, BigEndian(j, 2) + [b]);
    SplitEqual(BigEndian(i, 2), [a], BigEndian(j, 2), [b]);
    BigEndianInjective(i, j, 2);
  }

  /** All 512 secrets of a generated key differ. */
  lemma SecretsDistinct(h: Hash, seed: Bytes, i: nat, a: byte, j: nat, b: byte)
    requires CollisionFree(h, KeygenQueries(seed))
    requires i < BITS && j < BITS && a <= 1 && b <= 1
    requires Choose(SecretKey(h, seed)[i], a) == Choose(SecretKey(h, seed)[j], b)
    ensures i == j && a == b
  {
    assert SecretPreimage(seed, i, a) in KeygenQueries(seed);
    assert SecretPreimage(seed, j, b) in KeygenQueries(seed);
    SecretPreimageInjective(seed, i, a, j, b);
  }

  /** Under a generated key, signatures on inputs with different digests reveal different secrets somewhere. */
  lemma SignaturesDiffer(h: Hash, seed: Bytes, context: Bytes, input: Bytes, context': Bytes, input': Bytes)
    requires CollisionFree(h, KeygenQueries(seed))
    requires InputDigest(h, context, input) != InputDigest(h, context', input')
    ensures var sk := SecretKey(h, seed);
      exists i :: 0 <= i < BITS && Sign(h, sk, context, input)[i] != Sign(h, sk, context', input')[i]
  {
    var sk := SecretKey(h, seed);
    var d, d' := InputDigest(h, context, input), InputDigest(h, context', input');
    if forall i :: 0 <= i < BITS ==> Bits(d)[i] == Bits(d')[i] {
      BitsInjective(d, d');
      assert false;
    }
    var i :| 0 <= i < BITS && Bits(d)[i] != Bits(d')[i];
    if Sign(h, sk, context, input)[i] == Sign(h, sk, context', input')[i] {
      SecretsDistinct(h, seed, i, Bits(d)[i], i, Bits(d')[i]);
    }
    assert Sign(h, sk, context, input)[i] != Sign(h, sk, context', input')[i];
  }

  /**
   * An honest signature carries over to another context and input exactly when both spell the same byte
   * string; the context has no length prefix, so only the concatenation is bound.
   */
  lemma SignatureBindsConcatenation(h: Hash, seed: Bytes, context: Bytes, input: Bytes, context': Bytes, input': Bytes)
    requires CollisionFree(h, KeygenQueries(seed))
    requires CollisionFree(h, {Domain() + context + input, Domain() + context' + input'})
    requires CollisionFree(h, KeyQueries(SecretKey(h, seed), Sign(h, SecretKey(h, seed), context, input)))
    ensures Verify(h, PublicKey(h, SecretKey(h, seed)), Sign(h, SecretKey(h, seed), context, input), context', input')
      <==> context + input == context' + input'
  {
    var sk := SecretKey(h, seed);
    VerifiesExactly(h, sk, Sign(h, sk, context, input), context', input');
    DigestBindsConcatenation(h, context, input, context', input');
    if InputDigest(h, context, input) != InputDigest(h, context', input') {
      SignaturesDiffer(h, seed, context, input, context', input');
    } else {
      SameDigestSameSignature(h, sk, context, input, context', input');
    }
  }

  lemma SameDigestSameSignature(h: Hash, sk: seq<Pair>, context: Bytes, input: Bytes, context': Bytes, input': Bytes)
    requires |sk| == BITS && InputDigest(h, context, input) == InputDigest(h, context', input')
    ensures Sign(h, sk, context, input) == Sign(h, sk, context', input')
  {
  }

  lemma DigestBindsConcatenation(h: Hash, context: Bytes, input: Bytes, context': Bytes, input': Bytes)
    requires CollisionFree(h, {Domain() + context + input, Domain() + context' + input'})
    ensures InputDigest(h, context, input) == InputDigest(h, context', input') <==> context + input == context' + input'
  {
    assert Domain() + context + input == Domain() + (context + input);
    assert Domain() + context' + input' == Domain() + (context' + input');
    if Domain() + context + input == Domain() + context' + input' {
      SplitEqual(Domain(), context + input, Domain(), context' + input');
    }
  }

  /** Two different context and input pairs that one signature covers. */
  lemma ContextBoundaryIsNotBound(h: Hash, sk: seq<Pair>)
    requires |sk| == BITS
    ensures Sign(h, sk, [1], [2, 3]) == Sign(h, sk, [1, 2], [3])
    ensures Verify(h, PublicKey(h, sk), Sign(h, sk, [1], [2, 3]), [1, 2], [3])
  {
    assert Domain() + [1] + [2, 3] == Domain() + [1, 2] + [3];
    VerifiesExactly(h, sk, [], [1, 2], [3]);
  }

  // ---------------------------------------------------------------- the fixed relation

  datatype DynamicWitness = DynamicWitness(input: Bytes, authentication: seq<Bytes>, proof: Bytes)

  predicate VerifyFixedRelation(
    h: Hash, context: Bytes, pk: seq<Pair>, w: DynamicWitness, invalid: (Bytes, Bytes) -> bool)
    requires |pk| == BITS
  {
    Verify(h, pk, w.authentication, context, w.input) && invalid(w.input, w.proof)
  }

  /**
   * With the context fixed by the statement, a witness that carries the signature of one input is accepted
   * exactly for that input and a proof of its invalidity: the authentication cannot be retargeted.
   */
  lemma AuthenticationFixesInput(
    h: Hash, seed: Bytes, context: Bytes, signed: Bytes, w: DynamicWitness, invalid: (Bytes, Bytes) -> bool)
    requires w.authentication == Sign(h, SecretKey(h, seed), context, signed)
    requires CollisionFree(h, KeygenQueries(seed))
    requires CollisionFree(h, {Domain() + context + signed, Domain() + context + w.input})
    requires CollisionFree(h, KeyQueries(SecretKey(h, seed), w.authentication))
    ensures VerifyFixedRelation(h, context, PublicKey(h, SecretKey(h, seed)), w, invalid)
      <==> w.input == signed && invalid(signed, w.proof)
  {
    SignatureBindsConcatenation(h, seed, context, signed, context, w.input);
    if context + signed == context + w.input {
      SplitEqual(context, signed, context, w.input);
    }
  }
}
