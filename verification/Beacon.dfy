/** Field challenges from a beacon by rejection sampling. */
module Beacon {
  import opened ByteStrings
  import opened PrimeField

  const SAMPLE_SPACE := 0x1_0000000000000000_0000000000000000_0000000000000000_0000000000000000

  const COUNTERS := 0x1_0000_0000

  function Preimage(tag: Bytes, transcript: Digest, beacon: Digest, counter: nat): Bytes {
    Ascii("ranklock/external-beacon/challenge/v1") + [0] + BigEndian(|tag|, 2) + tag + transcript + beacon
      + BigEndian(counter, 4)
  }

  function Candidate(h: Hash, tag: Bytes, transcript: Digest, beacon: Digest, counter: nat): nat {
    FromBigEndian(h(Preimage(tag, transcript, beacon, counter)))
  }

  /** The largest multiple of the modulus in the sample space. */
  function AcceptanceLimit(modulus: nat): nat
    requires modulus > 0
  {
    SAMPLE_SPACE - SAMPLE_SPACE % modulus
  }

  predicate Acceptable(candidate: nat, modulus: nat, forbidden: set<int>)
    requires modulus > 0
  {
    candidate < AcceptanceLimit(modulus) && candidate % modulus !in forbidden
  }

  function Residues(values: seq<int>, modulus: nat): (r: set<int>)
    requires modulus > 0
    ensures forall x :: x in r <==> exists i :: 0 <= i < |values| && values[i] % modulus == x
  {
    set i | 0 <= i < |values| :: values[i] % modulus
  }

  predicate Supported(tag: Bytes, modulus: int) {
    1 <= |tag| <= 128 && 2 < modulus < SAMPLE_SPACE
  }

  /** The first acceptable candidate, reduced; an error when no counter gives one. */
  method DeriveFieldChallenge(h: Hash, beacon: Bytes, transcript: Bytes, tag: Bytes, modulus: int, forbidden: seq<int>)
    returns (r: Result<nat>)
    ensures r.Ok? <==>
      && |beacon| == 32 && |transcript| == 32 && Supported(tag, modulus)
      && exists c: nat :: c < COUNTERS
           && Acceptable(Candidate(h, tag, transcript, beacon, c), modulus, Residues(forbidden, modulus))
    ensures r.Ok? ==>
      && r.value < modulus && r.value !in Residues(forbidden, modulus)
      && exists c: nat :: c < COUNTERS
           && Acceptable(Candidate(h, tag, transcript, beacon, c), modulus, Residues(forbidden, modulus))
           && r.value == Candidate(h, tag, transcript, beacon, c) % modulus
           && forall earlier: nat :: earlier < c ==>
                !Acceptable(Candidate(h, tag, transcript, beacon, earlier), modulus, Residues(forbidden, modulus))
  {
    if |beacon| != 32 || |transcript| != 32 {
      return Err;
    }
    if tag == [] || |tag| > 128 {
      return Err;
    }
    if modulus <= 2 || modulus >= SAMPLE_SPACE {
      return Err;
    }
    var forbiddenValues := Residues(forbidden, modulus);
    var limit := AcceptanceLimit(modulus);
    for counter := 0 to COUNTERS
      invariant forall c: nat :: c < counter ==>
        !Acceptable(Candidate(h, tag, transcript, beacon, c), modulus, forbiddenValues)
    {
      var candidate := Candidate(h, tag, transcript, beacon, counter);
      if candidate >= limit {
        continue;
      }
      var value := candidate % modulus;
      if value !in forbiddenValues {
        assert Acceptable(Candidate(h, tag, transcript, beacon, counter), modulus, forbiddenValues);
        return Ok(value);
      }
    }
    return Err;
  }

  // ---------------------------------------------------------------- exact uniformity of one draw

  ghost predicate HasResidue(candidate: nat, modulus: nat, residue: nat)
    requires modulus > 0
  {
    candidate % modulus == residue
  }

  ghost function Below(bound: nat, modulus: nat, residue: nat): set<nat>
    requires modulus > 0
  {
    set c: nat | c < bound && HasResidue(c, modulus, residue)
  }

  ghost function AcceptedFor(modulus: nat, forbidden: set<int>, residue: nat): set<nat>
    requires modulus > 0
  {
    set c: nat | c < SAMPLE_SPACE && Acceptable(c, modulus, forbidden) && HasResidue(c, modulus, residue)
  }

  lemma {:induction false} BelowMultiple(modulus: nat, residue: nat, k: nat)
    requires residue < modulus
    ensures |Below(k * modulus, modulus, residue)| == k
  {
    if k == 0 {
      assert Below(0 * modulus, modulus, residue) == {};
    } else {
      var start := (k - 1) * modulus;
      BelowMultiple(modulus, residue, k - 1);
      assert k * modulus == start + modulus;
      forall c: nat | start <= c < start + modulus
        ensures HasResidue(c, modulus, residue) <==> c == start + residue
      {
        ResidueUnique(c, modulus, k - 1, c - start);
      }
      assert Below(k * modulus, modulus, residue) == Below(start, modulus, residue) + {start + residue};
    }
  }

  /** Every allowed residue has exactly floor(2^256 / m) accepted candidates, and a forbidden one has none. */
  lemma ExactlyUniform(modulus: nat, forbidden: set<int>, residue: nat)
    requires 2 < modulus < SAMPLE_SPACE && residue < modulus
    ensures |AcceptedFor(modulus, forbidden, residue)| == if residue in forbidden then 0 else SAMPLE_SPACE / modulus
  {
    if residue in forbidden {
      assert AcceptedFor(modulus, forbidden, residue) == {};
    } else {
      var k := SAMPLE_SPACE / modulus;
      assert SAMPLE_SPACE == k * modulus + SAMPLE_SPACE % modulus;
      assert AcceptanceLimit(modulus) == k * modulus;
      BelowMultiple(modulus, residue, k);
      assert AcceptedFor(modulus, forbidden, residue) == Below(k * modulus, modulus, residue);
    }
  }

  /** Every digest is a candidate of the sample space, and every candidate is a digest. */
  lemma CandidatesAreDigests(c: nat)
    requires c < SAMPLE_SPACE
    ensures |BigEndian(c, 32)| == 32 && FromBigEndian(BigEndian(c, 32)) == c
    ensures forall d: Digest :: FromBigEndian(d) < SAMPLE_SPACE
  {
    SampleSpaceIsPow256();
    BigEndianRoundTrip(c, 32);
    forall d: Digest
      ensures FromBigEndian(d) < SAMPLE_SPACE
    {
      BigEndianOfBytes(d);
    }
  }

  lemma SampleSpaceIsPow256()
    ensures Pow256(32) == SAMPLE_SPACE
  {
    PowersOf256();
    assert Pow256(12) == 256 * (256 * (256 * (256 * Pow256(8))));
    assert Pow256(16) == 256 * (256 * (256 * (256 * Pow256(12))));
    assert Pow256(20) == 256 * (256 * (256 * (256 * Pow256(16))));
    assert Pow256(24) == 256 * (256 * (256 * (256 * Pow256(20))));
    assert Pow256(28) == 256 * (256 * (256 * (256 * Pow256(24))));
    assert Pow256(32) == 256 * (256 * (256 * (256 * Pow256(28))));
  }

  /** Distinct draws hash distinct strings. */
  lemma PreimageInjective(
    tag: Bytes, transcript: Digest, beacon: Digest, counter: nat, tag': Bytes, transcript': Digest, beacon': Digest,
    counter': nat)
    requires 1 <= |tag| <= 128 && 1 <= |tag'| <= 128 && counter < COUNTERS && counter' < COUNTERS
    requires Preimage(tag, transcript, beacon, counter) == Preimage(tag', transcript', beacon', counter')
    ensures tag == tag' && transcript == transcript' && beacon == beacon' && counter == counter'
  {
    PowersOf256();
    var dom := Ascii("ranklock/external-beacon/challenge/v1") + [0];
    var l, l' := BigEndian(|tag|, 2), BigEndian(|tag'|, 2);
    var n, n' := BigEndian(counter, 4), BigEndian(counter', 4);
    assert Preimage(tag, transcript, beacon, counter) == dom + (l + (tag + (transcript + (beacon + n))));
    assert Preimage(tag', transcript', beacon', counter') == dom + (l' + (tag' + (transcript' + (beacon' + n'))));
    SplitEqual(dom, l + (tag + (transcript + (beacon + n))), dom, l' + (tag' + (transcript' + (beacon' + n'))));
    SplitEqual(l, tag + (transcript + (beacon + n)), l', tag' + (transcript' + (beacon' + n')));
    BigEndianInjective(|tag|, |tag'|, 2);
    SplitEqual(tag, transcript + (beacon + n), tag', transcript' + (beacon' + n'));
    SplitEqual(transcript, beacon + n, transcript', beacon' + n');
    SplitEqual(beacon, n, beacon', n');
    BigEndianInjective(counter, counter', 4);
  }

  /** Without a collision, equal candidates come from one tag, transcript, beacon and counter. */
  lemma CandidateBinds(
    h: Hash, tag: Bytes, transcript: Digest, beacon: Digest, counter: nat, tag': Bytes, transcript': Digest,
    beacon': Digest, counter': nat)
    requires 1 <= |tag| <= 128 && 1 <= |tag'| <= 128 && counter < COUNTERS && counter' < COUNTERS
    requires CollisionFree(h, {Preimage(tag, transcript, beacon, counter),
                               Preimage(tag', transcript', beacon', counter')})
    requires Candidate(h, tag, transcript, beacon, counter) == Candidate(h, tag', transcript', beacon', counter')
    ensures tag == tag' && transcript == transcript' && beacon == beacon' && counter == counter'
  {
    BigEndianOfBytes(h(Preimage(tag, transcript, beacon, counter)));
    BigEndianOfBytes(h(Preimage(tag', transcript', beacon', counter')));
    PreimageInjective(tag, transcript, beacon, counter, tag', transcript', beacon', counter');
  }
}
