/** Whole-slot sealing under an expanded seed, and the framing of sealed slots. */
module Sealing {
  import opened ByteStrings

  /** An extendable-output hash. */
  datatype Expander = Expander(expand: (Bytes, nat) -> Bytes) {
    ghost predicate Lawful() {
      forall t: Bytes, n: nat :: |expand(t, n)| == n
    }
  }

  function SeedPreimage(seed: Digest): Bytes {
    Ascii("ranklock/rom-prv-to-prv1/program-seed-commitment/v1") + [0] + seed
  }

  function SeedCommitment(h: Hash, seed: Digest): Digest {
    h(SeedPreimage(seed))
  }

  /** A seed commitment opens to one seed. */
  lemma SeedCommitmentBinds(h: Hash, s: Digest, t: Digest)
    requires CollisionFree(h, {SeedPreimage(s), SeedPreimage(t)}) && SeedCommitment(h, s) == SeedCommitment(h, t)
    ensures s == t
  {
    var dom := Ascii("ranklock/rom-prv-to-prv1/program-seed-commitment/v1") + [0];
    assert SeedPreimage(s) == SeedPreimage(t);
    SplitEqual(dom, s, dom, t);
  }

  function PadTranscript(context: Bytes, slotId: nat, seed: Bytes, length: nat): Bytes {
    Ascii("ranklock/rom-prv-to-prv1/program-pad/v1") + [0]
    + (context + (BigEndian(slotId, 4) + (seed + BigEndian(length, 8))))
  }

  /** Distinct contexts, slots, seeds or lengths expand distinct transcripts. */
  lemma PadTranscriptInjective(c: Digest, i: nat, s: Digest, n: nat, c': Digest, i': nat, s': Digest, n': nat)
    requires i < Pow256(4) && i' < Pow256(4) && n < Pow256(8) && n' < Pow256(8)
    requires PadTranscript(c, i, s, n) == PadTranscript(c', i', s', n')
    ensures c == c' && i == i' && s == s' && n == n'
  {
    var dom := Ascii("ranklock/rom-prv-to-prv1/program-pad/v1") + [0];
    var a, a' := BigEndian(i, 4), BigEndian(i', 4);
    var l, l' := BigEndian(n, 8), BigEndian(n', 8);
    SplitEqual(dom, c + (a + (s + l)), dom, c' + (a' + (s' + l')));
    SplitEqual(c, a + (s + l), c', a' + (s' + l'));
    SplitEqual(a, s + l, a', s' + l');
    SplitEqual(s, l, s', l');
    BigEndianInjective(i, i', 4);
    BigEndianInjective(n, n', 8);
  }

  function SealSlot(x: Expander, plaintext: Bytes, context: Bytes, slotId: int, seed: Bytes): Result<Bytes>
    requires x.Lawful()
  {
    if |context| != 32 || !(0 <= slotId < Pow256(4)) || |plaintext| >= Pow256(8) || |seed| != 32 then Err
    else Ok(Xor(plaintext, x.expand(PadTranscript(context, slotId, seed, |plaintext|), |plaintext|)))
  }

  function OpenSlot(x: Expander, ciphertext: Bytes, context: Bytes, slotId: int, seed: Bytes): Result<Bytes>
    requires x.Lawful()
  {
    SealSlot(x, ciphertext, context, slotId, seed)
  }

  /** Opening under the same context, slot and seed undoes sealing, at equal length. */
  lemma OpenUndoesSeal(x: Expander, plaintext: Bytes, context: Bytes, slotId: int, seed: Bytes)
    requires x.Lawful() && SealSlot(x, plaintext, context, slotId, seed).Ok?
    ensures var sealedSlot := SealSlot(x, plaintext, context, slotId, seed).value;
      |sealedSlot| == |plaintext| && OpenSlot(x, sealedSlot, context, slotId, seed) == Ok(plaintext)
  {
    XorTwice(plaintext, x.expand(PadTranscript(context, slotId, seed, |plaintext|), |plaintext|));
  }

  /** Distinct transcripts among these expand to distinct pads of one length. */
  ghost predicate PadsDiffer(x: Expander, transcripts: set<Bytes>, length: nat) {
    forall s, t :: s in transcripts && t in transcripts && x.expand(s, length) == x.expand(t, length) ==> s == t
  }

  lemma PadNames(x: Expander, n: nat, c: Bytes, i: nat, s: Bytes, c': Bytes, i': nat, s': Bytes)
    requires |c| == 32 && |s| == 32 && |c'| == 32 && |s'| == 32
    requires i < Pow256(4) && i' < Pow256(4) && n < Pow256(8)
    requires PadsDiffer(x, {PadTranscript(c, i, s, n), PadTranscript(c', i', s', n)}, n)
    ensures x.expand(PadTranscript(c, i, s, n), n) == x.expand(PadTranscript(c', i', s', n), n)
      <==> c == c' && i == i' && s == s'
  {
    if PadTranscript(c, i, s, n) == PadTranscript(c', i', s', n) {
      PadTranscriptInjective(c, i, s, n, c', i', s', n);
    }
  }

  /** Two sealed slots of one plaintext are equal exactly when their pads are, so sealing masks with the pad. */
  lemma SealedEqualExactly(
    x: Expander, plaintext: Bytes, c: Bytes, i: int, s: Bytes, c': Bytes, i': int, s': Bytes)
    requires x.Lawful() && SealSlot(x, plaintext, c, i, s).Ok? && SealSlot(x, plaintext, c', i', s').Ok?
    ensures var n := |plaintext|;
      SealSlot(x, plaintext, c, i, s) == SealSlot(x, plaintext, c', i', s')
      <==> x.expand(PadTranscript(c, i, s, n), n) == x.expand(PadTranscript(c', i', s', n), n)
  {
    var n := |plaintext|;
    if SealSlot(x, plaintext, c, i, s) == SealSlot(x, plaintext, c', i', s') {
      XorCancel(plaintext, x.expand(PadTranscript(c, i, s, n), n), x.expand(PadTranscript(c', i', s', n), n));
    }
  }

  /**
   * Unless two pads collide, one plaintext and one sealed slot fix context, slot and seed, and a sealed slot opens to
   * its plaintext under exactly the context, slot and seed it was sealed with.
   */
  lemma SealNames(x: Expander, plaintext: Bytes, c: Bytes, i: int, s: Bytes, c': Bytes, i': int, s': Bytes)
    requires x.Lawful() && SealSlot(x, plaintext, c, i, s).Ok? && SealSlot(x, plaintext, c', i', s').Ok?
    requires PadsDiffer(x, {PadTranscript(c, i, s, |plaintext|), PadTranscript(c', i', s', |plaintext|)}, |plaintext|)
    ensures SealSlot(x, plaintext, c, i, s) == SealSlot(x, plaintext, c', i', s') <==> c == c' && i == i' && s == s'
    ensures OpenSlot(x, SealSlot(x, plaintext, c, i, s).value, c', i', s') == Ok(plaintext)
      <==> c == c' && i == i' && s == s'
  {
    var n := |plaintext|;
    PadNames(x, n, c, i, s, c', i', s');
    SealedEqualExactly(x, plaintext, c, i, s, c', i', s');
    Unmasks(plaintext, x.expand(PadTranscript(c, i, s, n), n), x.expand(PadTranscript(c', i', s', n), n));
  }

  // ---------------------------------------------------------------- framing

  ghost predicate HasLengths(slots: seq<Bytes>, lengths: seq<nat>) {
    |slots| == |lengths| && forall i :: 0 <= i < |slots| ==> |slots[i]| == lengths[i]
  }

  /** The sealed slots behind a manifest: exactly the announced lengths, with no byte left over. */
  method ParseSlots(encoded: Bytes, manifestEnd: nat, lengths: seq<nat>) returns (r: Result<seq<Bytes>>)
    ensures r.Ok? <==> manifestEnd <= |encoded| && |encoded| - manifestEnd == Total(lengths)
    ensures r.Ok? ==> HasLengths(r.value, lengths) && encoded == encoded[..manifestEnd] + Concat(r.value)
  {
    if manifestEnd > |encoded| {
      return Err;
    }
    var cursor := manifestEnd;
    var slots: seq<Bytes> := [];
    for i := 0 to |lengths|
      invariant manifestEnd <= cursor <= |encoded|
      invariant cursor == manifestEnd + Total(lengths) - Total(lengths[i..])
      invariant HasLengths(slots, lengths[..i])
      invariant encoded[..cursor] == encoded[..manifestEnd] + Concat(slots)
    {
      assert lengths[i..][1..] == lengths[i + 1..];
      var end := cursor + lengths[i];
      if end > |encoded| {
        return Err;
      }
      ConcatSnoc(slots, encoded[cursor..end]);
      assert encoded[..end] == encoded[..cursor] + encoded[cursor..end];
      slots := slots + [encoded[cursor..end]];
      cursor := end;
    }
    assert lengths[..|lengths|] == lengths;
    if cursor != |encoded| {
      return Err;
    }
    assert encoded[..cursor] == encoded;
    return Ok(slots);
  }

  function Total(lengths: seq<nat>): nat {
    if lengths == [] then 0 else lengths[0] + Total(lengths[1..])
  }

  /** Announced lengths cut a concatenation in one way only. */
  lemma {:induction false} SlotsUnique(slots: seq<Bytes>, others: seq<Bytes>, lengths: seq<nat>)
    requires HasLengths(slots, lengths) && HasLengths(others, lengths) && Concat(slots) == Concat(others)
    ensures slots == others
  {
    if slots == [] {
    } else {
      SplitEqual(slots[0], Concat(slots[1..]), others[0], Concat(others[1..]));
      SlotsUnique(slots[1..], others[1..], lengths[1..]);
      assert slots == [slots[0]] + slots[1..] && others == [others[0]] + others[1..];
    }
  }
}
