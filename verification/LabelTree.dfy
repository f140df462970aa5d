/** The two-level hash commitment to one label pair per coordinate bit. */
module LabelTree {
  import opened ByteStrings
  import opened Sealing

  const LABEL_BYTES := 16

  // ---------------------------------------------------------------- hashed strings

  function LabelPreimage(context: Digest, slotId: nat, coordinate: byte, bit: nat, text: Bytes): Bytes {
    Ascii("ranklock/input-label-leaf/v1") + [0]
    + (context + (BigEndian(slotId, 4) + ([coordinate] + (BigEndian(bit, 2) + text))))
  }

  function PairPreimage(
    context: Digest, slotId: nat, coordinate: byte, bit: nat, zeroHash: Digest, oneHash: Digest): Bytes
  {
    Ascii("ranklock/input-label-pair/v1") + [0]
    + (context + (BigEndian(slotId, 4) + ([coordinate] + (BigEndian(bit, 2) + (zeroHash + oneHash)))))
  }

  function RootPreimage(
    context: Digest, slotId: nat, inputBits: nat, commitment: Digest, pairHashes: seq<Bytes>): Bytes
  {
    Ascii("ranklock/input-label-root/v1") + [0]
    + (context + (BigEndian(slotId, 4) + (BigEndian(inputBits, 2) + (commitment + Concat(pairHashes)))))
  }

  function LabelHash(h: Hash, context: Digest, slotId: nat, coordinate: byte, bit: nat, text: Bytes): Digest {
    h(LabelPreimage(context, slotId, coordinate, bit, text))
  }

  /** A hashed label string names context, slot, coordinate, bit and label. */
  lemma LabelPreimageBinds(
    c: Digest, s: nat, k: byte, b: nat, text: Bytes, c': Digest, s': nat, k': byte, b': nat, text': Bytes)
    requires s < Pow256(4) && s' < Pow256(4) && b < Pow256(2) && b' < Pow256(2)
    requires LabelPreimage(c, s, k, b, text) == LabelPreimage(c', s', k', b', text')
    ensures c == c' && s == s' && k == k' && b == b' && text == text'
  {
    PositionBinds(Ascii("ranklock/input-label-leaf/v1") + [0], c, s, k, b, text, c', s', k', b', text');
  }

  /** And a hashed pair string names them with both label hashes. */
  lemma PairPreimageBinds(
    c: Digest, s: nat, k: byte, b: nat, z: Digest, o: Digest,
    c': Digest, s': nat, k': byte, b': nat, z': Digest, o': Digest)
    requires s < Pow256(4) && s' < Pow256(4) && b < Pow256(2) && b' < Pow256(2)
    requires PairPreimage(c, s, k, b, z, o) == PairPreimage(c', s', k', b', z', o')
    ensures c == c' && s == s' && k == k' && b == b' && z == z' && o == o'
  {
    PositionBinds(Ascii("ranklock/input-label-pair/v1") + [0], c, s, k, b, z + o, c', s', k', b', z' + o');
    SplitEqual(z, o, z', o');
  }

  lemma PositionBinds(
    dom: Bytes, c: Digest, s: nat, k: byte, b: nat, tail: Bytes, c': Digest, s': nat, k': byte, b': nat, tail': Bytes)
    requires s < Pow256(4) && s' < Pow256(4) && b < Pow256(2) && b' < Pow256(2)
    requires dom + (c + (BigEndian(s, 4) + ([k] + (BigEndian(b, 2) + tail))))
      == dom + (c' + (BigEndian(s', 4) + ([k'] + (BigEndian(b', 2) + tail'))))
    ensures c == c' && s == s' && k == k' && b == b' && tail == tail'
  {
    var se, se', be, be' := BigEndian(s, 4), BigEndian(s', 4), BigEndian(b, 2), BigEndian(b', 2);
    SplitEqual(dom, c + (se + ([k] + (be + tail))), dom, c' + (se' + ([k'] + (be' + tail'))));
    SplitEqual(c, se + ([k] + (be + tail)), c', se' + ([k'] + (be' + tail')));
    SplitEqual(se, [k] + (be + tail), se', [k'] + (be' + tail'));
    SplitEqual([k], be + tail, [k'], be' + tail');
    assert [k][0] == [k'][0];
    SplitEqual(be, tail, be', tail');
    BigEndianInjective(s, s', 4);
    BigEndianInjective(b, b', 2);
  }

  // ---------------------------------------------------------------- the root of label-hash pairs

  type HashPair = (Digest, Digest)

  /** Everything a root is computed from. */
  datatype RootInput = RootInput(
    context: Digest, slotId: nat, inputBits: nat, commitment: Digest, hashPairs: seq<HashPair>) {
    /** What the fixed-width encodings and the pair count require; anything else raises. */
    predicate Valid() {
      slotId < Pow256(4) && inputBits < Pow256(2) && |hashPairs| == 2 * inputBits
    }

    /** The pair at a flat index is hashed under its coordinate and bit. */
    function PairPreimageAt(i: nat): Bytes
      requires Valid() && i < |hashPairs|
    {
      CoordinateOf(i, inputBits);
      PairPreimage(context, slotId, i / inputBits, i % inputBits, hashPairs[i].0, hashPairs[i].1)
    }

    function PairHash(h: Hash, i: nat): (d: Digest)
      requires Valid() && i < |hashPairs|
    {
      h(PairPreimageAt(i))
    }

    function PairHashes(h: Hash): (p: seq<Bytes>)
      requires Valid()
      ensures |p| == |hashPairs| && AllOfWidth(p, 32)
      ensures forall i :: 0 <= i < |p| ==> p[i] == PairHash(h, i)
    {
      var p: seq<Bytes> := seq(|hashPairs|, i requires 0 <= i < |hashPairs| => PairHash(h, i));
      assert forall i :: 0 <= i < |p| ==> p[i] == PairHash(h, i) && |PairHash(h, i)| == 32;
      p
    }

    function Preimage(h: Hash): Bytes
      requires Valid()
    {
      RootPreimage(context, slotId, inputBits, commitment, PairHashes(h))
    }

    function Root(h: Hash): Result<Digest> {
      if Valid() then Ok(h(Preimage(h))) else Err
    }

    ghost function Queries(h: Hash): set<Bytes>
      requires Valid()
    {
      {Preimage(h)} + (set i | 0 <= i < |hashPairs| :: PairPreimageAt(i))
    }
  }

  lemma CoordinateOf(i: nat, inputBits: nat)
    requires i < 2 * inputBits
    ensures i / inputBits == if i < inputBits then 0 else 1
    ensures i % inputBits == if i < inputBits then i else i - inputBits
  {
  }

  lemma RootPreimageBinds(
    c: Digest, s: nat, b: nat, k: Digest, p: seq<Bytes>, c': Digest, s': nat, b': nat, k': Digest, p': seq<Bytes>)
    requires s < Pow256(4) && s' < Pow256(4) && b < Pow256(2)
    requires b' < Pow256(2) && AllOfWidth(p, 32) && AllOfWidth(p', 32)
    requires RootPreimage(c, s, b, k, p) == RootPreimage(c', s', b', k', p')
    ensures c == c' && s == s' && b == b' && k == k' && p == p'
  {
    var dom := Ascii("ranklock/input-label-root/v1") + [0];
    var se, se', be, be' := BigEndian(s, 4), BigEndian(s', 4), BigEndian(b, 2), BigEndian(b', 2);
    var t, t' := Concat(p), Concat(p');
    SplitEqual(dom, c + (se + (be + (k + t))), dom, c' + (se' + (be' + (k' + t'))));
    SplitEqual(c, se + (be + (k + t)), c', se' + (be' + (k' + t')));
    SplitEqual(se, be + (k + t), se', be' + (k' + t'));
    SplitEqual(be, k + t, be', k' + t');
    SplitEqual(k, t, k', t');
    BigEndianInjective(s, s', 4);
    BigEndianInjective(b, b', 2);
    ConcatInjective(p, p', 32);
  }

  /** Without collisions a root determines context, slot, width, seed commitment and every label-hash pair. */
  lemma RootBinds(h: Hash, x: RootInput, y: RootInput)
    requires x.Valid() && y.Valid() && x.Root(h) == y.Root(h)
    requires CollisionFree(h, x.Queries(h) + y.Queries(h))
    ensures x == y
  {
    assert x.Preimage(h) in x.Queries(h) && y.Preimage(h) in y.Queries(h);
    RootPreimageBinds(x.context, x.slotId, x.inputBits, x.commitment, x.PairHashes(h),
                      y.context, y.slotId, y.inputBits, y.commitment, y.PairHashes(h));
    forall i | 0 <= i < |x.hashPairs|
      ensures x.hashPairs[i] == y.hashPairs[i]
    {
      assert x.PairHashes(h)[i] == y.PairHashes(h)[i];
      assert x.PairPreimageAt(i) in x.Queries(h) && y.PairPreimageAt(i) in y.Queries(h);
      CoordinateOf(i, x.inputBits);
      PairPreimageBinds(x.context, x.slotId, i / x.inputBits, i % x.inputBits, x.hashPairs[i].0, x.hashPairs[i].1,
                        y.context, y.slotId, i / y.inputBits, i % y.inputBits, y.hashPairs[i].0, y.hashPairs[i].1);
    }
  }

  /** The public reconstruction from label hashes. */
  method RootFromLabelHashPairs(
    h: Hash, context: Bytes, slotId: nat, inputBits: nat, commitment: Bytes, pairs: seq<(Bytes, Bytes)>)
    returns (r: Result<Digest>)
    ensures r.Ok? <==>
      && |context| == 32 && |commitment| == 32 && |pairs| == 2 * inputBits
      && (forall i :: 0 <= i < |pairs| ==> |pairs[i].0| == 32 && |pairs[i].1| == 32)
      && slotId < Pow256(4) && inputBits < Pow256(2)
    ensures r.Ok? ==> r == RootInput(context, slotId, inputBits, commitment, pairs).Root(h)
  {
    if |context| != 32 || |commitment| != 32 {
      return Err;
    }
    if |pairs| != 2 * inputBits {
      return Err;
    }
    var pairHashes: seq<Bytes> := [];
    PowersOf256();
    for i := 0 to |pairs|
      invariant forall j :: 0 <= j < i ==> |pairs[j].0| == 32 && |pairs[j].1| == 32
      invariant i > 0 ==> slotId < Pow256(4)
      invariant |pairHashes| == i
      invariant forall j :: 0 <= j < i ==>
        pairHashes[j] == PairHashAt(h, context, slotId, inputBits, j, pairs[j].0, pairs[j].1)
    {
      var (zeroHash, oneHash) := pairs[i];
      if |zeroHash| != 32 || |oneHash| != 32 {
        return Err;
      }
      var slot := Fixed(slotId, 4);
      var bit := Fixed(i % inputBits, 2);
      if slot.Err? || bit.Err? {
        if slotId < Pow256(4) { ModBound(i, inputBits); }
        return Err;
      }
      pairHashes := pairHashes + [PairHashAt(h, context, slotId, inputBits, i, zeroHash, oneHash)];
    }
    var slot := Fixed(slotId, 4);
    var bits := Fixed(inputBits, 2);
    if slot.Err? || bits.Err? {
      return Err;
    }
    ghost var x := RootInput(context, slotId, inputBits, commitment, pairs);
    assert pairHashes == x.PairHashes(h);
    return Ok(h(RootPreimage(context, slotId, inputBits, commitment, pairHashes)));
  }

  lemma ModBound(i: nat, n: nat)
    requires n > 0
    ensures i % n < n
  {
  }

  function PairHashAt(
    h: Hash, context: Bytes, slotId: nat, inputBits: nat, i: nat, zeroHash: Bytes, oneHash: Bytes): Digest
    requires |context| == 32 && |zeroHash| == 32 && |oneHash| == 32 && i < 2 * inputBits
  {
    CoordinateOf(i, inputBits);
    h(PairPreimage(context, slotId, i / inputBits, i % inputBits, zeroHash, oneHash))
  }

  // ---------------------------------------------------------------- trees

  type LabelPair = (Bytes, Bytes)

  datatype Tree = Tree(
    context: Digest, slotId: nat, inputBits: nat, seed: Digest, pairs: seq<LabelPair>, root: Digest) {
    /** What construction checks. */
    predicate Valid() {
      && slotId < Pow256(4) && inputBits > 1 && |pairs| == 2 * inputBits
      && forall i :: 0 <= i < |pairs| ==> |pairs[i].0| == LABEL_BYTES && |pairs[i].1| == LABEL_BYTES
    }

    function HashedPair(h: Hash, i: nat): HashPair
      requires inputBits > 0 && i < |pairs| == 2 * inputBits
    {
      CoordinateOf(i, inputBits);
      (LabelHash(h, context, slotId, i / inputBits, i % inputBits, pairs[i].0),
       LabelHash(h, context, slotId, i / inputBits, i % inputBits, pairs[i].1))
    }

    function HashedPairs(h: Hash): (p: seq<HashPair>)
      requires inputBits > 0 && |pairs| == 2 * inputBits
      ensures |p| == |pairs|
    {
      seq(|pairs|, i requires 0 <= i < |pairs| => HashedPair(h, i))
    }

    /** What the root of this tree commits to. */
    function Committed(h: Hash): RootInput
      requires inputBits > 0 && |pairs| == 2 * inputBits
    {
      RootInput(context, slotId, inputBits, SeedCommitment(h, seed), HashedPairs(h))
    }

    /** The root is the one its own pairs give. */
    predicate Consistent(h: Hash) {
      Valid() && Committed(h).Root(h) == Ok(root)
    }

    ghost function Queries(h: Hash): set<Bytes>
      requires Valid() && inputBits < Pow256(2)
    {
      Committed(h).Queries(h) + {SeedPreimage(seed)}
      + (set i | 0 <= i < |pairs| :: LabelPreimageAt(i, pairs[i].0))
      + (set i | 0 <= i < |pairs| :: LabelPreimageAt(i, pairs[i].1))
    }

    ghost function LabelPreimageAt(i: nat, text: Bytes): Bytes
      requires inputBits > 0 && i < |pairs| == 2 * inputBits
    {
      CoordinateOf(i, inputBits);
      LabelPreimage(context, slotId, i / inputBits, i % inputBits, text)
    }
  }

  /** One coordinate of the trusted zero template: a label and its mask per bit, and the coordinate's offset. */
  datatype Encoding = Encoding(labels: seq<Bytes>, masks: seq<Bytes>, delta: Option<int>) {
    predicate Usable(inputBits: nat) {
      && |labels| == inputBits && |masks| == inputBits
      && (forall i :: 0 <= i < |labels| ==> |labels[i]| == LABEL_BYTES) && labels == masks
      && delta.Some? && 0 < delta.value < Pow256(LABEL_BYTES)
    }

    /** A label and its partner, the label offset by the coordinate's delta. */
    function PairAt(bit: nat): LabelPair
      requires bit < |labels| && |labels[bit]| == LABEL_BYTES && delta.Some? && delta.value > 0
    {
      (labels[bit], Xor(labels[bit], LittleEndian(delta.value, LABEL_BYTES)))
    }

    function Pairs(inputBits: nat): (p: seq<LabelPair>)
      requires Usable(inputBits)
      ensures |p| == inputBits
    {
      seq(inputBits, bit requires 0 <= bit < inputBits => PairAt(bit))
    }
  }

  /** A template for the zero input: as many labels as bits, each its own mask, and an offset of 1 to 2^128 - 1. */
  ghost predicate ZeroTemplate(e: Encoding, inputBits: nat) {
    && |e.labels| == inputBits && e.delta.Some? && 0 < e.delta.value < Pow256(8) * Pow256(8)
    && |e.masks| == inputBits
    && forall bit :: 0 <= bit < inputBits ==> |e.labels[bit]| == 16 && e.masks[bit] == e.labels[bit]
  }

  lemma UsableExactly(e: Encoding, inputBits: nat)
    ensures e.Usable(inputBits) <==> ZeroTemplate(e, inputBits)
  {
    PowersOf256();
    assert Pow256(12) == 256 * (256 * (256 * (256 * Pow256(8))));
    assert Pow256(16) == 256 * (256 * (256 * (256 * Pow256(12))));
    if ZeroTemplate(e, inputBits) {
      assert e.labels == e.masks;
    }
  }

  function TreeOf(h: Hash, x: Encoding, y: Encoding, context: Digest, slotId: nat, inputBits: nat, seed: Digest): Tree
    requires x.Usable(inputBits) && y.Usable(inputBits) && inputBits > 0
  {
    var unrooted := Tree(context, slotId, inputBits, seed, x.Pairs(inputBits) + y.Pairs(inputBits), Zeros(32));
    match unrooted.Committed(h).Root(h)
    case Err => unrooted
    case Ok(root) => unrooted.(root := root)
  }

  method FromInputEncodings(
    h: Hash, encodings: seq<Encoding>, context: Bytes, slotId: nat, inputBits: nat, seed: Bytes)
    returns (r: Result<Tree>)
    ensures r.Ok? <==>
      && |encodings| == 2 && |context| == 32 && |seed| == 32 && slotId < Pow256(4) && 1 < inputBits < Pow256(2)
      && ZeroTemplate(encodings[0], inputBits) && ZeroTemplate(encodings[1], inputBits)
    ensures r.Ok? ==>
      r.value == TreeOf(h, encodings[0], encodings[1], context, slotId, inputBits, seed) && r.value.Consistent(h)
  {
    if |encodings| != 2 {
      return Err;
    }
    var both := BothCoordinates(encodings, inputBits);
    UsableExactly(encodings[0], inputBits);
    UsableExactly(encodings[1], inputBits);
    if both.Err? || |context| != 32 || |seed| != 32 || inputBits <= 1 {
      return Err;
    }
    var root := RootFromPairs(h, context, slotId, inputBits, seed, both.value);
    if root.Err? {
      return Err;
    }
    TreeOfIsConsistent(h, encodings[0], encodings[1], context, slotId, inputBits, seed);
    return Ok(Tree(context, slotId, inputBits, seed, both.value, root.value));
  }

  /** The outer loop: all pairs of x, then all pairs of y. */
  method BothCoordinates(encodings: seq<Encoding>, inputBits: nat) returns (r: Result<seq<LabelPair>>)
    requires |encodings| == 2
    ensures r.Ok? <==> encodings[0].Usable(inputBits) && encodings[1].Usable(inputBits)
    ensures r.Ok? ==> r.value == encodings[0].Pairs(inputBits) + encodings[1].Pairs(inputBits)
  {
    var pairs: seq<LabelPair> := [];
    for c := 0 to 2
      invariant forall d :: 0 <= d < c ==> encodings[d].Usable(inputBits)
      invariant pairs == (if c > 0 then encodings[0].Pairs(inputBits) else [])
                       + (if c > 1 then encodings[1].Pairs(inputBits) else [])
    {
      var e := encodings[c];
      if !e.Usable(inputBits) {
        return Err;
      }
      var coordinate := CoordinatePairs(e, inputBits);
      pairs := pairs + coordinate;
    }
    return Ok(pairs);
  }

  lemma TreeOfIsConsistent(
    h: Hash, x: Encoding, y: Encoding, context: Digest, slotId: nat, inputBits: nat, seed: Digest)
    requires x.Usable(inputBits) && y.Usable(inputBits) && slotId < Pow256(4) && 1 < inputBits < Pow256(2)
    ensures var pairs := x.Pairs(inputBits) + y.Pairs(inputBits);
      var root := Tree(context, slotId, inputBits, seed, pairs, Zeros(32)).Committed(h).Root(h);
      && root.Ok?
      && TreeOf(h, x, y, context, slotId, inputBits, seed)
         == Tree(context, slotId, inputBits, seed, pairs, root.value)
    ensures TreeOf(h, x, y, context, slotId, inputBits, seed).Consistent(h)
  {
    var pairs := x.Pairs(inputBits) + y.Pairs(inputBits);
    var unrooted := Tree(context, slotId, inputBits, seed, pairs, Zeros(32));
    var rooted := TreeOf(h, x, y, context, slotId, inputBits, seed);
    assert unrooted.Committed(h).Valid();
    SameCommitment(h, unrooted, rooted);
    PairWidths(x, y, inputBits);
  }

  /** A root field does not influence what the tree commits to. */
  lemma SameCommitment(h: Hash, t: Tree, u: Tree)
    requires t.inputBits > 0 && |t.pairs| == 2 * t.inputBits && u == t.(root := u.root)
    ensures t.Committed(h) == u.Committed(h)
  {
    forall i | 0 <= i < |t.pairs|
      ensures t.HashedPair(h, i) == u.HashedPair(h, i)
    {
      CoordinateOf(i, t.inputBits);
    }
  }

  method CoordinatePairs(e: Encoding, inputBits: nat) returns (pairs: seq<LabelPair>)
    requires e.Usable(inputBits)
    ensures pairs == e.Pairs(inputBits)
  {
    pairs := [];
    for bit := 0 to inputBits
      invariant pairs == e.Pairs(inputBits)[..bit]
    {
      pairs := pairs + [e.PairAt(bit)];
    }
    assert e.Pairs(inputBits)[..inputBits] == e.Pairs(inputBits);
  }

  lemma PairWidths(x: Encoding, y: Encoding, inputBits: nat)
    requires x.Usable(inputBits) && y.Usable(inputBits)
    ensures forall i :: 0 <= i < 2 * inputBits ==>
      var p := (x.Pairs(inputBits) + y.Pairs(inputBits))[i]; |p.0| == LABEL_BYTES && |p.1| == LABEL_BYTES
  {
  }

  /** The setup root: both labels of every pair hashed, then each pair, then all pairs. */
  method RootFromPairs(
    h: Hash, context: Digest, slotId: nat, inputBits: nat, seed: Digest, pairs: seq<LabelPair>)
    returns (r: Result<Digest>)
    requires inputBits > 0 && |pairs| == 2 * inputBits
    ensures r == Tree(context, slotId, inputBits, seed, pairs, Zeros(32)).Committed(h).Root(h)
  {
    ghost var t := Tree(context, slotId, inputBits, seed, pairs, Zeros(32));
    var pairHashes: seq<Bytes> := [];
    if slotId >= Pow256(4) || inputBits >= Pow256(2) {
      return Err;
    }
    for i := 0 to |pairs|
      invariant |pairHashes| == i
      invariant forall j :: 0 <= j < i ==> pairHashes[j] == t.Committed(h).PairHashes(h)[j]
    {
      CoordinateOf(i, inputBits);
      assert t.Committed(h).PairHashes(h)[i] == t.Committed(h).PairHash(h, i);
      var coordinate, bit := i / inputBits, i % inputBits;
      var zeroHash := LabelHash(h, context, slotId, coordinate, bit, pairs[i].0);
      var oneHash := LabelHash(h, context, slotId, coordinate, bit, pairs[i].1);
      pairHashes := pairHashes + [h(PairPreimage(context, slotId, coordinate, bit, zeroHash, oneHash))];
    }
    assert pairHashes == t.Committed(h).PairHashes(h);
    return Ok(h(RootPreimage(context, slotId, inputBits, SeedCommitment(h, seed), pairHashes)));
  }

  // ---------------------------------------------------------------- the two labels of a pair

  lemma {:induction false} XorBitsFixpoint(a: nat, b: nat, k: nat)
    requires a < Pow2(k) && b < Pow2(k) && XorBits(a, b, k) == a
    ensures b == 0
  {
    if k == 0 {
    } else {
      assert XorBits(a / 2, b / 2, k - 1) == a / 2;
      XorBitsFixpoint(a / 2, b / 2, k - 1);
    }
  }

  lemma {:induction false} NonzeroByte(v: nat, w: nat)
    requires 0 < v < Pow256(w)
    ensures exists i :: 0 <= i < w && LittleEndian(v, w)[i] != 0
  {
    if v % 256 == 0 {
      NonzeroByte(v / 256, w - 1);
      var i :| 0 <= i < w - 1 && LittleEndian(v / 256, w - 1)[i] != 0;
      assert LittleEndian(v, w)[i + 1] != 0;
    } else {
      assert LittleEndian(v, w)[0] != 0;
    }
  }

  /** Setup never gives both values of a bit the same label, and the pair differs by the coordinate's delta. */
  lemma PairDiffers(e: Encoding, inputBits: nat, bit: nat)
    requires e.Usable(inputBits) && bit < inputBits
    ensures e.PairAt(bit).0 == e.labels[bit] != e.PairAt(bit).1
    ensures Xor(e.PairAt(bit).1, LittleEndian(e.delta.value, LABEL_BYTES)) == e.PairAt(bit).0
  {
    var row, d := e.labels[bit], LittleEndian(e.delta.value, LABEL_BYTES);
    XorTwice(row, d);
    NonzeroByte(e.delta.value, LABEL_BYTES);
    var i :| 0 <= i < LABEL_BYTES && d[i] != 0;
    ByteIsPow2();
    if Xor(row, d)[i] == row[i] {
      XorBitsFixpoint(row[i], d[i], 8);
    }
  }
}
