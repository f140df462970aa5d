/** Authorized releases: one label opened per bit of a point, and the reconstruction of the committed root from it. */
module LabelRelease {
  import opened ByteStrings
  import opened Sealing
  import opened LabelTree
  import opened Signatures

  // ---------------------------------------------------------------- evaluation contexts

  type Outpoint = b: Bytes | |b| == 36 witness seq(36, _ => 0)

  datatype EvaluationContext = EvaluationContext(
    chain: Digest, program: Digest, verifierKey: Digest, deposit: Outpoint, gameIndex: int, operatorIndex: int,
    counterproofTxid: Digest, epoch: int, deadlineHeight: int) {

    /** What construction checks beyond the widths. */
    predicate Valid() {
      && 0 <= gameIndex < Pow256(8) && 0 <= operatorIndex < Pow256(4)
      && 0 <= epoch < Pow256(8) && 0 <= deadlineHeight < Pow256(8)
    }

    function Preimage(): Bytes
      requires Valid()
    {
      Ascii("ranklock/evaluation-context/v1") + [0] + (chain + (program + (verifierKey + (deposit
      + (BigEndian(gameIndex, 8) + (BigEndian(operatorIndex, 4) + (counterproofTxid
      + (BigEndian(epoch, 8) + BigEndian(deadlineHeight, 8)))))))))
    }

    function ContextDigest(h: Hash): Digest
      requires Valid()
    {
      h(Preimage())
    }
  }

  /** A context digest fixes all nine fields. */
  lemma ContextDigestBinds(h: Hash, a: EvaluationContext, b: EvaluationContext)
    requires a.Valid() && b.Valid() && a.ContextDigest(h) == b.ContextDigest(h)
    requires CollisionFree(h, {a.Preimage(), b.Preimage()})
    ensures a == b
  {
    var dom := Ascii("ranklock/evaluation-context/v1") + [0];
    var g, g' := BigEndian(a.gameIndex, 8), BigEndian(b.gameIndex, 8);
    var o, o' := BigEndian(a.operatorIndex, 4), BigEndian(b.operatorIndex, 4);
    var e, e' := BigEndian(a.epoch, 8), BigEndian(b.epoch, 8);
    var d, d' := BigEndian(a.deadlineHeight, 8), BigEndian(b.deadlineHeight, 8);
    var t5, t5' := e + d, e' + d';
    var t4, t4' := o + (a.counterproofTxid + t5), o' + (b.counterproofTxid + t5');
    var t3, t3' := a.deposit + (g + t4), b.deposit + (g' + t4');
    assert a.Preimage() == b.Preimage();
    SplitEqual(dom, a.chain + (a.program + (a.verifierKey + t3)), dom, b.chain + (b.program + (b.verifierKey + t3')));
    SplitEqual(a.chain, a.program + (a.verifierKey + t3), b.chain, b.program + (b.verifierKey + t3'));
    SplitEqual(a.program, a.verifierKey + t3, b.program, b.verifierKey + t3');
    SplitEqual(a.verifierKey, t3, b.verifierKey, t3');
    SplitEqual(a.deposit, g + t4, b.deposit, g' + t4');
    SplitEqual(g, t4, g', t4');
    SplitEqual(o, a.counterproofTxid + t5, o', b.counterproofTxid + t5');
    SplitEqual(a.counterproofTxid, t5, b.counterproofTxid, t5');
    SplitEqual(e, d, e', d');
    BigEndianInjective(a.gameIndex, b.gameIndex, 8);
    BigEndianInjective(a.operatorIndex, b.operatorIndex, 4);
    BigEndianInjective(a.epoch, b.epoch, 8);
    BigEndianInjective(a.deadlineHeight, b.deadlineHeight, 8);
  }

  // ---------------------------------------------------------------- points

  datatype Point = Infinity | Affine(x: nat, y: nat)

  /** Point compression; both directions raise on inputs they do not like. */
  datatype Curve = Curve(compress: Point -> Result<Bytes>, decompress: Bytes -> Result<Point>) {
    /** The affine point behind a canonical encoding. */
    function Canonical(encoding: Bytes): (p: Result<Point>)
      ensures p.Ok? ==> p.value.Affine?
    {
      var p :- decompress(encoding);
      if compress(p) == Ok(encoding) && p.Affine? then Ok(p) else Err
    }
  }

  /** Every affine point has at most one canonical encoding. */
  lemma CanonicalUnique(curve: Curve, a: Bytes, b: Bytes)
    requires curve.Canonical(a).Ok? && curve.Canonical(a) == curve.Canonical(b)
    ensures a == b
  {
  }

  /** The point bit that selects the label at a flat index: first all bits of x, then all bits of y. */
  function Selected(p: Point, i: nat, inputBits: nat): nat
    requires p.Affine? && i < 2 * inputBits
  {
    if i / inputBits == 0 then Bit(p.x, i % inputBits) else Bit(p.y, i % inputBits)
  }

  // ---------------------------------------------------------------- openings and releases

  type LabelBytes = b: Bytes | |b| == 16 witness seq(16, _ => 0)
  type SignatureBytes = b: Bytes | |b| == 64 witness seq(64, _ => 0)

  const OPENING_BYTES := 48
  const RELEASE_HEADER_BYTES := 196
  const SIGNATURE_BYTES := 64

  datatype Opening = Opening(text: LabelBytes, sibling: Digest) {
    function Encoded(): (e: Bytes)
      ensures |e| == OPENING_BYTES
    {
      text + sibling
    }
  }

  function EncodedOpenings(openings: seq<Opening>): (e: seq<Bytes>)
    ensures |e| == |openings| && AllOfWidth(e, OPENING_BYTES)
    ensures forall i :: 0 <= i < |e| ==> e[i] == openings[i].Encoded()
  {
    seq(|openings|, i requires 0 <= i < |openings| => openings[i].Encoded())
  }

  datatype Release = Release(
    context: Digest, slotId: int, point: Digest, root: Digest, seed: Digest, txid: Digest, pubkey: Digest,
    openings: seq<Opening>, signature: SignatureBytes) {

    /** What construction checks beyond the widths. */
    predicate Valid() {
      0 <= slotId < Pow256(4) && openings != [] && |openings| % 2 == 0
    }

    function InputBits(): (n: nat)
      requires Valid()
      ensures n > 0 && |openings| == 2 * n
    {
      |openings| / 2
    }

    function Header(): (b: Bytes)
      requires Valid()
      ensures |b| == RELEASE_HEADER_BYTES
    {
      context + (BigEndian(slotId, 4) + (point + (root + (seed + (txid + pubkey)))))
    }

    function OpeningsPreimage(): Bytes
      requires Valid()
    {
      Ascii("ranklock/authorized-label-openings/v1") + [0]
      + (BigEndian(InputBits(), 2) + Concat(EncodedOpenings(openings)))
    }

    function SigningPreimage(h: Hash): Bytes
      requires Valid()
    {
      Ascii("ranklock/authorized-label-release-sign/v2") + [0]
      + (Header() + (BigEndian(InputBits(), 2) + h(OpeningsPreimage())))
    }

    /** The signed message; it raises when the opening count does not fit its two bytes. */
    function SigningMessage(h: Hash): Result<Digest>
      requires Valid()
    {
      if InputBits() < Pow256(2) then Ok(h(SigningPreimage(h))) else Err
    }

    predicate SignedBy(h: Hash, scheme: Scheme, authorizer: Bytes)
      requires Valid()
    {
      |authorizer| == 32 && pubkey == authorizer && SigningMessage(h).Ok?
      && scheme.verify(SigningMessage(h).value, authorizer, signature)
    }

    function Compact(): Bytes
      requires Valid()
    {
      Header() + (Concat(EncodedOpenings(openings)) + signature)
    }

    /** The label hashes an opening stands for, the opened one in the place its bit selects. */
    function HashPairAt(h: Hash, p: Point, i: nat): HashPair
      requires Valid() && p.Affine? && i < |openings|
    {
      CoordinateOf(i, InputBits());
      var own := LabelHash(h, context, slotId, i / InputBits(), i % InputBits(), openings[i].text);
      if Selected(p, i, InputBits()) == 0 then (own, openings[i].sibling) else (openings[i].sibling, own)
    }

    function Revealed(h: Hash, p: Point): (x: RootInput)
      requires Valid() && p.Affine?
    {
      RootInput(context, slotId, InputBits(), SeedCommitment(h, seed),
                seq(|openings|, i requires 0 <= i < |openings| => HashPairAt(h, p, i)))
    }

    /** The root that this release opens. */
    function Reconstructed(h: Hash, curve: Curve): Result<Digest>
      requires Valid()
    {
      var p :- curve.Canonical(point);
      Revealed(h, p).Root(h)
    }

    ghost function LabelPreimageAt(i: nat): Bytes
      requires Valid() && i < |openings|
    {
      CoordinateOf(i, InputBits());
      LabelPreimage(context, slotId, i / InputBits(), i % InputBits(), openings[i].text)
    }

    /** Every string hashed while the root is reconstructed. */
    ghost function Queries(h: Hash, p: Point): set<Bytes>
      requires Valid() && p.Affine? && InputBits() < Pow256(2)
    {
      Revealed(h, p).Queries(h) + {SeedPreimage(seed)} + (set i | 0 <= i < |openings| :: LabelPreimageAt(i))
    }
  }

  // ---------------------------------------------------------------- what a signature covers

  lemma HeaderBinds(a: Release, b: Release)
    requires a.Valid() && b.Valid() && a.Header() == b.Header()
    ensures a.context == b.context && a.slotId == b.slotId && a.point == b.point && a.root == b.root
    ensures a.seed == b.seed && a.txid == b.txid && a.pubkey == b.pubkey
  {
    var s, s' := BigEndian(a.slotId, 4), BigEndian(b.slotId, 4);
    SplitEqual(a.context, s + (a.point + (a.root + (a.seed + (a.txid + a.pubkey)))),
               b.context, s' + (b.point + (b.root + (b.seed + (b.txid + b.pubkey)))));
    SplitEqual(s, a.point + (a.root + (a.seed + (a.txid + a.pubkey))), s',
               b.point + (b.root + (b.seed + (b.txid + b.pubkey))));
    SplitEqual(a.point, a.root + (a.seed + (a.txid + a.pubkey)), b.point, b.root + (b.seed + (b.txid + b.pubkey)));
    SplitEqual(a.root, a.seed + (a.txid + a.pubkey), b.root, b.seed + (b.txid + b.pubkey));
    SplitEqual(a.seed, a.txid + a.pubkey, b.seed, b.txid + b.pubkey);
    SplitEqual(a.txid, a.pubkey, b.txid, b.pubkey);
    BigEndianInjective(a.slotId, b.slotId, 4);
  }

  lemma OpeningsBind(p: seq<Opening>, r: seq<Opening>)
    requires Concat(EncodedOpenings(p)) == Concat(EncodedOpenings(r))
    ensures p == r
  {
    ConcatInjective(EncodedOpenings(p), EncodedOpenings(r), OPENING_BYTES);
    forall i | 0 <= i < |p|
      ensures p[i] == r[i]
    {
      assert p[i].Encoded() == EncodedOpenings(p)[i] == EncodedOpenings(r)[i] == r[i].Encoded();
      SplitEqual(p[i].text, p[i].sibling, r[i].text, r[i].sibling);
    }
  }

  ghost function SigningQueries(h: Hash, r: Release): set<Bytes>
    requires r.Valid()
  {
    {r.SigningPreimage(h), r.OpeningsPreimage()}
  }

  /** A signed message fixes the whole release but for the signature itself. */
  lemma SigningMessageBinds(h: Hash, a: Release, b: Release)
    requires a.Valid() && b.Valid() && a.SigningMessage(h).Ok? && a.SigningMessage(h) == b.SigningMessage(h)
    requires CollisionFree(h, SigningQueries(h, a) + SigningQueries(h, b))
    ensures a == b.(signature := a.signature)
  {
    var dom := Ascii("ranklock/authorized-label-release-sign/v2") + [0];
    var n, n' := BigEndian(a.InputBits(), 2), BigEndian(b.InputBits(), 2);
    var d, d' := h(a.OpeningsPreimage()), h(b.OpeningsPreimage());
    assert a.SigningPreimage(h) in SigningQueries(h, a) && b.SigningPreimage(h) in SigningQueries(h, b);
    SplitEqual(dom, a.Header() + (n + d), dom, b.Header() + (n' + d'));
    SplitEqual(a.Header(), n + d, b.Header(), n' + d');
    HeaderBinds(a, b);
    SplitEqual(n, d, n', d');
    assert a.OpeningsPreimage() in SigningQueries(h, a) && b.OpeningsPreimage() in SigningQueries(h, b);
    var inner := Ascii("ranklock/authorized-label-openings/v1") + [0];
    SplitEqual(inner, n + Concat(EncodedOpenings(a.openings)), inner, n' + Concat(EncodedOpenings(b.openings)));
    SplitEqual(n, Concat(EncodedOpenings(a.openings)), n', Concat(EncodedOpenings(b.openings)));
    OpeningsBind(a.openings, b.openings);
  }

  // ---------------------------------------------------------------- the compact encoding

  /** A compact encoding stands for one release of its width. */
  lemma CompactBinds(a: Release, b: Release)
    requires a.Valid() && b.Valid() && a.Compact() == b.Compact()
    ensures a == b
  {
    var t, t' := Concat(EncodedOpenings(a.openings)), Concat(EncodedOpenings(b.openings));
    ConcatLength(EncodedOpenings(a.openings), OPENING_BYTES);
    ConcatLength(EncodedOpenings(b.openings), OPENING_BYTES);
    SplitEqual(a.Header(), t + a.signature, b.Header(), t' + b.signature);
    HeaderBinds(a, b);
    SplitEqual(t, a.signature, t', b.signature);
    OpeningsBind(a.openings, b.openings);
  }

  lemma CompactLength(r: Release)
    requires r.Valid()
    ensures |r.Compact()| == RELEASE_HEADER_BYTES + 2 * r.InputBits() * OPENING_BYTES + SIGNATURE_BYTES
  {
    ConcatLength(EncodedOpenings(r.openings), OPENING_BYTES);
  }

  lemma HeaderCut(raw: Bytes)
    requires |raw| >= RELEASE_HEADER_BYTES
    ensures raw[..196] == raw[0..32] + (raw[32..36] + (raw[36..68]
      + (raw[68..100] + (raw[100..132] + (raw[132..164] + raw[164..196])))))
  {
    assert raw[132..196] == raw[132..164] + raw[164..196];
    assert raw[100..196] == raw[100..132] + raw[132..196];
    assert raw[68..196] == raw[68..100] + raw[100..196];
    assert raw[36..196] == raw[36..68] + raw[68..196];
    assert raw[32..196] == raw[32..36] + raw[36..196];
    assert raw[..196] == raw[0..32] + raw[32..196];
  }

  /** The cursor loop over the openings. */
  method ParseOpenings(raw: Bytes, count: nat) returns (openings: seq<Opening>, cursor: nat)
    requires |raw| == RELEASE_HEADER_BYTES + count * OPENING_BYTES + SIGNATURE_BYTES
    ensures |openings| == count && cursor == |raw| - SIGNATURE_BYTES
    ensures Concat(EncodedOpenings(openings)) == raw[RELEASE_HEADER_BYTES..cursor]
  {
    openings, cursor := [], RELEASE_HEADER_BYTES;
    for i := 0 to count
      invariant |openings| == i && cursor == RELEASE_HEADER_BYTES + i * OPENING_BYTES
      invariant cursor + (count - i) * OPENING_BYTES + SIGNATURE_BYTES == |raw|
      invariant Concat(EncodedOpenings(openings)) == raw[RELEASE_HEADER_BYTES..cursor]
    {
      assert (count - i) * OPENING_BYTES >= OPENING_BYTES;
      var next := Opening(raw[cursor..cursor + 16], raw[cursor + 16..cursor + OPENING_BYTES]);
      assert next.Encoded() == raw[cursor..cursor + OPENING_BYTES];
      ConcatSnoc(EncodedOpenings(openings), next.Encoded());
      assert EncodedOpenings(openings + [next]) == EncodedOpenings(openings) + [next.Encoded()];
      assert raw[RELEASE_HEADER_BYTES..cursor] + raw[cursor..cursor + OPENING_BYTES]
          == raw[RELEASE_HEADER_BYTES..cursor + OPENING_BYTES];
      openings := openings + [next];
      cursor := cursor + OPENING_BYTES;
    }
  }

  /** A release of this width that encodes to these bytes. */
  ghost predicate EncodesTo(x: Release, inputBits: int, raw: Bytes) {
    x.Valid() && x.InputBits() == inputBits && x.Compact() == raw
  }

  lemma EncodedWidth(raw: Bytes, inputBits: int)
    ensures forall x: Release :: EncodesTo(x, inputBits, raw) ==>
      |raw| == RELEASE_HEADER_BYTES + 2 * inputBits * OPENING_BYTES + SIGNATURE_BYTES
  {
    forall x: Release | EncodesTo(x, inputBits, raw)
      ensures |raw| == RELEASE_HEADER_BYTES + 2 * inputBits * OPENING_BYTES + SIGNATURE_BYTES
    {
      CompactLength(x);
    }
  }

  lemma EncodedOnce(raw: Bytes, inputBits: int, release: Release)
    requires EncodesTo(release, inputBits, raw)
    ensures forall x: Release :: EncodesTo(x, inputBits, raw) ==> x == release
  {
    forall x: Release | EncodesTo(x, inputBits, raw)
      ensures x == release
    {
      CompactBinds(x, release);
    }
  }

  /**
   * Exactly the strings of the right length parse, to a release that encodes back to them; so the closing
   * canonicity comparison of the original can never fail, and parsing undoes encoding.
   */
  method ParseCompact(raw: Bytes, inputBits: int) returns (r: Result<Release>)
    ensures r.Ok? <==> inputBits >= 1 && |raw| == RELEASE_HEADER_BYTES + 2 * inputBits * OPENING_BYTES + SIGNATURE_BYTES
    ensures r.Ok? ==> EncodesTo(r.value, inputBits, raw)
    ensures forall x: Release :: EncodesTo(x, inputBits, raw) ==> r == Ok(x)
  {
    EncodedWidth(raw, inputBits);
    if |raw| != RELEASE_HEADER_BYTES + 2 * inputBits * OPENING_BYTES + SIGNATURE_BYTES || inputBits < 1 {
      return Err;
    }
    var openings, cursor := ParseOpenings(raw, 2 * inputBits);
    BigEndianOfBytes(raw[32..36]);
    var release := Release(raw[0..32], FromBigEndian(raw[32..36]), raw[36..68], raw[68..100], raw[100..132],
                           raw[132..164], raw[164..196], openings, raw[cursor..cursor + SIGNATURE_BYTES]);
    HeaderCut(raw);
    assert raw == raw[..RELEASE_HEADER_BYTES] + (raw[RELEASE_HEADER_BYTES..cursor] + raw[cursor..]);
    EncodedOnce(raw, inputBits, release);
    return Ok(release);
  }

  // ---------------------------------------------------------------- reconstruction and issue

  method ReconstructRoot(h: Hash, curve: Curve, release: Release) returns (r: Result<Digest>)
    requires release.Valid()
    ensures r == release.Reconstructed(h, curve)
  {
    var decompressed := curve.decompress(release.point);
    if decompressed.Err? {
      return Err;
    }
    var p := decompressed.value;
    if curve.compress(p) != Ok(release.point) || p.Infinity? {
      return Err;
    }
    var n := release.InputBits();
    if n >= Pow256(2) {
      return Err;
    }
    ghost var x := release.Revealed(h, p);
    var pairHashes: seq<Bytes> := [];
    for i := 0 to |release.openings|
      invariant |pairHashes| == i
      invariant forall j :: 0 <= j < i ==> pairHashes[j] == x.PairHash(h, j)
    {
      CoordinateOf(i, n);
      var coordinate, bit := i / n, i % n;
      var selectedBit := Bit(if coordinate == 0 then p.x else p.y, bit);
      var selectedHash := LabelHash(h, release.context, release.slotId, coordinate, bit, release.openings[i].text);
      var zeroHash, oneHash: Digest;
      if selectedBit == 0 {
        zeroHash, oneHash := selectedHash, release.openings[i].sibling;
      } else {
        zeroHash, oneHash := release.openings[i].sibling, selectedHash;
      }
      assert x.hashPairs[i] == (zeroHash, oneHash);
      pairHashes := pairHashes + [h(PairPreimage(release.context, release.slotId, coordinate, bit, zeroHash, oneHash))];
    }
    assert pairHashes == x.PairHashes(h);
    return Ok(h(RootPreimage(release.context, release.slotId, n, SeedCommitment(h, release.seed), pairHashes)));
  }

  /** Opening i shows the pair member that the point's bit selects, and the hash of the other. */
  ghost predicate OpensPair(h: Hash, tree: Tree, p: Point, i: nat, opening: Opening)
    requires tree.Valid() && p.Affine? && i < |tree.pairs|
  {
    var bit := Selected(p, i, tree.inputBits);
    CoordinateOf(i, tree.inputBits);
    && opening.text == Choose(tree.pairs[i], bit)
    && opening.sibling
       == LabelHash(h, tree.context, tree.slotId, i / tree.inputBits, i % tree.inputBits,
                    Choose(tree.pairs[i], 1 - bit))
  }

  /** A release that opens a tree at a point: header fields, seed, and one label per bit. */
  ghost predicate Opens(h: Hash, tree: Tree, p: Point, r: Release)
    requires tree.Valid() && p.Affine? && r.Valid()
  {
    && r.context == tree.context && r.slotId == tree.slotId && r.seed == tree.seed
    && |r.openings| == |tree.pairs|
    && forall i :: 0 <= i < |tree.pairs| ==> OpensPair(h, tree, p, i, r.openings[i])
  }

  /**
   * Opening j of a tree shows the first label of pair j exactly when bit j of x is 0, and opening n + j follows bit j
   * of y in the same way; the sibling is always the hash of the other label at its own coordinate and bit.
   */
  lemma OpensByBits(h: Hash, tree: Tree, p: Point, r: Release, j: nat)
    requires tree.Valid() && p.Affine? && r.Valid() && Opens(h, tree, p, r) && j < tree.inputBits
    ensures var n := tree.inputBits;
      && (var (zero, one) := tree.pairs[j];
          r.openings[j] == if Bit(p.x, j) == 0
                           then Opening(zero, LabelHash(h, tree.context, tree.slotId, 0, j, one))
                           else Opening(one, LabelHash(h, tree.context, tree.slotId, 0, j, zero)))
      && (var (zero, one) := tree.pairs[n + j];
          r.openings[n + j] == if Bit(p.y, j) == 0
                               then Opening(zero, LabelHash(h, tree.context, tree.slotId, 1, j, one))
                               else Opening(one, LabelHash(h, tree.context, tree.slotId, 1, j, zero)))
  {
    var n := tree.inputBits;
    CoordinateOf(j, n);
    CoordinateOf(n + j, n);
    assert OpensPair(h, tree, p, j, r.openings[j]) && OpensPair(h, tree, p, n + j, r.openings[n + j]);
  }

  /** When a release is issued: the point survives a round trip and everything fits its width. */
  predicate Issuable(curve: Curve, scheme: Scheme, tree: Tree, point: Point, txid: Bytes, secret: int) {
    && curve.compress(point).Ok? && curve.Canonical(curve.compress(point).value).Ok?
    && |curve.compress(point).value| == 32 && |txid| == 32 && tree.inputBits < Pow256(2)
    && scheme.publicKey(secret).Ok? && |scheme.publicKey(secret).value| == 32
  }

  /** Signing under this secret never raises and gives 64 bytes. */
  ghost predicate SignsAll(scheme: Scheme, secret: int) {
    forall m: Bytes :: scheme.sign(m, secret).Ok? && |scheme.sign(m, secret).value| == 64
  }

  method IssueOpenings(h: Hash, tree: Tree, p: Point) returns (r: Result<seq<Opening>>)
    requires tree.Valid() && p.Affine?
    ensures tree.inputBits < Pow256(2) ==> r.Ok?
    ensures r.Ok? ==> |r.value| == |tree.pairs|
    ensures r.Ok? ==> forall i :: 0 <= i < |tree.pairs| ==> OpensPair(h, tree, p, i, r.value[i])
  {
    var openings: seq<Opening> := [];
    for i := 0 to |tree.pairs|
      invariant |openings| == i
      invariant forall j :: 0 <= j < i ==> OpensPair(h, tree, p, j, openings[j])
    {
      CoordinateOf(i, tree.inputBits);
      var coordinate, bit := i / tree.inputBits, i % tree.inputBits;
      if Fixed(bit, 2).Err? {
        return Err;
      }
      var selectedBit := Bit(if coordinate == 0 then p.x else p.y, bit);
      var selected, sibling := Choose(tree.pairs[i], selectedBit), Choose(tree.pairs[i], 1 - selectedBit);
      openings := openings + [Opening(selected, LabelHash(h, tree.context, tree.slotId, coordinate, bit, sibling))];
    }
    return Ok(openings);
  }

  /** Issue succeeds exactly when it can, opens the tree at the point, and signs the result. */
  method IssueLabelRelease(h: Hash, curve: Curve, scheme: Scheme, tree: Tree, point: Point, txid: Bytes, secret: int)
    returns (r: Result<Release>)
    requires tree.Valid()
    ensures r.Ok? ==> Issuable(curve, scheme, tree, point, txid, secret)
    ensures Issuable(curve, scheme, tree, point, txid, secret) && SignsAll(scheme, secret) ==> r.Ok?
    ensures r.Ok? ==>
      && r.value.Valid() && r.value.root == tree.root && r.value.txid == txid
      && Ok(r.value.point) == curve.compress(point) && Ok(r.value.pubkey) == scheme.publicKey(secret)
      && Opens(h, tree, curve.Canonical(r.value.point).value, r.value)
      && r.value.SigningMessage(h).Ok? && scheme.sign(r.value.SigningMessage(h).value, secret) == Ok(r.value.signature)
  {
    var compressed := curve.compress(point);
    if compressed.Err? {
      return Err;
    }
    var canonical := curve.decompress(compressed.value);
    if canonical.Err? || curve.compress(canonical.value) != Ok(compressed.value) || canonical.value.Infinity? {
      return Err;
    }
    var issued := IssueOpenings(h, tree, canonical.value);
    var key := scheme.publicKey(secret);
    if issued.Err? || key.Err? || |key.value| != 32 || |compressed.value| != 32 || |txid| != 32 {
      return Err;
    }
    var placeholder := Release(tree.context, tree.slotId, compressed.value, tree.root, tree.seed, txid, key.value,
                               issued.value, Zeros(64));
    var message := placeholder.SigningMessage(h);
    if message.Err? {
      return Err;
    }
    var signature := scheme.sign(message.value, secret);
    if signature.Err? || |signature.value| != 64 {
      return Err;
    }
    var release := placeholder.(signature := signature.value);
    assert release.Header() == placeholder.Header() && release.OpeningsPreimage() == placeholder.OpeningsPreimage();
    return Ok(release);
  }

  // ---------------------------------------------------------------- issue and reconstruction agree

  /** A release that opens a consistent tree reconstructs exactly that tree's root. */
  lemma OpeningReconstructs(h: Hash, curve: Curve, tree: Tree, r: Release)
    requires tree.Consistent(h) && r.Valid() && curve.Canonical(r.point).Ok?
    requires Opens(h, tree, curve.Canonical(r.point).value, r)
    ensures r.Reconstructed(h, curve) == Ok(tree.root)
  {
    var p := curve.Canonical(r.point).value;
    forall i | 0 <= i < |tree.pairs|
      ensures r.HashPairAt(h, p, i) == tree.HashedPair(h, i)
    {
      assert OpensPair(h, tree, p, i, r.openings[i]);
      CoordinateOf(i, tree.inputBits);
    }
    assert r.Revealed(h, p).hashPairs == tree.HashedPairs(h);
    assert r.Revealed(h, p) == tree.Committed(h);
  }

  /**
   * Without collisions the converse holds: a release that reconstructs the root of a tree carries its context,
   * slot and seed, as many openings, and at every index the label the point selects and the other one's hash.
   */
  lemma ReleaseBinding(h: Hash, curve: Curve, tree: Tree, r: Release)
    requires tree.Consistent(h) && r.Valid() && r.Reconstructed(h, curve) == Ok(tree.root)
    requires CollisionFree(h, tree.Queries(h) + r.Queries(h, curve.Canonical(r.point).value))
    ensures Opens(h, tree, curve.Canonical(r.point).value, r)
  {
    var p := curve.Canonical(r.point).value;
    var x, y := tree.Committed(h), r.Revealed(h, p);
    assert CollisionFree(h, x.Queries(h) + y.Queries(h));
    RootBinds(h, x, y);
    assert SeedPreimage(tree.seed) in tree.Queries(h) && SeedPreimage(r.seed) in r.Queries(h, p);
    SeedCommitmentBinds(h, tree.seed, r.seed);
    forall i | 0 <= i < |tree.pairs|
      ensures OpensPair(h, tree, p, i, r.openings[i])
    {
      assert x.hashPairs[i] == y.hashPairs[i];
      OpeningBinding(h, tree, p, r, i);
    }
  }

  lemma OpeningBinding(h: Hash, tree: Tree, p: Point, r: Release, i: nat)
    requires tree.Valid() && tree.inputBits < Pow256(2) && r.Valid() && p.Affine? && i < |tree.pairs| == |r.openings|
    requires r.context == tree.context && r.slotId == tree.slotId && r.HashPairAt(h, p, i) == tree.HashedPair(h, i)
    requires CollisionFree(h, tree.Queries(h) + r.Queries(h, p))
    ensures OpensPair(h, tree, p, i, r.openings[i])
  {
    var n := tree.inputBits;
    CoordinateOf(i, n);
    assert tree.LabelPreimageAt(i, tree.pairs[i].0) in tree.Queries(h);
    assert tree.LabelPreimageAt(i, tree.pairs[i].1) in tree.Queries(h);
    assert r.LabelPreimageAt(i) in r.Queries(h, p);
    var bit := Selected(p, i, n);
    LabelPreimageBinds(tree.context, tree.slotId, i / n, i % n, r.openings[i].text,
                       tree.context, tree.slotId, i / n, i % n, Choose(tree.pairs[i], bit));
  }

  /** The three together: over a consistent tree, passing the root check is opening the tree. */
  lemma RootCheckExact(h: Hash, curve: Curve, tree: Tree, r: Release)
    requires tree.Consistent(h) && r.Valid() && curve.Canonical(r.point).Ok? && r.InputBits() < Pow256(2)
    requires CollisionFree(h, tree.Queries(h) + r.Queries(h, curve.Canonical(r.point).value))
    ensures r.Reconstructed(h, curve) == Ok(tree.root) <==> Opens(h, tree, curve.Canonical(r.point).value, r)
  {
    if r.Reconstructed(h, curve) == Ok(tree.root) {
      ReleaseBinding(h, curve, tree, r);
    } else if Opens(h, tree, curve.Canonical(r.point).value, r) {
      OpeningReconstructs(h, curve, tree, r);
    }
  }

  /** The public route, over label hashes and the seed commitment alone, gives the root of the tree. */
  method PublicRoot(h: Hash, tree: Tree) returns (r: Result<Digest>)
    requires tree.Consistent(h)
    ensures r == Ok(tree.root)
  {
    r := RootFromLabelHashPairs(h, tree.context, tree.slotId, tree.inputBits, SeedCommitment(h, tree.seed),
                                tree.HashedPairs(h));
  }

  /** Two releases at one point that open the same root open it with the same seed, labels and siblings. */
  lemma ReleaseUnique(h: Hash, curve: Curve, a: Release, b: Release)
    requires a.Valid() && b.Valid() && a.point == b.point
    requires a.Reconstructed(h, curve).Ok? && a.Reconstructed(h, curve) == b.Reconstructed(h, curve)
    requires var p := curve.Canonical(a.point).value; CollisionFree(h, a.Queries(h, p) + b.Queries(h, p))
    ensures a.context == b.context && a.slotId == b.slotId && a.seed == b.seed && a.openings == b.openings
  {
    var p := curve.Canonical(a.point).value;
    var x, y := a.Revealed(h, p), b.Revealed(h, p);
    assert CollisionFree(h, x.Queries(h) + y.Queries(h));
    RootBinds(h, x, y);
    assert SeedPreimage(a.seed) in a.Queries(h, p) && SeedPreimage(b.seed) in b.Queries(h, p);
    SeedCommitmentBinds(h, a.seed, b.seed);
    forall i | 0 <= i < |a.openings|
      ensures a.openings[i] == b.openings[i]
    {
      assert x.hashPairs[i] == y.hashPairs[i];
      OpeningUnique(h, p, a, b, i);
    }
  }

  lemma OpeningUnique(h: Hash, p: Point, a: Release, b: Release, i: nat)
    requires a.Valid() && b.Valid() && p.Affine? && a.InputBits() < Pow256(2)
    requires i < |a.openings| == |b.openings| && a.context == b.context && a.slotId == b.slotId
    requires a.HashPairAt(h, p, i) == b.HashPairAt(h, p, i)
    requires CollisionFree(h, a.Queries(h, p) + b.Queries(h, p))
    ensures a.openings[i] == b.openings[i]
  {
    var n := a.InputBits();
    CoordinateOf(i, n);
    assert a.LabelPreimageAt(i) in a.Queries(h, p) && b.LabelPreimageAt(i) in b.Queries(h, p);
    LabelPreimageBinds(a.context, a.slotId, i / n, i % n, a.openings[i].text,
                       b.context, b.slotId, i / n, i % n, b.openings[i].text);
  }

  // ---------------------------------------------------------------- labels determine the point

  lemma {:induction false} BitsDetermine(a: nat, b: nat, k: nat)
    requires a < Pow2(k) && b < Pow2(k)
    requires forall j :: 0 <= j < k ==> Bit(a, j) == Bit(b, j)
    ensures a == b
  {
    if k == 0 {
    } else {
      assert Bit(a, 0) == Bit(b, 0);
      forall j | 0 <= j < k - 1
        ensures Bit(a / 2, j) == Bit(b / 2, j)
      {
        assert Bit(a, j + 1) == Bit(b, j + 1);
      }
      BitsDetermine(a / 2, b / 2, k - 1);
    }
  }

  /**
   * When the two labels of every pair differ, as in every tree made from input encodings, two releases that open
   * one tree with the same labels were made for the same point.
   */
  lemma LabelsDeterminePoint(h: Hash, tree: Tree, p: Point, p': Point, r: Release, r': Release)
    requires tree.Valid() && p.Affine? && p'.Affine? && r.Valid() && r'.Valid()
    requires forall i :: 0 <= i < |tree.pairs| ==> tree.pairs[i].0 != tree.pairs[i].1
    requires p.x < Pow2(tree.inputBits) && p.y < Pow2(tree.inputBits)
    requires p'.x < Pow2(tree.inputBits) && p'.y < Pow2(tree.inputBits)
    requires Opens(h, tree, p, r) && Opens(h, tree, p', r')
    requires forall i :: 0 <= i < |tree.pairs| ==> r.openings[i].text == r'.openings[i].text
    ensures p == p'
  {
    var n := tree.inputBits;
    forall i | 0 <= i < 2 * n
      ensures Selected(p, i, n) == Selected(p', i, n)
    {
      assert OpensPair(h, tree, p, i, r.openings[i]) && OpensPair(h, tree, p', i, r'.openings[i]);
    }
    forall j | 0 <= j < n
      ensures Bit(p.x, j) == Bit(p'.x, j) && Bit(p.y, j) == Bit(p'.y, j)
    {
      CoordinateOf(j, n);
      CoordinateOf(n + j, n);
      assert Selected(p, j, n) == Selected(p', j, n) && Selected(p, n + j, n) == Selected(p', n + j, n);
    }
    BitsDetermine(p.x, p'.x, n);
    BitsDetermine(p.y, p'.y, n);
  }
}
