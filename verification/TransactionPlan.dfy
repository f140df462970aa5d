/** The precommitted plan of ordered authorization transactions: codecs, verification and the spend chain. */
module TransactionPlan {
  import opened ByteStrings
  import opened BitcoinTransaction
  import opened Codecs

  const NO_OUTPUT := 0xFFFF_FFFF

  const TEMPLATE_BYTES := 152

  const PLAN_FIXED := 78

  datatype Continuation = Continuation(index: nat, value: nat, scriptHash: Bytes)

  /** The three continuation fields are present together or absent together by construction. */
  datatype Template = Template(
    slotId: nat, txid: Bytes, strippedDigest: Bytes, inputIndex: nat, outpoint: Bytes,
    continuation: Option<Continuation>) {
    predicate Valid() {
      && slotId < Pow256(4) && |txid| == 32 && |strippedDigest| == 32 && inputIndex < Pow256(4) && |outpoint| == 36
      && (continuation.Some? ==>
            && continuation.value.index < Pow256(4) && continuation.value.value < Pow256(8)
            && |continuation.value.scriptHash| == 32)
    }

    /** Its continuation output is not the index that stands for no output. */
    predicate Encodable() {
      continuation.Some? ==> continuation.value.index != NO_OUTPUT
    }
  }

  // ---------------------------------------------------------------- the template codec

  function EncodeContinuation(c: Option<Continuation>): Bytes {
    match c
    case None => BigEndian(NO_OUTPUT, 4) + (BigEndian(0, 8) + Zeros(32))
    case Some(k) => BigEndian(k.index, 4) + (BigEndian(k.value, 8) + k.scriptHash)
  }

  function EncodeTemplate(t: Template): Bytes {
    BigEndian(t.slotId, 4) + (t.txid + (t.strippedDigest
    + (BigEndian(t.inputIndex, 4) + (t.outpoint + EncodeContinuation(t.continuation)))))
  }

  function ParseContinuation(raw: Bytes): Result<Option<Continuation>>
    requires |raw| == 44
  {
    var index, value, scriptHash := FromBigEndian(raw[..4]), FromBigEndian(raw[4..12]), raw[12..];
    if index != NO_OUTPUT then Ok(Some(Continuation(index, value, scriptHash)))
    else if value != 0 || scriptHash != Zeros(32) then Err
    else Ok(None)
  }

  function ParseTemplate(raw: Bytes): Result<Template> {
    if |raw| != TEMPLATE_BYTES then Err
    else
      var continuation :- ParseContinuation(raw[108..]);
      var t := Template(FromBigEndian(raw[..4]), raw[4..36], raw[36..68], FromBigEndian(raw[68..72]), raw[72..108],
                        continuation);
      if !t.Valid() || EncodeTemplate(t) != raw then Err else Ok(t)
  }

  lemma ContinuationParsesBack(c: Option<Continuation>)
    requires c.Some? ==> c.value.index < Pow256(4) && c.value.value < Pow256(8) && |c.value.scriptHash| == 32
    ensures |EncodeContinuation(c)| == 44
    ensures ParseContinuation(EncodeContinuation(c)) == Ok(c) <==> (c.Some? ==> c.value.index != NO_OUTPUT)
  {
    PowersOf256();
    var k := if c.Some? then c.value else Continuation(NO_OUTPUT, 0, Zeros(32));
    var index, value := BigEndian(k.index, 4), BigEndian(k.value, 8);
    var raw := index + (value + k.scriptHash);
    assert raw[..4] == index && raw[4..12] == value && raw[12..] == k.scriptHash;
    BigEndianRoundTrip(k.index, 4);
    BigEndianRoundTrip(k.value, 8);
  }

  lemma ContinuationReadsExactly(raw: Bytes)
    requires |raw| == 44 && ParseContinuation(raw).Ok?
    ensures EncodeContinuation(ParseContinuation(raw).value) == raw
    ensures var c := ParseContinuation(raw).value;
      c.Some? ==>
        && c.value.index < Pow256(4) && c.value.index != NO_OUTPUT && c.value.value < Pow256(8)
        && |c.value.scriptHash| == 32
  {
    BigEndianOfBytes(raw[..4]);
    BigEndianOfBytes(raw[4..12]);
    assert raw == raw[..4] + (raw[4..12] + raw[12..]);
  }

  /** A valid template parses back exactly when its continuation index is not the sentinel. */
  lemma TemplateParsesBack(t: Template)
    requires t.Valid()
    ensures |EncodeTemplate(t)| == TEMPLATE_BYTES
    ensures ParseTemplate(EncodeTemplate(t)) == Ok(t) <==> t.Encodable()
  {
    var slot, input := BigEndian(t.slotId, 4), BigEndian(t.inputIndex, 4);
    var continuation := EncodeContinuation(t.continuation);
    var raw := slot + (t.txid + (t.strippedDigest + (input + (t.outpoint + continuation))));
    ContinuationParsesBack(t.continuation);
    BigEndianRoundTrip(t.slotId, 4);
    BigEndianRoundTrip(t.inputIndex, 4);
    TemplateFields(slot, t.txid, t.strippedDigest, input, t.outpoint, continuation);
    if ParseTemplate(raw) == Ok(t) {
      assert ParseContinuation(continuation) == Ok(t.continuation);
    }
  }

  lemma TemplateFields(slot: Bytes, txid: Bytes, stripped: Bytes, input: Bytes, outpoint: Bytes, continuation: Bytes)
    requires |slot| == 4 && |txid| == 32 && |stripped| == 32 && |input| == 4 && |outpoint| == 36 && |continuation| == 44
    ensures var raw := slot + (txid + (stripped + (input + (outpoint + continuation))));
      && |raw| == TEMPLATE_BYTES && raw[..4] == slot && raw[4..36] == txid && raw[36..68] == stripped
      && raw[68..72] == input && raw[72..108] == outpoint && raw[108..] == continuation
  {
  }

  /** Bytes that parse as a template are its encoding, so no template has two encodings. */
  lemma TemplateReadsExactly(raw: Bytes)
    ensures ParseTemplate(raw).Ok? <==> |raw| == TEMPLATE_BYTES && ParseContinuation(raw[108..]).Ok?
    ensures ParseTemplate(raw).Ok? ==>
      var t := ParseTemplate(raw).value;
      t.Valid() && t.Encodable() && EncodeTemplate(t) == raw
  {
    if |raw| == TEMPLATE_BYTES && ParseContinuation(raw[108..]).Ok? {
      ContinuationReadsExactly(raw[108..]);
      BigEndianOfBytes(raw[..4]);
      BigEndianOfBytes(raw[68..72]);
      SplitTemplate(raw);
    }
  }

  lemma SplitTemplate(raw: Bytes)
    requires |raw| == TEMPLATE_BYTES
    ensures raw == raw[..4] + (raw[4..36] + (raw[36..68] + (raw[68..72] + (raw[72..108] + raw[108..]))))
  {
    assert raw[72..] == raw[72..108] + raw[108..];
    assert raw[68..] == raw[68..72] + raw[72..];
    assert raw[36..] == raw[36..68] + raw[68..];
    assert raw[4..] == raw[4..36] + raw[36..];
    assert raw == raw[..4] + raw[4..];
  }

  // ---------------------------------------------------------------- the plan and its codec

  datatype Plan = Plan(genesis: Bytes, deposit: Bytes, templates: seq<Template>) {
    ghost predicate Valid() {
      && |genesis| == 32 && |deposit| == 36
      && 1 <= |templates| < 0x1_0000
      && (forall i :: 0 <= i < |templates| ==> templates[i].Valid())
      && (forall i :: 0 <= i < |templates| ==> templates[i].slotId == i)
      && templates[0].outpoint == deposit
      && Linked(templates) && templates[|templates| - 1].continuation.None? && DistinctTxids(templates)
    }

    ghost predicate Encodable() {
      forall i :: 0 <= i < |templates| ==> templates[i].Encodable()
    }
  }

  ghost predicate Linked(ts: seq<Template>) {
    forall i :: 0 < i < |ts| ==> Continues(ts[i - 1], ts[i])
  }

  ghost predicate DistinctTxids(ts: seq<Template>) {
    forall i, j :: 0 <= i < j < |ts| ==> ts[i].txid != ts[j].txid
  }

  /** The following transaction spends the continuation output of the previous one. */
  predicate Continues(previous: Template, following: Template) {
    previous.continuation.Some?
    && following.outpoint == previous.txid + LittleEndian(previous.continuation.value.index, 4)
  }

  function PlanMagic(): (m: Bytes)
    ensures |m| == 8
  {
    Ascii("RLATP251")
  }

  /** One template at the front of the unread bytes. */
  function ReadTemplate(s: Bytes): Option<(Template, Bytes)> {
    if |s| < TEMPLATE_BYTES then None
    else
      match ParseTemplate(s[..TEMPLATE_BYTES])
      case Err => None
      case Ok(t) => Some((t, s[TEMPLATE_BYTES..]))
  }

  predicate Storable(t: Template) {
    t.Valid() && t.Encodable()
  }

  function TemplateCodec(): Codec<Template> {
    Codec(ReadTemplate, EncodeTemplate, Storable)
  }

  lemma TemplateReadsBack(t: Template, rest: Bytes)
    requires Storable(t)
    ensures ReadTemplate(EncodeTemplate(t) + rest) == Some((t, rest))
  {
    TemplateParsesBack(t);
    var s := EncodeTemplate(t) + rest;
    assert s[..TEMPLATE_BYTES] == EncodeTemplate(t) && s[TEMPLATE_BYTES..] == rest;
  }

  lemma TemplateCodecLawful()
    ensures TemplateCodec().Lawful()
  {
    var c := TemplateCodec();
    forall t: Template, rest: Bytes | c.valid(t)
      ensures c.parse(c.encode(t) + rest) == Some((t, rest))
    {
      TemplateReadsBack(t, rest);
    }
    forall s: Bytes | c.parse(s).Some?
      ensures c.valid(c.parse(s).value.0) && s == c.encode(c.parse(s).value.0) + c.parse(s).value.1
    {
      TemplateReadsExactly(s[..TEMPLATE_BYTES]);
      assert s == s[..TEMPLATE_BYTES] + s[TEMPLATE_BYTES..];
    }
  }

  function EncodePlan(p: Plan): Bytes {
    PlanMagic() + (p.genesis + (p.deposit + (BigEndian(|p.templates|, 2) + EncodeMany(TemplateCodec(), p.templates))))
  }

  ghost function ParsePlan(raw: Bytes): Result<Plan> {
    if |raw| < PLAN_FIXED || raw[..8] != PlanMagic() then Err
    else
      var count := FromBigEndian(raw[76..78]);
      if |raw| != PLAN_FIXED + count * TEMPLATE_BYTES then Err
      else
        match ParseMany(TemplateCodec(), count, raw[PLAN_FIXED..])
        case None => Err
        case Some((templates, _)) =>
          var p := Plan(raw[8..40], raw[40..76], templates);
          if !p.Valid() || EncodePlan(p) != raw then Err else Ok(p)
  }

  lemma {:induction false} EncodedTemplatesLength(ts: seq<Template>)
    requires forall i :: 0 <= i < |ts| ==> ts[i].Valid()
    ensures |EncodeMany(TemplateCodec(), ts)| == |ts| * TEMPLATE_BYTES
  {
    if ts == [] {
    } else {
      TemplateParsesBack(ts[0]);
      EncodedTemplatesLength(ts[1..]);
    }
  }

  lemma PlanFields(genesis: Bytes, deposit: Bytes, count: Bytes, body: Bytes)
    requires |genesis| == 32 && |deposit| == 36 && |count| == 2
    ensures var raw := PlanMagic() + (genesis + (deposit + (count + body)));
      && |raw| == PLAN_FIXED + |body| && raw[..8] == PlanMagic() && raw[8..40] == genesis && raw[40..76] == deposit
      && raw[76..78] == count && raw[78..] == body
  {
    var magic := PlanMagic();
    var raw := magic + (genesis + (deposit + (count + body)));
    assert raw[..8] == magic;
  }

  /** A valid plan parses back exactly when none of its templates continues through the sentinel index. */
  lemma PlanParsesBack(p: Plan)
    requires p.Valid()
    ensures ParsePlan(EncodePlan(p)) == Ok(p) <==> p.Encodable()
  {
    var raw, body := EncodePlan(p), EncodeMany(TemplateCodec(), p.templates);
    PowersOf256();
    BigEndianRoundTrip(|p.templates|, 2);
    EncodedTemplatesLength(p.templates);
    PlanFields(p.genesis, p.deposit, BigEndian(|p.templates|, 2), body);
    if p.Encodable() {
      TemplateCodecLawful();
      ManyParseBack(TemplateCodec(), p.templates, []);
      assert body + [] == body;
    } else if ParsePlan(raw) == Ok(p) {
      PlanReadsExactly(raw);
    }
  }

  /** Bytes that parse as a plan are its encoding, so encodings of plans are unique. */
  lemma PlanReadsExactly(raw: Bytes)
    requires ParsePlan(raw).Ok?
    ensures ParsePlan(raw).value.Valid() && ParsePlan(raw).value.Encodable() && EncodePlan(ParsePlan(raw).value) == raw
  {
    TemplateCodecLawful();
    ManyReadExactly(TemplateCodec(), FromBigEndian(raw[76..78]), raw[PLAN_FIXED..]);
  }

  ghost function PlanPreimage(p: Plan): Bytes {
    Ascii("ranklock/authorization-transaction-plan/v1") + [0] + EncodePlan(p)
  }

  /** The digest placed in the evaluation context names one plan. */
  lemma PlanDigestBinds(h: Hash, p: Plan, r: Plan)
    requires p.Valid() && r.Valid() && p.Encodable() && r.Encodable()
    requires CollisionFree(h, {PlanPreimage(p), PlanPreimage(r)}) && h(PlanPreimage(p)) == h(PlanPreimage(r))
    ensures p == r
  {
    assert PlanPreimage(p) == PlanPreimage(r);
    var dom := Ascii("ranklock/authorization-transaction-plan/v1") + [0];
    SplitEqual(dom, EncodePlan(p), dom, EncodePlan(r));
    PlanParsesBack(p);
    PlanParsesBack(r);
  }

  // ---------------------------------------------------------------- committing transactions

  function StrippedPreimage(t: Transaction): Bytes {
    Ascii("ranklock/authorization-stripped-transaction/v1") + [0] + Stripped(t)
  }

  function HashStripped(h: Hash, t: Transaction): Digest {
    h(StrippedPreimage(t))
  }

  function ContinuationOf(h: Hash, outputs: seq<Output>, index: Option<int>): Result<Option<Continuation>> {
    match index
    case None => Ok(None)
    case Some(i) =>
      if !(0 <= i < |outputs|) then Err else Ok(Some(Continuation(i, outputs[i].value, h(outputs[i].script))))
  }

  function FromRawTransaction(
    h: Hash, raw: Bytes, slotId: nat, inputIndex: int, continuationIndex: Option<int>): Result<Template>
  {
    match ParseTransaction(raw)
    case None => Err
    case Some(t) => FromView(h, ViewOf(h, t), slotId, inputIndex, continuationIndex)
  }

  /** What a template takes from a parsed transaction: the id as inputs carry it on the wire, and the fields. */
  datatype View = View(wireId: Digest, strippedDigest: Digest, inputs: seq<Input>, outputs: seq<Output>)

  function ViewOf(h: Hash, t: Transaction): View {
    View(DoubleHash(h, Stripped(t)), HashStripped(h, t), t.inputs, t.outputs)
  }

  function FromView(
    h: Hash, v: View, slotId: nat, inputIndex: int, continuationIndex: Option<int>): Result<Template>
  {
    if !(0 <= inputIndex < |v.inputs|) then Err
    else
      var continuation :- ContinuationOf(h, v.outputs, continuationIndex);
      var template := Template(slotId, Reversed(v.wireId), v.strippedDigest, inputIndex,
                               Outpoint(v.inputs[inputIndex]), continuation);
      if template.Valid() then Ok(template) else Err
  }

  function TemplateAccepts(h: Hash, template: Template, t: Transaction): bool {
    && template.inputIndex < |t.inputs|
    && Txid(h, t) == template.txid && HashStripped(h, t) == template.strippedDigest
    && Outpoint(t.inputs[template.inputIndex]) == template.outpoint
    && (template.continuation.Some? ==>
          var k := template.continuation.value;
          k.index < |t.outputs| && t.outputs[k.index].value == k.value && h(t.outputs[k.index].script) == k.scriptHash)
  }

  predicate VerifyRawTransaction(h: Hash, template: Template, raw: Bytes) {
    match ParseTransaction(raw)
    case None => false
    case Some(t) => TemplateAccepts(h, template, t)
  }

  predicate VerifyTransactions(h: Hash, p: Plan, raws: seq<Bytes>) {
    |raws| == |p.templates| && forall i :: 0 <= i < |raws| ==> VerifyRawTransaction(h, p.templates[i], raws[i])
  }

  /** Only the last of n transactions has no continuation. */
  function ContinuationFor(i: nat, n: nat, continuationIndex: int): Option<int> {
    if i + 1 < n then Some(continuationIndex) else None
  }

  /** The values of a list of results, or the failure of any of them. */
  function Collect<T>(rs: seq<Result<T>>): Result<seq<T>> {
    if rs == [] then Ok([])
    else
      var first :- rs[0];
      var rest :- Collect(rs[1..]);
      Ok([first] + rest)
  }

  lemma {:induction false} CollectExactly<T>(rs: seq<Result<T>>)
    ensures Collect(rs).Ok? <==> forall i :: 0 <= i < |rs| ==> rs[i].Ok?
    ensures Collect(rs).Ok? ==>
      |Collect(rs).value| == |rs| && forall i :: 0 <= i < |rs| ==> rs[i] == Ok(Collect(rs).value[i])
  {
    if rs == [] {
    } else {
      CollectExactly(rs[1..]);
      assert forall i :: 1 <= i < |rs| ==> rs[i] == rs[1..][i - 1];
      assert forall i :: 0 <= i < |rs[1..]| ==> rs[1..][i] == rs[i + 1];
    }
  }

  function TemplateResults(
    h: Hash, raws: seq<Bytes>, inputIndex: int, continuationIndex: int): (rs: seq<Result<Template>>)
    ensures |rs| == |raws|
  {
    seq(|raws|, i requires 0 <= i < |raws| =>
      FromRawTransaction(h, raws[i], i, inputIndex, ContinuationFor(i, |raws|, continuationIndex)))
  }

  ghost function BuildPlan(
    h: Hash, genesis: Bytes, deposit: Bytes, raws: seq<Bytes>, inputIndex: int, continuationIndex: int): Result<Plan>
  {
    if raws == [] then Err
    else
      var templates :- Collect(TemplateResults(h, raws, inputIndex, continuationIndex));
      var p := Plan(genesis, deposit, templates);
      if p.Valid() then Ok(p) else Err
  }

  /** A template built from a transaction accepts that transaction. */
  lemma BuiltTemplateAccepts(h: Hash, raw: Bytes, slotId: nat, inputIndex: int, continuationIndex: Option<int>)
    requires FromRawTransaction(h, raw, slotId, inputIndex, continuationIndex).Ok?
    ensures VerifyRawTransaction(h, FromRawTransaction(h, raw, slotId, inputIndex, continuationIndex).value, raw)
  {
  }

  /**
   * Whatever a template decides about one transaction it decides about every transaction with the same stripped
   * bytes.
   */
  lemma StrippedDecides(h: Hash, template: Template, raw: Bytes, other: Bytes)
    requires ParseTransaction(raw).Some? && ParseTransaction(other).Some?
    requires Stripped(ParseTransaction(raw).value) == Stripped(ParseTransaction(other).value)
    ensures VerifyRawTransaction(h, template, raw) == VerifyRawTransaction(h, template, other)
  {
    ParsedIsValid(raw);
    ParsedIsValid(other);
    AcceptsByStripped(h, template, ParseTransaction(raw).value, ParseTransaction(other).value);
  }

  lemma AcceptsByStripped(h: Hash, template: Template, t: Transaction, u: Transaction)
    requires ValidTransaction(t) && ValidTransaction(u) && Stripped(t) == Stripped(u)
    ensures TemplateAccepts(h, template, t) == TemplateAccepts(h, template, u)
  {
    StrippedDetermines(t, u);
  }

  ghost predicate SameStripped(raws: seq<Bytes>, others: seq<Bytes>) {
    |raws| == |others| && forall i :: 0 <= i < |raws| ==>
      && ParseTransaction(raws[i]).Some? && ParseTransaction(others[i]).Some?
      && Stripped(ParseTransaction(raws[i]).value) == Stripped(ParseTransaction(others[i]).value)
  }

  ghost function StrippedQueries(raws: seq<Bytes>): set<Bytes> {
    set i | 0 <= i < |raws| && ParseTransaction(raws[i]).Some? :: StrippedPreimage(ParseTransaction(raws[i]).value)
  }

  /** A list with the stripped bytes of an accepted one is accepted. */
  lemma SameStrippedAccepted(h: Hash, p: Plan, raws: seq<Bytes>, others: seq<Bytes>)
    requires VerifyTransactions(h, p, raws) && SameStripped(raws, others)
    ensures VerifyTransactions(h, p, others)
  {
    forall i | 0 <= i < |raws|
      ensures VerifyRawTransaction(h, p.templates[i], others[i])
    {
      StrippedDecides(h, p.templates[i], raws[i], others[i]);
    }
  }

  /** Without collisions, two lists that one plan accepts have the same stripped bytes. */
  lemma AcceptedAreSameStripped(h: Hash, p: Plan, raws: seq<Bytes>, others: seq<Bytes>)
    requires VerifyTransactions(h, p, raws) && VerifyTransactions(h, p, others)
    requires CollisionFree(h, StrippedQueries(raws) + StrippedQueries(others))
    ensures SameStripped(raws, others)
  {
    forall i | 0 <= i < |raws|
      ensures ParseTransaction(raws[i]).Some? && ParseTransaction(others[i]).Some?
      ensures Stripped(ParseTransaction(raws[i]).value) == Stripped(ParseTransaction(others[i]).value)
    {
      assert VerifyRawTransaction(h, p.templates[i], raws[i]) && VerifyRawTransaction(h, p.templates[i], others[i]);
      SameDigestSameStripped(h, raws, others, i);
    }
  }

  /**
   * A built plan accepts the transactions it was built from and every list with the same stripped bytes;
   * without collisions it accepts nothing else.
   */
  lemma PlanAcceptsExactly(
    h: Hash, genesis: Bytes, deposit: Bytes, raws: seq<Bytes>, inputIndex: int, continuationIndex: int,
    others: seq<Bytes>)
    requires BuildPlan(h, genesis, deposit, raws, inputIndex, continuationIndex).Ok?
    requires CollisionFree(h, StrippedQueries(raws) + StrippedQueries(others))
    ensures var p := BuildPlan(h, genesis, deposit, raws, inputIndex, continuationIndex).value;
      VerifyTransactions(h, p, raws) && (VerifyTransactions(h, p, others) <==> SameStripped(raws, others))
  {
    var p := BuildPlan(h, genesis, deposit, raws, inputIndex, continuationIndex).value;
    BuiltPlanAccepts(h, genesis, deposit, raws, inputIndex, continuationIndex);
    if SameStripped(raws, others) { SameStrippedAccepted(h, p, raws, others); }
    if VerifyTransactions(h, p, others) { AcceptedAreSameStripped(h, p, raws, others); }
  }

  lemma BuiltPlanAccepts(
    h: Hash, genesis: Bytes, deposit: Bytes, raws: seq<Bytes>, inputIndex: int, continuationIndex: int)
    requires BuildPlan(h, genesis, deposit, raws, inputIndex, continuationIndex).Ok?
    ensures VerifyTransactions(h, BuildPlan(h, genesis, deposit, raws, inputIndex, continuationIndex).value, raws)
  {
    var rs := TemplateResults(h, raws, inputIndex, continuationIndex);
    CollectExactly(rs);
    var ts := Collect(rs).value;
    forall i | 0 <= i < |raws|
      ensures VerifyRawTransaction(h, ts[i], raws[i])
    {
      assert rs[i] == Ok(ts[i]);
      BuiltTemplateAccepts(h, raws[i], i, inputIndex, ContinuationFor(i, |raws|, continuationIndex));
    }
  }

  lemma SameDigestSameStripped(h: Hash, raws: seq<Bytes>, others: seq<Bytes>, i: nat)
    requires i < |raws| == |others| && ParseTransaction(raws[i]).Some? && ParseTransaction(others[i]).Some?
    requires CollisionFree(h, StrippedQueries(raws) + StrippedQueries(others))
    requires HashStripped(h, ParseTransaction(raws[i]).value) == HashStripped(h, ParseTransaction(others[i]).value)
    ensures Stripped(ParseTransaction(raws[i]).value) == Stripped(ParseTransaction(others[i]).value)
  {
    var t, u := ParseTransaction(raws[i]).value, ParseTransaction(others[i]).value;
    assert StrippedPreimage(t) in StrippedQueries(raws) && StrippedPreimage(u) in StrippedQueries(others);
    var dom := Ascii("ranklock/authorization-stripped-transaction/v1") + [0];
    SplitEqual(dom, Stripped(t), dom, Stripped(u));
  }

  /** The input names the outpoint on the wire: the id bytes reversed, then the index. */
  ghost predicate SpendsOutpoint(i: Input, outpoint: Bytes) {
    |outpoint| == 36 && i.previousTxid == Reversed(outpoint[..32]) && i.vout == outpoint[32..]
  }

  lemma OutpointMatches(i: Input, outpoint: Bytes)
    requires |i.previousTxid| == 32 && |i.vout| == 4
    ensures Outpoint(i) == outpoint <==> SpendsOutpoint(i, outpoint)
  {
    if Outpoint(i) == outpoint {
      assert outpoint[..32] == Reversed(i.previousTxid) && outpoint[32..] == i.vout;
    }
  }

  /**
   * On the wire, each transaction spends at its committed input the deposit or an existing output of its
   * predecessor.
   */
  ghost predicate SpendChain(h: Hash, p: Plan, txs: seq<Transaction>)
    requires p.Valid() && |txs| == |p.templates|
  {
    && p.templates[0].inputIndex < |txs[0].inputs|
    && SpendsOutpoint(txs[0].inputs[p.templates[0].inputIndex], p.deposit)
    && forall i :: 0 <= i < |txs| - 1 ==> Spends(h, p.templates[i], txs[i], p.templates[i + 1], txs[i + 1])
  }

  /**
   * The committed input of the second transaction spends the committed output of the first, which exists and has the
   * committed value and script.
   */
  ghost predicate Spends(h: Hash, previous: Template, t: Transaction, following: Template, u: Transaction) {
    && previous.continuation.Some? && previous.continuation.value.index < |t.outputs|
    && (var output := t.outputs[previous.continuation.value.index];
        output.value == previous.continuation.value.value && h(output.script) == previous.continuation.value.scriptHash)
    && following.inputIndex < |u.inputs|
    && SpendsOutput(h, u.inputs[following.inputIndex], t, previous.continuation.value.index)
  }

  ghost predicate AllParse(raws: seq<Bytes>) {
    forall i :: 0 <= i < |raws| ==> ParseTransaction(raws[i]).Some?
  }

  ghost function Parsed(raws: seq<Bytes>): (txs: seq<Transaction>)
    requires AllParse(raws)
    ensures |txs| == |raws| && AllValidTransactions(txs)
    ensures forall i :: 0 <= i < |raws| ==> Some(txs[i]) == ParseTransaction(raws[i])
  {
    forall i | 0 <= i < |raws|
      ensures ValidTransaction(ParseTransaction(raws[i]).value)
    {
      ParsedIsValid(raws[i]);
    }
    seq(|raws|, i requires 0 <= i < |raws| => ParseTransaction(raws[i]).value)
  }

  ghost predicate AllValidTransactions(txs: seq<Transaction>) {
    forall i :: 0 <= i < |txs| ==> ValidTransaction(txs[i])
  }

  ghost predicate AcceptsAll(h: Hash, p: Plan, txs: seq<Transaction>) {
    |txs| == |p.templates| && forall i :: 0 <= i < |txs| ==> TemplateAccepts(h, p.templates[i], txs[i])
  }

  lemma AcceptedParse(h: Hash, p: Plan, raws: seq<Bytes>)
    requires VerifyTransactions(h, p, raws)
    ensures AllParse(raws) && AcceptsAll(h, p, Parsed(raws))
  {
    forall i | 0 <= i < |raws|
      ensures ParseTransaction(raws[i]).Some? && TemplateAccepts(h, p.templates[i], ParseTransaction(raws[i]).value)
    {
      assert VerifyRawTransaction(h, p.templates[i], raws[i]);
    }
  }

  lemma AcceptedTransactionsChain(h: Hash, p: Plan, txs: seq<Transaction>)
    requires p.Valid() && AcceptsAll(h, p, txs) && AllValidTransactions(txs)
    ensures SpendChain(h, p, txs)
  {
    var first := p.templates[0].inputIndex;
    assert TemplateAccepts(h, p.templates[0], txs[0]);
    InputWidths(txs[0], first);
    OutpointMatches(txs[0].inputs[first], p.deposit);
    forall i | 0 <= i < |txs| - 1
      ensures Spends(h, p.templates[i], txs[i], p.templates[i + 1], txs[i + 1])
    {
      ChainLink(h, p.templates[i], p.templates[i + 1], txs[i], txs[i + 1]);
    }
  }

  /**
   * Every accepted list, whatever plan accepts it, is one chain of spends from the deposit to the terminal
   * transaction.
   */
  lemma AcceptedListIsChain(h: Hash, p: Plan, raws: seq<Bytes>)
    requires p.Valid() && VerifyTransactions(h, p, raws)
    ensures AllParse(raws) && SpendChain(h, p, Parsed(raws))
  {
    AcceptedParse(h, p, raws);
    AcceptedTransactionsChain(h, p, Parsed(raws));
  }

  lemma ChainLink(h: Hash, previous: Template, following: Template, t: Transaction, u: Transaction)
    requires Continues(previous, following) && TemplateAccepts(h, previous, t) && TemplateAccepts(h, following, u)
    requires ValidTransaction(u)
    ensures Spends(h, previous, t, following, u)
  {
    InputWidths(u, following.inputIndex);
    OutpointNamesOutput(h, u.inputs[following.inputIndex], t, previous.continuation.value.index);
  }

  // ---------------------------------------------------------------- exactly when a plan can be built

  /** The template records this transaction: both hashes, the outpoint of its input and its continuation output. */
  ghost predicate Records(h: Hash, template: Template, v: View, slotId: nat, input: int, output: Option<int>) {
    && template.slotId == slotId && template.inputIndex == input
    && template.txid == Reversed(v.wireId) && template.strippedDigest == v.strippedDigest
    && 0 <= input < |v.inputs| && template.outpoint == Outpoint(v.inputs[input])
    && (output.None? ==> template.continuation.None?)
    && (output.Some? ==>
          && 0 <= output.value < |v.outputs|
          && template.continuation
             == Some(Continuation(output.value, v.outputs[output.value].value, h(v.outputs[output.value].script))))
  }

  /** The widths that parsing guarantees. */
  ghost predicate Sized(v: View) {
    && |v.inputs| < Pow256(4) && |v.outputs| < Pow256(4)
    && (forall k :: 0 <= k < |v.inputs| ==> |v.inputs[k].previousTxid| == 32 && |v.inputs[k].vout| == 4)
    && forall k :: 0 <= k < |v.outputs| ==> v.outputs[k].value < Pow256(8)
  }

  lemma ValidIsSized(h: Hash, t: Transaction)
    requires ValidTransaction(t)
    ensures Sized(ViewOf(h, t))
  {
    PowersOf256();
    ItemCounts(t);
    forall k | 0 <= k < |t.inputs|
      ensures |t.inputs[k].previousTxid| == 32 && |t.inputs[k].vout| == 4
    {
      InputWidths(t, k);
    }
    forall k | 0 <= k < |t.outputs|
      ensures t.outputs[k].value < Pow256(8)
    {
      OutputFits(t, k);
    }
  }

  /** Building succeeds exactly when the named input and output exist, and then records the transaction. */
  ghost predicate BuiltFrom(h: Hash, built: Result<Template>, v: View, slotId: nat, input: int, output: Option<int>) {
    && (built.Ok? <==> 0 <= input < |v.inputs| && (output.Some? ==> 0 <= output.value < |v.outputs|))
    && (built.Ok? ==> built.value.Valid() && Records(h, built.value, v, slotId, input, output))
  }

  lemma TemplateBuilt(h: Hash, v: View, slotId: nat, input: int, output: Option<int>)
    requires slotId < Pow256(2) && Sized(v)
    ensures BuiltFrom(h, FromView(h, v, slotId, input, output), v, slotId, input, output)
  {
    PowersOf256();
  }

  /** Every transaction has the authorization input, and every one but the last the continuation output. */
  ghost predicate HasIndices(vs: seq<View>, input: int, output: int) {
    && (forall i :: 0 <= i < |vs| ==> 0 <= input < |vs[i].inputs|)
    && forall i :: 0 <= i < |vs| - 1 ==> 0 <= output < |vs[i].outputs|
  }

  ghost predicate RecordsAll(h: Hash, ts: seq<Template>, vs: seq<View>, input: int, output: int) {
    |ts| == |vs| && forall i :: 0 <= i < |ts| ==>
      ts[i].Valid() && Records(h, ts[i], vs[i], i, input, ContinuationFor(i, |ts|, output))
  }

  ghost predicate AllBuiltFrom(h: Hash, rs: seq<Result<Template>>, vs: seq<View>, input: int, output: int) {
    |rs| == |vs| && forall i :: 0 <= i < |rs| ==>
      BuiltFrom(h, rs[i], vs[i], i, input, ContinuationFor(i, |rs|, output))
  }

  lemma CollectBuilt(h: Hash, rs: seq<Result<Template>>, vs: seq<View>, input: int, output: int)
    requires AllBuiltFrom(h, rs, vs, input, output)
    ensures Collect(rs).Ok? <==> HasIndices(vs, input, output)
    ensures Collect(rs).Ok? ==> RecordsAll(h, Collect(rs).value, vs, input, output)
  {
    CollectExactly(rs);
    forall i | 0 <= i < |rs|
      ensures rs[i].Ok? <==> 0 <= input < |vs[i].inputs| && (i + 1 < |vs| ==> 0 <= output < |vs[i].outputs|)
    {
      assert BuiltFrom(h, rs[i], vs[i], i, input, ContinuationFor(i, |rs|, output));
    }
    if Collect(rs).Ok? {
      var ts := Collect(rs).value;
      forall i | 0 <= i < |ts|
        ensures ts[i].Valid() && Records(h, ts[i], vs[i], i, input, ContinuationFor(i, |ts|, output))
      {
        assert rs[i] == Ok(ts[i]) && BuiltFrom(h, rs[i], vs[i], i, input, ContinuationFor(i, |rs|, output));
      }
    }
  }

  ghost predicate LinkedOnWire(vs: seq<View>, input: int, output: int)
    requires HasIndices(vs, input, output)
  {
    forall i :: 0 < i < |vs| ==> SpendsNext(vs[i - 1], vs[i], input, output)
  }

  ghost predicate SpendsNext(previous: View, following: View, input: int, output: int) {
    0 <= input < |following.inputs| && 0 <= output && Carries(following.inputs[input], previous.wireId, output)
  }

  ghost predicate DistinctIds(vs: seq<View>) {
    forall i, j :: 0 <= i < j < |vs| ==> vs[i].wireId != vs[j].wireId
  }

  /**
   * On the wire: the first transaction spends the deposit, the input of each next one carries the double hash of its
   * predecessor and the continuation index, and no two have one double hash.
   */
  ghost predicate WireChain(deposit: Bytes, vs: seq<View>, input: int, output: int)
    requires vs != [] && HasIndices(vs, input, output)
  {
    SpendsOutpoint(vs[0].inputs[input], deposit) && LinkedOnWire(vs, input, output) && DistinctIds(vs)
  }

  /** The plan's own chain condition on its templates is the wire condition on their transactions. */
  lemma LinksExactly(h: Hash, ts: seq<Template>, vs: seq<View>, input: int, output: int)
    requires HasIndices(vs, input, output) && RecordsAll(h, ts, vs, input, output)
    requires forall i :: 0 <= i < |vs| ==> Sized(vs[i])
    ensures Linked(ts) <==> LinkedOnWire(vs, input, output)
  {
    forall i | 0 < i < |ts|
      ensures Continues(ts[i - 1], ts[i]) <==> SpendsNext(vs[i - 1], vs[i], input, output)
    {
      assert Records(h, ts[i - 1], vs[i - 1], i - 1, input, Some(output));
      assert Records(h, ts[i], vs[i], i, input, ContinuationFor(i, |ts|, output));
      assert Sized(vs[i]);
      OutpointCarries(vs[i].inputs[input], vs[i - 1].wireId, output);
    }
  }

  lemma IdsExactly(h: Hash, ts: seq<Template>, vs: seq<View>, input: int, output: int)
    requires RecordsAll(h, ts, vs, input, output)
    ensures DistinctTxids(ts) <==> DistinctIds(vs)
  {
    forall i, j | 0 <= i < j < |ts|
      ensures ts[i].txid == ts[j].txid <==> vs[i].wireId == vs[j].wireId
    {
      if ts[i].txid == ts[j].txid {
        ReversedInjective(vs[i].wireId, vs[j].wireId);
      }
    }
  }

  lemma PlanValidExactly(
    h: Hash, genesis: Bytes, deposit: Bytes, ts: seq<Template>, vs: seq<View>, input: int, output: int)
    requires 0 < |vs| < Pow256(2) && (forall i :: 0 <= i < |vs| ==> Sized(vs[i]))
    requires HasIndices(vs, input, output) && RecordsAll(h, ts, vs, input, output)
    ensures Plan(genesis, deposit, ts).Valid() <==> |genesis| == 32 && WireChain(deposit, vs, input, output)
  {
    PowersOf256();
    assert Sized(vs[0]) && Records(h, ts[0], vs[0], 0, input, ContinuationFor(0, |ts|, output));
    OutpointMatches(vs[0].inputs[input], deposit);
    var last := |ts| - 1;
    assert Records(h, ts[last], vs[last], last, input, ContinuationFor(last, |ts|, output));
    LinksExactly(h, ts, vs, input, output);
    IdsExactly(h, ts, vs, input, output);
  }

  ghost function ViewsOf(h: Hash, raws: seq<Bytes>): (vs: seq<View>)
    requires AllParse(raws)
    ensures |vs| == |raws|
  {
    seq(|raws|, i requires 0 <= i < |raws| => ViewOf(h, ParseTransaction(raws[i]).value))
  }

  lemma TemplatesBuilt(h: Hash, raws: seq<Bytes>, input: int, output: int)
    requires |raws| < Pow256(2) && AllParse(raws)
    ensures forall i :: 0 <= i < |raws| ==> Sized(ViewsOf(h, raws)[i])
    ensures AllBuiltFrom(h, TemplateResults(h, raws, input, output), ViewsOf(h, raws), input, output)
  {
    var rs, vs := TemplateResults(h, raws, input, output), ViewsOf(h, raws);
    forall i | 0 <= i < |raws|
      ensures Sized(vs[i]) && BuiltFrom(h, rs[i], vs[i], i, input, ContinuationFor(i, |rs|, output))
    {
      ParsedIsValid(raws[i]);
      ValidIsSized(h, ParseTransaction(raws[i]).value);
      TemplateBuilt(h, vs[i], i, input, ContinuationFor(i, |raws|, output));
    }
  }

  lemma UnparsedFails(h: Hash, raws: seq<Bytes>, input: int, output: int)
    requires raws != [] && Collect(TemplateResults(h, raws, input, output)).Ok?
    ensures AllParse(raws) && |Collect(TemplateResults(h, raws, input, output)).value| == |raws|
  {
    var rs := TemplateResults(h, raws, input, output);
    CollectExactly(rs);
    forall i | 0 <= i < |raws|
      ensures ParseTransaction(raws[i]).Some?
    {
      assert rs[i].Ok?;
    }
  }

  /**
   * A plan is built exactly from one to 65535 transactions that parse, have the named input and output, and form a
   * chain on the wire from the deposit on. It holds the given genesis hash and deposit and records them in order.
   */
  lemma BuildsExactly(h: Hash, genesis: Bytes, deposit: Bytes, raws: seq<Bytes>, input: int, output: int)
    ensures BuildPlan(h, genesis, deposit, raws, input, output).Ok?
      <==> && 0 < |raws| < 0x1_0000 && |genesis| == 32 && AllParse(raws)
           && HasIndices(ViewsOf(h, raws), input, output) && WireChain(deposit, ViewsOf(h, raws), input, output)
    ensures var p := BuildPlan(h, genesis, deposit, raws, input, output);
      p.Ok? ==>
        && p.value.genesis == genesis && p.value.deposit == deposit
        && AllParse(raws) && RecordsAll(h, p.value.templates, ViewsOf(h, raws), input, output)
  {
    PowersOf256();
    var rs := TemplateResults(h, raws, input, output);
    if raws != [] && Collect(rs).Ok? {
      UnparsedFails(h, raws, input, output);
    }
    if 0 < |raws| < 0x1_0000 && AllParse(raws) {
      TemplatesBuilt(h, raws, input, output);
      CollectBuilt(h, rs, ViewsOf(h, raws), input, output);
      if Collect(rs).Ok? {
        PlanValidExactly(h, genesis, deposit, Collect(rs).value, ViewsOf(h, raws), input, output);
      }
    }
  }
}
