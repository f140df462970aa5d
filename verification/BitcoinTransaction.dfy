/** The strict Bitcoin transaction parser: exact inverse of serialization, with witness-independent identifiers. */
module BitcoinTransaction {
  import opened ByteStrings
  import opened Codecs

  const MAX_ITEMS := 1_000_000

  const MAX_BYTES := 4_000_000

  /** The previous transaction id and output index as they stand on the wire, script and sequence. */
  datatype Input = Input(previousTxid: Bytes, vout: Bytes, script: Bytes, sequence: Bytes)

  datatype Output = Output(value: nat, script: Bytes)

  type Stack = seq<Bytes>

  /** One stack per input when the serialization carries witnesses. */
  datatype Transaction = Transaction(
    version: Bytes, inputs: seq<Input>, outputs: seq<Output>, stacks: Option<seq<Stack>>, lockTime: Bytes)

  // ---------------------------------------------------------------- fields

  type InputTuple = (Bytes, (Bytes, (Bytes, Bytes)))

  function InputFields(): Codec<InputTuple> {
    Pair(FixedBytes(32), Pair(FixedBytes(4), Pair(VarBytes(MAX_BYTES), FixedBytes(4))))
  }

  function ToInput(p: InputTuple): Input { Input(p.0, p.1.0, p.1.1.0, p.1.1.1) }

  function FromInput(i: Input): InputTuple { (i.previousTxid, (i.vout, (i.script, i.sequence))) }

  function OutputFields(): Codec<(nat, Bytes)> { Pair(Uint(8), VarBytes(MAX_BYTES)) }

  function ToOutput(p: (nat, Bytes)): Output { Output(p.0, p.1) }

  function FromOutput(o: Output): (nat, Bytes) { (o.value, o.script) }

  function InputCodec(): Codec<Input> { Mapped(InputFields(), ToInput, FromInput) }

  function OutputCodec(): Codec<Output> { Mapped(OutputFields(), ToOutput, FromOutput) }

  function InputsCodec(): Codec<seq<Input>> { Counted(InputCodec(), MAX_ITEMS) }

  function OutputsCodec(): Codec<seq<Output>> { Counted(OutputCodec(), MAX_ITEMS) }

  function StackCodec(): Codec<Stack> { Counted(VarBytes(MAX_BYTES), MAX_ITEMS) }

  lemma InputCodecLawful()
    ensures InputCodec().Lawful()
  {
    FixedBytesLawful(4);
    FixedBytesLawful(32);
    VarBytesLawful(MAX_BYTES);
    PairLawful(VarBytes(MAX_BYTES), FixedBytes(4));
    PairLawful(FixedBytes(4), Pair(VarBytes(MAX_BYTES), FixedBytes(4)));
    PairLawful(FixedBytes(32), Pair(FixedBytes(4), Pair(VarBytes(MAX_BYTES), FixedBytes(4))));
    MappedLawful(InputFields(), ToInput, FromInput);
  }

  lemma OutputCodecLawful()
    ensures OutputCodec().Lawful()
  {
    UintLawful(8);
    VarBytesLawful(MAX_BYTES);
    PairLawful(Uint(8), VarBytes(MAX_BYTES));
    MappedLawful(OutputFields(), ToOutput, FromOutput);
  }

  lemma CodecsLawful()
    ensures InputsCodec().Lawful() && OutputsCodec().Lawful() && StackCodec().Lawful()
  {
    InputCodecLawful();
    OutputCodecLawful();
    VarBytesLawful(MAX_BYTES);
    CountedLawful(InputCodec(), MAX_ITEMS);
    CountedLawful(OutputCodec(), MAX_ITEMS);
    CountedLawful(VarBytes(MAX_BYTES), MAX_ITEMS);
  }

  // ---------------------------------------------------------------- serialization

  /** Inputs and outputs: what every serialization of a transaction shares besides version and lock time. */
  function EncodeCore(t: Transaction): Bytes {
    InputsCodec().encode(t.inputs) + OutputsCodec().encode(t.outputs)
  }

  function EncodeStacks(t: Transaction): Bytes {
    if t.stacks.Some? then EncodeMany(StackCodec(), t.stacks.value) else []
  }

  function MarkerFlag(t: Transaction): Bytes {
    if t.stacks.Some? then [0, 1] else []
  }

  /** The serialization that identifiers are computed from: no marker, no witnesses. */
  function Stripped(t: Transaction): Bytes {
    t.version + (EncodeCore(t) + t.lockTime)
  }

  function Encode(t: Transaction): Bytes {
    t.version + (MarkerFlag(t) + (EncodeCore(t) + (EncodeStacks(t) + t.lockTime)))
  }

  predicate SomeNonempty(stacks: seq<Stack>) {
    exists i :: 0 <= i < |stacks| && stacks[i] != []
  }

  predicate ValidTransaction(t: Transaction) {
    && |t.version| == 4 && |t.lockTime| == 4
    && t.inputs != [] && InputsCodec().valid(t.inputs) && OutputsCodec().valid(t.outputs)
    && (t.stacks.Some? ==>
          |t.stacks.value| == |t.inputs| && AllValid(StackCodec(), t.stacks.value) && SomeNonempty(t.stacks.value))
  }

  // ---------------------------------------------------------------- parsing

  /** After the marker: inputs, outputs, stacks when they are announced, lock time, and nothing else. */
  function ParseBody(version: Bytes, segwit: bool, s: Bytes): Option<Transaction> {
    match InputsCodec().parse(s)
    case None => None
    case Some((inputs, s1)) =>
      if inputs == [] then None else
      match OutputsCodec().parse(s1)
      case None => None
      case Some((outputs, s2)) =>
        if !segwit then ParseEnd(version, inputs, outputs, None, s2)
        else
          match ParseMany(StackCodec(), |inputs|, s2)
          case None => None
          case Some((stacks, s3)) =>
            if !SomeNonempty(stacks) then None else ParseEnd(version, inputs, outputs, Some(stacks), s3)
  }

  function ParseEnd(
    version: Bytes, inputs: seq<Input>, outputs: seq<Output>, stacks: Option<seq<Stack>>, s: Bytes): Option<Transaction>
  {
    if |s| != 4 then None else Some(Transaction(version, inputs, outputs, stacks, s))
  }

  function ParseTransaction(raw: Bytes): Option<Transaction> {
    if |raw| < 4 || |raw| > MAX_BYTES then None
    else
      var version, s := raw[..4], raw[4..];
      var segwit := |s| >= 2 && s[0] == 0;
      if segwit && s[1] != 1 then None
      else
        match ParseBody(version, segwit, if segwit then s[2..] else s)
        case None => None
        case Some(t) => if Encode(t) != raw then None else Some(t)
  }

  lemma BodyReadsExactly(version: Bytes, segwit: bool, s: Bytes)
    requires |version| == 4 && ParseBody(version, segwit, s).Some?
    ensures var t := ParseBody(version, segwit, s).value;
      ValidTransaction(t) && t.version == version && t.stacks.Some? == segwit
      && s == EncodeCore(t) + (EncodeStacks(t) + t.lockTime)
  {
    CodecsLawful();
    var t := ParseBody(version, segwit, s).value;
    var (inputs, s1) := InputsCodec().parse(s).value;
    var (outputs, s2) := OutputsCodec().parse(s1).value;
    assert s == InputsCodec().encode(inputs) + s1;
    assert s1 == OutputsCodec().encode(outputs) + s2;
    Regroup(InputsCodec().encode(inputs), OutputsCodec().encode(outputs), s2);
    if segwit {
      ManyReadExactly(StackCodec(), |inputs|, s2);
    } else {
      assert [] + s2 == s2;
    }
  }

  lemma CoreParsesBack(t: Transaction, tail: Bytes)
    requires ValidTransaction(t)
    ensures InputsCodec().parse(EncodeCore(t) + tail) == Some((t.inputs, OutputsCodec().encode(t.outputs) + tail))
    ensures OutputsCodec().parse(OutputsCodec().encode(t.outputs) + tail) == Some((t.outputs, tail))
  {
    CodecsLawful();
    Regroup(InputsCodec().encode(t.inputs), OutputsCodec().encode(t.outputs), tail);
  }

  lemma StacksParseBack(t: Transaction)
    requires ValidTransaction(t) && t.stacks.Some?
    ensures ParseMany(StackCodec(), |t.inputs|, EncodeStacks(t) + t.lockTime) == Some((t.stacks.value, t.lockTime))
  {
    CodecsLawful();
    ManyParseBack(StackCodec(), t.stacks.value, t.lockTime);
  }

  lemma BodyParsesBack(t: Transaction)
    requires ValidTransaction(t)
    ensures ParseBody(t.version, t.stacks.Some?, EncodeCore(t) + (EncodeStacks(t) + t.lockTime)) == Some(t)
  {
    CoreParsesBack(t, EncodeStacks(t) + t.lockTime);
    if t.stacks.Some? {
      StacksParseBack(t);
    } else {
      assert EncodeStacks(t) + t.lockTime == t.lockTime;
    }
  }

  /** The input count of a valid transaction never looks like a marker. */
  lemma CoreStartsNonzero(t: Transaction)
    requires ValidTransaction(t)
    ensures |EncodeCore(t)| >= 1 && EncodeCore(t)[0] != 0
  {
    var count := EncodeCompact(|t.inputs|);
    assert count[0] != 0;
    assert InputsCodec().encode(t.inputs) == count + EncodeMany(InputCodec(), t.inputs);
  }

  lemma ParsedIsValid(raw: Bytes)
    requires ParseTransaction(raw).Some?
    ensures ValidTransaction(ParseTransaction(raw).value)
    ensures Encode(ParseTransaction(raw).value) == raw && |raw| <= MAX_BYTES
  {
    var s := raw[4..];
    var segwit := |s| >= 2 && s[0] == 0;
    BodyReadsExactly(raw[..4], segwit, if segwit then s[2..] else s);
  }

  lemma MarkedParses(raw: Bytes, version: Bytes, body: Bytes, t: Transaction)
    requires |version| == 4 && raw == version + ([0, 1] + body) && |raw| <= MAX_BYTES && Encode(t) == raw
    requires ParseBody(version, true, body) == Some(t)
    ensures ParseTransaction(raw) == Some(t)
  {
    var s := [0, 1] + body;
    assert raw[..4] == version && raw[4..] == s;
    assert s[2..] == body;
  }

  lemma UnmarkedParses(raw: Bytes, version: Bytes, body: Bytes, t: Transaction)
    requires |version| == 4 && raw == version + body && |raw| <= MAX_BYTES && Encode(t) == raw
    requires body != [] && body[0] != 0 && ParseBody(version, false, body) == Some(t)
    ensures ParseTransaction(raw) == Some(t)
  {
    assert raw[..4] == version && raw[4..] == body;
  }

  lemma EncodedParses(t: Transaction)
    requires ValidTransaction(t) && |Encode(t)| <= MAX_BYTES
    ensures ParseTransaction(Encode(t)) == Some(t)
  {
    var body := EncodeCore(t) + (EncodeStacks(t) + t.lockTime);
    BodyParsesBack(t);
    if t.stacks.Some? {
      MarkedParses(Encode(t), t.version, body, t);
    } else {
      CoreStartsNonzero(t);
      assert body[0] == EncodeCore(t)[0];
      assert [] + body == body;
      UnmarkedParses(Encode(t), t.version, body, t);
    }
  }

  /** A byte string parses exactly to the valid transaction of bounded size that it serializes, if there is one. */
  lemma ParseExactly(raw: Bytes, t: Transaction)
    ensures ParseTransaction(raw) == Some(t) <==> ValidTransaction(t) && Encode(t) == raw && |raw| <= MAX_BYTES
  {
    if ParseTransaction(raw) == Some(t) {
      ParsedIsValid(raw);
    } else if ValidTransaction(t) && Encode(t) == raw && |raw| <= MAX_BYTES {
      EncodedParses(t);
    }
  }

  /** The stripped bytes determine everything but the witnesses. */
  lemma StrippedDetermines(t: Transaction, u: Transaction)
    requires ValidTransaction(t) && ValidTransaction(u) && Stripped(t) == Stripped(u)
    ensures t.version == u.version && t.inputs == u.inputs && t.outputs == u.outputs && t.lockTime == u.lockTime
  {
    CodecsLawful();
    var ti, to := InputsCodec().encode(t.inputs), OutputsCodec().encode(t.outputs);
    var ui, uo := InputsCodec().encode(u.inputs), OutputsCodec().encode(u.outputs);
    SplitEqual(t.version, EncodeCore(t) + t.lockTime, u.version, EncodeCore(u) + u.lockTime);
    Regroup(ti, to, t.lockTime);
    Regroup(ui, uo, u.lockTime);
    Unambiguous(InputsCodec(), t.inputs, to + t.lockTime, u.inputs, uo + u.lockTime);
    Unambiguous(OutputsCodec(), t.outputs, t.lockTime, u.outputs, u.lockTime);
  }

  // ---------------------------------------------------------------- identifiers

  function DoubleHash(h: Hash, b: Bytes): Digest { h(h(b)) }

  /** The transaction id in the byte order that RPC and outpoints show. */
  function Txid(h: Hash, t: Transaction): Bytes { Reversed(DoubleHash(h, Stripped(t))) }

  function Wtxid(h: Hash, t: Transaction): Bytes { Reversed(DoubleHash(h, Encode(t))) }

  /** Spent outpoints: the id in that order, then the output index as on the wire. */
  function Outpoint(i: Input): Bytes { Reversed(i.previousTxid) + i.vout }

  /** The previous transaction and the output index that an input carries on the wire, the id not reversed. */
  predicate Carries(i: Input, wireId: Bytes, index: nat) {
    i.previousTxid == wireId && i.vout == LittleEndian(index, 4)
  }

  /** On the wire an input names a transaction by its double hash. */
  predicate SpendsOutput(h: Hash, i: Input, t: Transaction, index: nat) {
    Carries(i, DoubleHash(h, Stripped(t)), index)
  }

  lemma OutpointCarries(i: Input, wireId: Bytes, index: nat)
    requires |i.previousTxid| == |wireId|
    ensures Outpoint(i) == Reversed(wireId) + LittleEndian(index, 4) <==> Carries(i, wireId, index)
  {
    if Outpoint(i) == Reversed(wireId) + LittleEndian(index, 4) {
      SplitEqual(Reversed(i.previousTxid), i.vout, Reversed(wireId), LittleEndian(index, 4));
      ReversedInjective(i.previousTxid, wireId);
    }
  }

  /** An outpoint is a transaction's id with an output index exactly for the inputs that spend that output. */
  lemma OutpointNamesOutput(h: Hash, i: Input, t: Transaction, index: nat)
    requires |i.previousTxid| == 32
    ensures Outpoint(i) == Txid(h, t) + LittleEndian(index, 4) <==> SpendsOutput(h, i, t, index)
  {
    OutpointCarries(i, DoubleHash(h, Stripped(t)), index);
  }

  /** The stripped bytes are what the transaction serializes to without its witnesses. */
  lemma StrippedIsWitnessless(t: Transaction)
    ensures Stripped(t) == Encode(t.(stacks := None))
  {
    var bare := t.(stacks := None);
    assert EncodeStacks(bare) + t.lockTime == t.lockTime;
    assert MarkerFlag(bare) + (EncodeCore(t) + t.lockTime) == EncodeCore(t) + t.lockTime;
  }

  ghost function IdQueries(h: Hash, t: Transaction): set<Bytes> {
    {Stripped(t), Encode(t), h(Stripped(t)), h(Encode(t))}
  }

  /** Without collisions a transaction's two ids agree exactly when it carries no witnesses. */
  lemma IdsAgreeExactly(h: Hash, t: Transaction)
    requires CollisionFree(h, IdQueries(h, t))
    ensures Txid(h, t) == Wtxid(h, t) <==> t.stacks.None?
  {
    StrippedIsWitnessless(t);
    if t.stacks.None? {
      assert t == t.(stacks := None);
    } else if Txid(h, t) == Wtxid(h, t) {
      ReversedInjective(DoubleHash(h, Stripped(t)), DoubleHash(h, Encode(t)));
    }
  }

  lemma InputWidths(t: Transaction, k: nat)
    requires ValidTransaction(t) && k < |t.inputs|
    ensures |t.inputs[k].previousTxid| == 32 && |t.inputs[k].vout| == 4
  {
    assert AllValid(InputCodec(), t.inputs);
    var p := FromInput(t.inputs[k]);
    assert InputCodec().valid(t.inputs[k]);
    assert InputFields().valid(p);
    assert FixedBytes(32).valid(p.0) && Pair(FixedBytes(4), Pair(VarBytes(MAX_BYTES), FixedBytes(4))).valid(p.1);
  }

  lemma ItemCounts(t: Transaction)
    requires ValidTransaction(t)
    ensures |t.inputs| <= MAX_ITEMS && |t.outputs| <= MAX_ITEMS
  {
    assert InputsCodec().valid(t.inputs) && OutputsCodec().valid(t.outputs);
  }

  lemma OutputFits(t: Transaction, k: nat)
    requires ValidTransaction(t) && k < |t.outputs|
    ensures t.outputs[k].value < Pow256(8)
  {
    assert AllValid(OutputCodec(), t.outputs);
    assert OutputCodec().valid(t.outputs[k]);
    assert OutputFields().valid(FromOutput(t.outputs[k]));
  }

  // ---------------------------------------------------------------- the one-input serializer

  function ReplaceableSequence(): Bytes { [0xFD, 0xFF, 0xFF, 0xFF] }

  function VarItem(b: Bytes): Bytes { EncodeCompact(|b|) + b }

  function Items(stack: Stack): Bytes {
    if stack == [] then [] else VarItem(stack[0]) + Items(stack[1..])
  }

  function CounterproofTransaction(previousTxid: Bytes, previousVout: int, outputScript: Bytes, outputValue: int,
                                   witnessItems: seq<Bytes>, tapscript: Bytes, control: Bytes, signature: Bytes)
    : Result<Bytes>
  {
    if |previousTxid| != 32 || !(0 <= previousVout < 0x1_0000_0000) then Err
    else if !(0 <= outputValue < 0x1_0000_0000_0000_0000) then Err
    else
      var txin := Reversed(previousTxid) + LittleEndian(previousVout, 4) + [0] + ReplaceableSequence();
      var txout := LittleEndian(outputValue, 8) + EncodeCompact(|outputScript|) + outputScript;
      var stack := witnessItems + [signature, tapscript, control];
      Ok(LittleEndian(2, 4) + [0, 1] + [1] + txin + [1] + txout + (EncodeCompact(|stack|) + Items(stack)) + Zeros(4))
  }

  /** The transaction those bytes serialize. */
  function CounterproofOf(
    previousTxid: Bytes, previousVout: nat, outputScript: Bytes, outputValue: nat, stack: Stack): Transaction
  {
    Transaction(LittleEndian(2, 4),
                [Input(Reversed(previousTxid), LittleEndian(previousVout, 4), [], ReplaceableSequence())],
                [Output(outputValue, outputScript)], Some([stack]), Zeros(4))
  }

  lemma {:induction false} ItemsAreEncoded(stack: Stack)
    ensures Items(stack) == EncodeMany(VarBytes(MAX_BYTES), stack)
  {
    if stack == [] {
    } else {
      ItemsAreEncoded(stack[1..]);
    }
  }

  lemma SingleEncoded<T(!new)>(c: Codec<T>, x: T)
    ensures EncodeMany(c, [x]) == c.encode(x)
  {
    var none: seq<T> := [];
    assert [x][1..] == none;
    assert EncodeMany(c, none) == [];
  }

  lemma {:induction false} ItemsBound(stack: Stack, i: nat)
    requires i < |stack|
    ensures |stack[i]| <= |Items(stack)|
  {
    if i == 0 {
    } else {
      ItemsBound(stack[1..], i - 1);
    }
  }

  /** The field layout of an input, read off the combined codec. */
  lemma InputLayout(i: Input)
    ensures InputCodec().encode(i) == i.previousTxid + (i.vout + ((EncodeCompact(|i.script|) + i.script) + i.sequence))
    ensures InputCodec().valid(i)
      <==> |i.previousTxid| == 32 && |i.vout| == 4 && |i.script| <= MAX_BYTES && |i.sequence| == 4
  {
    var last := Pair(VarBytes(MAX_BYTES), FixedBytes(4));
    var middle := Pair(FixedBytes(4), last);
    var p := FromInput(i);
    assert last.encode(p.1.1) == (EncodeCompact(|i.script|) + i.script) + i.sequence;
    assert last.valid(p.1.1) <==> |i.script| <= MAX_BYTES && |i.sequence| == 4;
    assert middle.encode(p.1) == i.vout + last.encode(p.1.1);
    assert middle.valid(p.1) <==> |i.vout| == 4 && last.valid(p.1.1);
    assert InputFields() == Pair(FixedBytes(32), middle);
    assert InputFields().encode(p) == i.previousTxid + middle.encode(p.1);
    assert InputFields().valid(p) <==> |i.previousTxid| == 32 && middle.valid(p.1);
  }

  lemma OutputLayout(o: Output)
    ensures OutputCodec().encode(o) == LittleEndian(o.value, 8) + (EncodeCompact(|o.script|) + o.script)
    ensures OutputCodec().valid(o) <==> o.value < Pow256(8) && |o.script| <= MAX_BYTES
  {
    assert OutputFields().encode(FromOutput(o)) == LittleEndian(o.value, 8) + (EncodeCompact(|o.script|) + o.script);
    assert OutputFields().valid(FromOutput(o)) <==> o.value < Pow256(8) && |o.script| <= MAX_BYTES;
  }

  lemma InputEncoding(previousTxid: Bytes, vout: Bytes)
    ensures var i := Input(previousTxid, vout, [], ReplaceableSequence());
      InputCodec().encode(i) == previousTxid + vout + [0] + ReplaceableSequence()
  {
    InputLayout(Input(previousTxid, vout, [], ReplaceableSequence()));
    assert EncodeCompact(0) + [] == [0];
    Regroup4(previousTxid, vout, [0], ReplaceableSequence());
  }

  lemma OutputEncoding(value: nat, script: Bytes)
    ensures OutputCodec().encode(Output(value, script)) == LittleEndian(value, 8) + EncodeCompact(|script|) + script
  {
    OutputLayout(Output(value, script));
    Regroup(LittleEndian(value, 8), EncodeCompact(|script|), script);
  }

  /** The serializer writes the canonical serialization of one transaction. */
  lemma SerializerEncodes(previousTxid: Bytes, previousVout: int, outputScript: Bytes, outputValue: int,
                          witnessItems: seq<Bytes>, tapscript: Bytes, control: Bytes, signature: Bytes)
    requires CounterproofTransaction(previousTxid, previousVout, outputScript, outputValue, witnessItems, tapscript,
                                     control, signature).Ok?
    ensures var stack := witnessItems + [signature, tapscript, control];
      Encode(CounterproofOf(previousTxid, previousVout, outputScript, outputValue, stack))
      == CounterproofTransaction(previousTxid, previousVout, outputScript, outputValue, witnessItems, tapscript,
                                 control, signature).value
  {
    var stack := witnessItems + [signature, tapscript, control];
    var t := CounterproofOf(previousTxid, previousVout, outputScript, outputValue, stack);
    var vout := LittleEndian(previousVout, 4);
    var txin := Reversed(previousTxid) + vout + [0] + ReplaceableSequence();
    var txout := LittleEndian(outputValue, 8) + EncodeCompact(|outputScript|) + outputScript;
    var stacks := EncodeCompact(|stack|) + Items(stack);
    InputEncoding(Reversed(previousTxid), vout);
    OutputEncoding(outputValue, outputScript);
    SingleEncoded(InputCodec(), t.inputs[0]);
    SingleEncoded(OutputCodec(), t.outputs[0]);
    ItemsAreEncoded(stack);
    SingleEncoded(StackCodec(), stack);
    assert EncodeCore(t) == ([1] + txin) + ([1] + txout);
    assert EncodeStacks(t) == stacks;
    RegroupSerialized(LittleEndian(2, 4), [0, 1], [1], txin, txout, stacks, Zeros(4));
  }

  lemma RegroupSerialized(
    version: Bytes, marker: Bytes, one: Bytes, txin: Bytes, txout: Bytes, stacks: Bytes, lock: Bytes)
    ensures version + marker + one + txin + one + txout + stacks + lock
      == version + (marker + (((one + txin) + (one + txout)) + (stacks + lock)))
  {
    var core := (one + txin) + (one + txout);
    Regroup(version + marker, one, txin);
    Regroup(version + marker + (one + txin), one, txout);
    Regroup(version + marker, one + txin, one + txout);
    Regroup(version + marker + core, stacks, lock);
    Regroup(version + marker, core, stacks + lock);
    Regroup(version, marker, core + (stacks + lock));
  }

  /**
   * What the serializer writes parses, to the transaction it names, exactly when it respects the parser's
   * byte and item limits.
   */
  lemma SerializerParses(previousTxid: Bytes, previousVout: int, outputScript: Bytes, outputValue: int,
                         witnessItems: seq<Bytes>, tapscript: Bytes, control: Bytes, signature: Bytes)
    requires CounterproofTransaction(previousTxid, previousVout, outputScript, outputValue, witnessItems, tapscript,
                                     control, signature).Ok?
    ensures
      var raw := CounterproofTransaction(previousTxid, previousVout, outputScript, outputValue, witnessItems, tapscript,
                                         control, signature).value;
      var stack := witnessItems + [signature, tapscript, control];
      ParseTransaction(raw) == Some(CounterproofOf(previousTxid, previousVout, outputScript, outputValue, stack))
      <==> |raw| <= MAX_BYTES && |stack| <= MAX_ITEMS
  {
    var raw := CounterproofTransaction(previousTxid, previousVout, outputScript, outputValue, witnessItems, tapscript,
                                       control, signature).value;
    var stack := witnessItems + [signature, tapscript, control];
    var t := CounterproofOf(previousTxid, previousVout, outputScript, outputValue, stack);
    SerializerEncodes(previousTxid, previousVout, outputScript, outputValue, witnessItems, tapscript, control,
                      signature);
    ParseExactly(raw, t);
    if |raw| <= MAX_BYTES {
      SerializedBounds(t, stack);
      CounterproofValid(previousTxid, previousVout, outputScript, outputValue, stack);
    }
  }

  lemma SerializedBounds(t: Transaction, stack: Stack)
    requires |t.outputs| == 1 && t.stacks == Some([stack]) && |Encode(t)| <= MAX_BYTES
    ensures |t.outputs[0].script| <= MAX_BYTES
    ensures forall i :: 0 <= i < |stack| ==> |stack[i]| <= MAX_BYTES
  {
    SingleEncoded(OutputCodec(), t.outputs[0]);
    OutputLayout(t.outputs[0]);
    SingleEncoded(StackCodec(), stack);
    ItemsAreEncoded(stack);
    forall i | 0 <= i < |stack|
      ensures |stack[i]| <= MAX_BYTES
    {
      ItemsBound(stack, i);
    }
  }

  lemma CounterproofValid(previousTxid: Bytes, previousVout: nat, outputScript: Bytes, outputValue: nat, stack: Stack)
    requires |previousTxid| == 32 && outputValue < 0x1_0000_0000_0000_0000 && |outputScript| <= MAX_BYTES && stack != []
    requires forall i :: 0 <= i < |stack| ==> |stack[i]| <= MAX_BYTES
    ensures var t := CounterproofOf(previousTxid, previousVout, outputScript, outputValue, stack);
      ValidTransaction(t) <==> |stack| <= MAX_ITEMS
  {
    var t := CounterproofOf(previousTxid, previousVout, outputScript, outputValue, stack);
    PowersOf256();
    InputLayout(t.inputs[0]);
    OutputLayout(t.outputs[0]);
    assert AllValid(InputCodec(), t.inputs) && AllValid(OutputCodec(), t.outputs);
    assert AllValid(VarBytes(MAX_BYTES), stack);
    assert t.stacks.value[0] == stack;
    assert StackCodec().valid(stack) <==> |stack| <= MAX_ITEMS;
    assert AllValid(StackCodec(), [stack]) <==> StackCodec().valid(stack);
    assert [stack][0] != [];
  }

  /** The parts of a spend that the witness carries. */
  datatype Spend = Spend(items: seq<Bytes>, tapscript: Bytes, control: Bytes, signature: Bytes) {
    function Stack(): seq<Bytes> {
      items + [signature, tapscript, control]
    }
  }

  function SerializeSpend(
    previousTxid: Bytes, previousVout: int, outputScript: Bytes, outputValue: int, w: Spend): Result<Bytes>
  {
    CounterproofTransaction(previousTxid, previousVout, outputScript, outputValue, w.items, w.tapscript, w.control,
                            w.signature)
  }

  ghost predicate WithinLimits(raw: Bytes, w: Spend) {
    |raw| <= MAX_BYTES && |w.Stack()| <= MAX_ITEMS
  }

  /**
   * Two outputs of the serializer that differ in their witness arguments alone parse to transactions with one
   * stripped serialization and one id, and without collisions to one witness id exactly when the stacks agree.
   */
  lemma WitnessIndependent(
    h: Hash, previousTxid: Bytes, previousVout: int, outputScript: Bytes, outputValue: int, v: Spend, w: Spend)
    requires SerializeSpend(previousTxid, previousVout, outputScript, outputValue, v).Ok?
    requires SerializeSpend(previousTxid, previousVout, outputScript, outputValue, w).Ok?
    requires WithinLimits(SerializeSpend(previousTxid, previousVout, outputScript, outputValue, v).value, v)
    requires WithinLimits(SerializeSpend(previousTxid, previousVout, outputScript, outputValue, w).value, w)
    ensures
      var a := ParseTransaction(SerializeSpend(previousTxid, previousVout, outputScript, outputValue, v).value);
      var b := ParseTransaction(SerializeSpend(previousTxid, previousVout, outputScript, outputValue, w).value);
      && a.Some? && b.Some? && Stripped(a.value) == Stripped(b.value) && Txid(h, a.value) == Txid(h, b.value)
      && (CollisionFree(h, WtxidQueries(h, a.value) + WtxidQueries(h, b.value)) ==>
            (Wtxid(h, a.value) == Wtxid(h, b.value) <==> v.Stack() == w.Stack()))
  {
    SerializerParses(previousTxid, previousVout, outputScript, outputValue, v.items, v.tapscript, v.control,
                     v.signature);
    SerializerParses(previousTxid, previousVout, outputScript, outputValue, w.items, w.tapscript, w.control,
                     w.signature);
    var a := ParseTransaction(SerializeSpend(previousTxid, previousVout, outputScript, outputValue, v).value);
    var b := ParseTransaction(SerializeSpend(previousTxid, previousVout, outputScript, outputValue, w).value);
    ParsedIsValid(SerializeSpend(previousTxid, previousVout, outputScript, outputValue, v).value);
    ParsedIsValid(SerializeSpend(previousTxid, previousVout, outputScript, outputValue, w).value);
    SameCore(previousTxid, previousVout, outputScript, outputValue, v.Stack(), w.Stack());
    if CollisionFree(h, WtxidQueries(h, a.value) + WtxidQueries(h, b.value)) && Wtxid(h, a.value) == Wtxid(h, b.value) {
      WtxidBinds(h, a.value, b.value);
    }
  }

  ghost function WtxidQueries(h: Hash, t: Transaction): set<Bytes> {
    {Encode(t), h(Encode(t))}
  }

  lemma SameCore(
    previousTxid: Bytes, previousVout: nat, outputScript: Bytes, outputValue: nat, stack: Stack, other: Stack)
    ensures Stripped(CounterproofOf(previousTxid, previousVout, outputScript, outputValue, stack))
      == Stripped(CounterproofOf(previousTxid, previousVout, outputScript, outputValue, other))
  {
  }

  /** Without collisions a witness id names one SegWit transaction. */
  lemma WtxidBinds(h: Hash, t: Transaction, u: Transaction)
    requires ValidTransaction(t) && ValidTransaction(u) && t.stacks.Some?
    requires u.stacks.Some? && Wtxid(h, t) == Wtxid(h, u)
    requires CollisionFree(h, WtxidQueries(h, t) + WtxidQueries(h, u))
    ensures t == u
  {
    ReversedInjective(DoubleHash(h, Encode(t)), DoubleHash(h, Encode(u)));
    assert Encode(t) in WtxidQueries(h, t) && h(Encode(t)) in WtxidQueries(h, t);
    assert Encode(u) in WtxidQueries(h, u) && h(Encode(u)) in WtxidQueries(h, u);
    EncodingDetermines(t, u);
  }

  /** Two valid SegWit transactions with one serialization are one transaction. */
  lemma EncodingDetermines(t: Transaction, u: Transaction)
    requires ValidTransaction(t) && ValidTransaction(u) && t.stacks.Some? && u.stacks.Some? && Encode(t) == Encode(u)
    ensures t == u
  {
    var tb, ub := EncodeCore(t) + (EncodeStacks(t) + t.lockTime), EncodeCore(u) + (EncodeStacks(u) + u.lockTime);
    SplitEqual(t.version, MarkerFlag(t) + tb, u.version, MarkerFlag(u) + ub);
    SplitEqual(MarkerFlag(t), tb, MarkerFlag(u), ub);
    BodyParsesBack(t);
    BodyParsesBack(u);
  }
}
