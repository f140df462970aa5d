/** The one-shot slot ledger: a slot is burned when it is begun, whatever happens to it afterwards. */
module SlotLedger {
  import opened ByteStrings
  import opened FiniteSets

  const STARTED := "started-burned"

  function Allowed(): set<string> {
    {"success", "malformed", "abort", "timeout", "retry-rejected"}
  }

  datatype SlotUse = SlotUse(slotId: int, context: Bytes, input: Bytes, authorization: Bytes, outcome: string)

  /** The recorded uses by slot. */
  type Uses = map<int, SlotUse>

  /** What one ledger was opened for. */
  datatype Scope = Scope(context: Bytes, slotCount: int) {
    predicate Valid() {
      |context| == 32 && 1 <= slotCount < 0x1_0000
    }

    /** Every slot in use is in range, recorded under its own number and context, and has a known outcome. */
    ghost predicate Holds(uses: Uses) {
      forall k :: k in uses ==> 0 <= k < slotCount && RecordOk(k, uses[k])
    }

    ghost predicate RecordOk(k: int, use: SlotUse) {
      && use.slotId == k && use.context == context && |use.input| == 32 && |use.authorization| == 32
      && (use.outcome == STARTED || use.outcome in Allowed())
    }
  }

  /** A ledger never records more uses than it has slots. */
  lemma UsesBounded(scope: Scope, uses: Uses)
    requires scope.Valid() && scope.Holds(uses)
    ensures |uses| <= scope.slotCount
  {
    SubsetSize(uses.Keys, Range(scope.slotCount));
    assert |uses| == |uses.Keys|;
  }

  /** The four refusals, and otherwise one new burned record. */
  function Begun(
    scope: Scope, uses: Uses, slotId: int, context: Bytes, input: Bytes, authorization: Bytes): Result<SlotUse>
  {
    if !(0 <= slotId < scope.slotCount) || slotId in uses || context != scope.context
       || |input| != 32 || |authorization| != 32
    then Err
    else Ok(SlotUse(slotId, scope.context, input, authorization, STARTED))
  }

  function Finalized(uses: Uses, slotId: int, outcome: string): Result<SlotUse> {
    if slotId !in uses || outcome !in Allowed() then Err else Ok(uses[slotId].(outcome := outcome))
  }

  class BoundedSlotLedger {
    const scope: Scope
    var uses: Uses

    ghost predicate Valid()
      reads this
    {
      scope.Valid() && scope.Holds(uses)
    }

    constructor (scope: Scope)
      requires scope.Valid()
      ensures Valid() && this.scope == scope && uses == map[]
    {
      this.scope := scope;
      this.uses := map[];
    }

    static method Open(context: Bytes, slotCount: int) returns (r: Result<BoundedSlotLedger>)
      ensures r.Ok? <==> |context| == 32 && 1 <= slotCount < 0x1_0000
      ensures r.Ok? ==>
        fresh(r.value) && r.value.Valid() && r.value.scope == Scope(context, slotCount) && r.value.uses == map[]
    {
      if |context| != 32 || !(1 <= slotCount < 0x1_0000) {
        return Err;
      }
      var ledger := new BoundedSlotLedger(Scope(context, slotCount));
      return Ok(ledger);
    }

    method Begin(slotId: int, context: Bytes, input: Bytes, authorization: Bytes) returns (r: Result<SlotUse>)
      requires Valid()
      modifies this
      ensures Valid() && r == Begun(scope, old(uses), slotId, context, input, authorization)
      ensures r.Err? ==> uses == old(uses)
      ensures r.Ok? ==> slotId !in old(uses) && uses == old(uses)[slotId := r.value]
    {
      if !(0 <= slotId < scope.slotCount) {
        return Err;
      }
      if slotId in uses {
        return Err;
      }
      if context != scope.context {
        return Err;
      }
      if |input| != 32 || |authorization| != 32 {
        return Err;
      }
      var use := SlotUse(slotId, scope.context, input, authorization, STARTED);
      uses := uses[slotId := use];
      return Ok(use);
    }

    method Finalize(slotId: int, outcome: string) returns (r: Result<SlotUse>)
      requires Valid()
      modifies this
      ensures Valid() && r == Finalized(old(uses), slotId, outcome)
      ensures r.Err? ==> uses == old(uses)
      ensures r.Ok? ==> uses == old(uses)[slotId := r.value]
    {
      if slotId !in uses {
        return Err;
      }
      if outcome !in Allowed() {
        return Err;
      }
      var finalized := uses[slotId].(outcome := outcome);
      uses := uses[slotId := finalized];
      return Ok(finalized);
    }

    function Use(slotId: int): Option<SlotUse>
      reads this
    {
      if slotId in uses then Some(uses[slotId]) else None
    }

    function Remaining(): (n: int)
      requires Valid()
      reads this
      ensures 0 <= n <= scope.slotCount
    {
      UsesBounded(scope, uses);
      scope.slotCount - |uses|
    }
  }

  // ---------------------------------------------------------------- any run of ledger calls

  datatype Call =
    | BeginCall(slotId: int, context: Bytes, input: Bytes, authorization: Bytes)
    | FinalizeCall(slotId: int, outcome: string)

  function Respond(scope: Scope, uses: Uses, call: Call): Result<SlotUse> {
    match call
    case BeginCall(slotId, context, input, authorization) => Begun(scope, uses, slotId, context, input, authorization)
    case FinalizeCall(slotId, outcome) => Finalized(uses, slotId, outcome)
  }

  function After(scope: Scope, uses: Uses, call: Call): Uses {
    match Respond(scope, uses, call)
    case Ok(use) => uses[call.slotId := use]
    case Err => uses
  }

  function Run(scope: Scope, uses: Uses, calls: seq<Call>): Uses
    decreases |calls|
  {
    if calls == [] then uses else Run(scope, After(scope, uses, calls[0]), calls[1..])
  }

  /** How many of the calls burn a slot. */
  function Burns(scope: Scope, uses: Uses, calls: seq<Call>): nat
    decreases |calls|
  {
    if calls == [] then 0
    else
      (if calls[0].BeginCall? && Respond(scope, uses, calls[0]).Ok? then 1 else 0)
      + Burns(scope, After(scope, uses, calls[0]), calls[1..])
  }

  /** A used slot keeps its number, context and both digests; only its outcome may still move. */
  ghost predicate SameAttempt(a: SlotUse, b: SlotUse) {
    a == b.(outcome := a.outcome)
  }

  /**
   * Over every sequence of begin and finalize calls, crashes between the two included: the records stay
   * well-formed, a burned slot stays burned for the same attempt, the slots in use grow by exactly the accepted
   * begins, and those never exceed the slots that were free.
   */
  lemma {:induction false} RunBurnsOnce(scope: Scope, uses: Uses, calls: seq<Call>)
    requires scope.Valid() && scope.Holds(uses)
    ensures scope.Holds(Run(scope, uses, calls))
    ensures forall k :: k in uses ==> k in Run(scope, uses, calls) && SameAttempt(Run(scope, uses, calls)[k], uses[k])
    ensures |Run(scope, uses, calls)| == |uses| + Burns(scope, uses, calls) <= scope.slotCount
    decreases |calls|
  {
    UsesBounded(scope, uses);
    if calls != [] {
      var next := After(scope, uses, calls[0]);
      assert scope.Holds(next);
      assert |next| == |uses| + Burns(scope, uses, calls[..1]) by { CallSize(scope, uses, calls[0]); }
      RunBurnsOnce(scope, next, calls[1..]);
    }
  }

  /** A finished outcome may be replaced but is never taken back: over any run the slot stays finished. */
  lemma {:induction false} FinishedStays(scope: Scope, uses: Uses, calls: seq<Call>, k: int)
    requires scope.Valid() && scope.Holds(uses) && k in uses && uses[k].outcome != STARTED
    ensures k in Run(scope, uses, calls) && Run(scope, uses, calls)[k].outcome in Allowed()
    decreases |calls|
  {
    if calls == [] {
    } else {
      assert scope.Holds(After(scope, uses, calls[0]));
      assert STARTED !in Allowed();
      FinishedStays(scope, After(scope, uses, calls[0]), calls[1..], k);
    }
  }

  lemma CallSize(scope: Scope, uses: Uses, call: Call)
    ensures |After(scope, uses, call)| == |uses| + (if call.BeginCall? && Respond(scope, uses, call).Ok? then 1 else 0)
    ensures Burns(scope, uses, [call]) == if call.BeginCall? && Respond(scope, uses, call).Ok? then 1 else 0
  {
    if Respond(scope, uses, call).Ok? {
      UpdateSize(uses, call.slotId, Respond(scope, uses, call).value);
    }
    var none: seq<Call> := [];
    assert [call][1..] == none;
  }

  lemma UpdateSize(uses: Uses, k: int, use: SlotUse)
    ensures |uses[k := use]| == |uses| + if k in uses then 0 else 1
  {
    var next := uses[k := use];
    assert next.Keys == uses.Keys + {k};
    assert |next| == |next.Keys| && |uses| == |uses.Keys|;
  }

  /** However long a run is, no slot is begun in it twice. */
  lemma {:induction false} NeverBegunTwice(scope: Scope, uses: Uses, calls: seq<Call>, i: nat, j: nat)
    requires scope.Valid() && scope.Holds(uses) && i < j < |calls|
    requires calls[i].BeginCall? && calls[j].BeginCall?
    requires Respond(scope, Run(scope, uses, calls[..i]), calls[i]).Ok?
    requires Respond(scope, Run(scope, uses, calls[..j]), calls[j]).Ok?
    ensures calls[i].slotId != calls[j].slotId
  {
    var before := Run(scope, uses, calls[..i]);
    var after := After(scope, before, calls[i]);
    var none: seq<Call> := [];
    RunBurnsOnce(scope, uses, calls[..i]);
    assert calls[..j] == calls[..i] + ([calls[i]] + calls[i + 1..j]);
    RunConcat(scope, uses, calls[..i], [calls[i]] + calls[i + 1..j]);
    assert ([calls[i]] + calls[i + 1..j])[1..] == calls[i + 1..j];
    assert scope.Holds(after);
    RunBurnsOnce(scope, after, calls[i + 1..j]);
  }

  lemma {:induction false} RunConcat(scope: Scope, uses: Uses, a: seq<Call>, b: seq<Call>)
    ensures Run(scope, uses, a + b) == Run(scope, Run(scope, uses, a), b)
    decreases |a|
  {
    if a == [] {
      assert a + b == b;
    } else {
      assert (a + b)[1..] == a[1..] + b;
      RunConcat(scope, After(scope, uses, a[0]), a[1..], b);
    }
  }

  /**
   * Finalizing does not fix an outcome: a second call replaces it. A recorded use survives a call exactly when
   * the call is refused, concerns another slot, or repeats the recorded outcome.
   */
  lemma FinalizeOverwrites(scope: Scope, uses: Uses, call: Call, k: int)
    requires k in uses
    ensures After(scope, uses, call)[k] == uses[k]
      <==> call.BeginCall? || call.slotId != k || call.outcome !in Allowed() || call.outcome == uses[k].outcome
  {
    if call.FinalizeCall? && call.slotId == k && call.outcome in Allowed() {
      assert After(scope, uses, call)[k].outcome == call.outcome;
    }
  }

  /** A finished slot whose success a later call turns into a timeout. */
  lemma SuccessCanBeOverwritten()
    ensures var scope := Scope(Zeros(32), 1);
      var calls := [BeginCall(0, Zeros(32), Zeros(32), Zeros(32)), FinalizeCall(0, "success")];
      && 0 in Run(scope, map[], calls) && Run(scope, map[], calls)[0].outcome == "success"
      && 0 in Run(scope, map[], calls + [FinalizeCall(0, "timeout")])
      && Run(scope, map[], calls + [FinalizeCall(0, "timeout")])[0].outcome == "timeout"
  {
    var scope := Scope(Zeros(32), 1);
    var first := BeginCall(0, Zeros(32), Zeros(32), Zeros(32));
    var second, third := FinalizeCall(0, "success"), FinalizeCall(0, "timeout");
    var none: seq<Call> := [];
    var burned := After(scope, map[], first);
    var done := After(scope, burned, second);
    var overwritten := After(scope, done, third);
    assert [first, second][1..] == [second] && [second][1..] == none;
    assert Run(scope, burned, [second]) == Run(scope, done, none);
    RunConcat(scope, map[], [first, second], [third]);
    assert [third][1..] == none;
    assert Run(scope, done, [third]) == Run(scope, overwritten, none);
  }
}
