/** Validity-first duties while counterproofs are posted: the new-block handler and the retry handler. */
module NackDuties {
  import opened ByteStrings

  const U64_MAX := 0xFFFF_FFFF_FFFF_FFFF

  type u64 = i: int | 0 <= i <= U64_MAX

  function SaturatingAdd(a: u64, b: u64): u64 {
    if a + b > U64_MAX then U64_MAX else a + b
  }

  /** A counterprover and the height at which its counterproof confirmed. */
  datatype Entry = Entry(counterprover: nat, confHeight: u64)

  datatype Duty =
    | Slash
    | PublishNack(slot: nat)
    | PublishContestedPayout
    | ResolveAck(slot: nat)
    | PublishBridgeProofTimeout
    | GenerateBridgeProof(lastBlockHeight: u64)
    | PotentialCounterproof(lastBlockHeight: u64)

  /** What configuration, game, signatures and contest fix; slotFor gives an operator's slot in an owner's graph. */
  datatype Setup = Setup(
    povIdx: nat, ownerIdx: nat, nackTimelock: u64, proofTimelock: u64, contestHeight: u64,
    slotFor: (nat, nat) -> Option<nat>, gameSlots: nat, signedSlots: nat) {

    predicate IsOwnGraph() {
      povIdx == ownerIdx
    }

    /** The watchtower slot, in the graph of an operator, whose subgraph and signatures both exist. */
    function Resolve(graphIdx: nat, counterprover: nat): Option<nat> {
      match slotFor(graphIdx, counterprover)
      case None => None
      case Some(slot) => if slot < gameSlots && slot < signedSlots then Some(slot) else None
    }

    /** Two operators never share a slot of one graph. */
    ghost predicate DistinctSlots() {
      forall c, d :: slotFor(ownerIdx, c).Some? && slotFor(ownerIdx, c) == slotFor(ownerIdx, d) ==> c == d
    }
  }

  // ---------------------------------------------------------------- the CSV gate

  predicate Mature(tip: u64, confHeight: u64, delay: u64) {
    !(SaturatingAdd(tip, 1) < SaturatingAdd(confHeight, delay))
  }

  /** The saturating test is the exact one on unbounded integers, except that the last two heights always pass. */
  lemma MatureExactly(tip: u64, confHeight: u64, delay: u64)
    ensures Mature(tip, confHeight, delay) <==> tip + 1 >= confHeight + delay || tip + 1 >= U64_MAX
  {
  }

  ghost predicate Eligible(setup: Setup, graphIdx: nat, nacked: set<nat>, tip: u64, e: Entry) {
    && e.counterprover !in nacked && Mature(tip, e.confHeight, setup.nackTimelock)
    && setup.Resolve(graphIdx, e.counterprover).Some?
  }

  ghost function Nack(setup: Setup, graphIdx: nat, nacked: set<nat>, tip: u64, e: Entry): seq<Duty> {
    if Eligible(setup, graphIdx, nacked, tip, e)
    then [PublishNack(setup.Resolve(graphIdx, e.counterprover).value)] else []
  }

  /** What a question asks of each entry, in order. */
  ghost function Collected(ask: Entry -> seq<Duty>, entries: seq<Entry>): seq<Duty> {
    if entries == [] then [] else ask(entries[0]) + Collected(ask, entries[1..])
  }

  /** Entries are treated one by one and in order: lists concatenate. */
  lemma {:induction false} CollectedConcatenate(ask: Entry -> seq<Duty>, a: seq<Entry>, b: seq<Entry>)
    ensures Collected(ask, a + b) == Collected(ask, a) + Collected(ask, b)
  {
    if a == [] {
      assert a + b == b;
    } else {
      CollectedConcatenate(ask, a[1..], b);
      assert (a + b)[1..] == a[1..] + b && (a + b)[0] == a[0];
    }
  }

  /** The duties of the eligible entries, in order, with slots resolved in the graph of one operator. */
  ghost function Nacks(setup: Setup, graphIdx: nat, nacked: set<nat>, tip: u64, entries: seq<Entry>): seq<Duty> {
    Collected(e => Nack(setup, graphIdx, nacked, tip, e), entries)
  }

  lemma NacksSnoc(setup: Setup, graphIdx: nat, nacked: set<nat>, tip: u64, entries: seq<Entry>, i: nat)
    requires i < |entries|
    ensures Nacks(setup, graphIdx, nacked, tip, entries[..i + 1])
      == Nacks(setup, graphIdx, nacked, tip, entries[..i]) + Nack(setup, graphIdx, nacked, tip, entries[i])
  {
    assert entries[..i + 1] == entries[..i] + [entries[i]];
    var ask := (e: Entry) => Nack(setup, graphIdx, nacked, tip, e);
    CollectedConcatenate(ask, entries[..i], [entries[i]]);
    var none: seq<Entry> := [];
    assert [entries[i]][1..] == none && Collected(ask, none) == [];
  }

  /**
   * On unbounded integers: un-nacked, at most one block short of the relative delay, and with a slot that has both
   * a subgraph and signatures.
   */
  ghost predicate Asks(setup: Setup, graphIdx: nat, nacked: set<nat>, tip: u64, e: Entry, duty: Duty) {
    && e.counterprover !in nacked
    && (tip + 1 >= e.confHeight + setup.nackTimelock || tip + 1 >= U64_MAX)
    && duty.PublishNack? && setup.slotFor(graphIdx, e.counterprover) == Some(duty.slot)
    && duty.slot < setup.gameSlots && duty.slot < setup.signedSlots
  }

  /** A NACK is due exactly for the slots of confirmed, un-nacked, matured entries. */
  lemma {:induction false} NacksExactly(
    setup: Setup, graphIdx: nat, nacked: set<nat>, tip: u64, entries: seq<Entry>, duty: Duty)
    ensures duty in Nacks(setup, graphIdx, nacked, tip, entries)
      <==> exists i :: 0 <= i < |entries| && Asks(setup, graphIdx, nacked, tip, entries[i], duty)
  {
    if entries == [] {
    } else {
      var rest := entries[1..];
      NacksExactly(setup, graphIdx, nacked, tip, rest, duty);
      MatureExactly(tip, entries[0].confHeight, setup.nackTimelock);
      assert forall i :: 0 <= i < |rest| ==> rest[i] == entries[i + 1];
      assert forall i :: 1 <= i < |entries| ==> entries[i] == rest[i - 1];
    }
  }

  // ---------------------------------------------------------------- the state and its events

  /** The part of the posted state that duties depend on; entries are in the order of their counterprovers. */
  datatype State = State(tip: u64, entries: seq<Entry>, nacked: set<nat>, refuted: bool, fulfilled: bool) {
    ghost predicate Confirmed(counterprover: nat) {
      exists i :: 0 <= i < |entries| && entries[i].counterprover == counterprover
    }
  }

  /** What the two timeouts that are not part of this model answer at one height. */
  datatype Timeouts = Timeouts(slash: bool, contestedPayout: bool)

  datatype Event =
    | Block(height: u64, due: Timeouts)
      /** counterable: whether the duty of an own counterproof can be built. */
    | RetryTick(counterable: bool)
      /** accepted: whether operator, transaction id and witness pass validation. */
    | Posted(counterprover: nat, height: u64, accepted: bool)
      /** A NACK that passed validation and leaves some counterproof un-nacked. */
    | Nacked(counterprover: nat)

  function Insert(entries: seq<Entry>, e: Entry): (r: seq<Entry>)
    ensures |r| == |entries| + 1
  {
    if entries == [] || e.counterprover < entries[0].counterprover then [e] + entries
    else [entries[0]] + Insert(entries[1..], e)
  }

  lemma {:induction false} InsertHolds(entries: seq<Entry>, e: Entry)
    ensures forall x :: x in Insert(entries, e) <==> x == e || x in entries
  {
    if entries == [] || e.counterprover < entries[0].counterprover {
    } else {
      InsertHolds(entries[1..], e);
    }
  }

  /** One entry per counterprover, in their order. */
  ghost predicate Ordered(entries: seq<Entry>) {
    forall i, j :: 0 <= i < j < |entries| ==> entries[i].counterprover < entries[j].counterprover
  }

  /** Inserting a counterprover that is not there yet keeps the order. */
  lemma {:induction false} InsertKeepsOrder(entries: seq<Entry>, e: Entry)
    requires Ordered(entries) && forall i :: 0 <= i < |entries| ==> entries[i].counterprover != e.counterprover
    ensures Ordered(Insert(entries, e))
  {
    if entries == [] || e.counterprover < entries[0].counterprover {
    } else {
      var rest := entries[1..];
      assert entries == [entries[0]] + rest;
      InsertKeepsOrder(rest, e);
      InsertHolds(rest, e);
      forall k | 0 <= k < |Insert(rest, e)|
        ensures entries[0].counterprover < Insert(rest, e)[k].counterprover
      {
        assert Insert(rest, e)[k] in Insert(rest, e);
      }
    }
  }

  ghost function BlockAnswer(setup: Setup, s: State, height: u64, due: Timeouts): Result<seq<Duty>> {
    var nacks := Nacks(setup, setup.ownerIdx, s.nacked, height, s.entries);
    var ack := setup.Resolve(setup.ownerIdx, setup.povIdx);
    if due.slash then Ok([Slash])
    else if setup.IsOwnGraph() && nacks != [] then Ok(nacks)
    else if due.contestedPayout then Ok([PublishContestedPayout])
    else if setup.IsOwnGraph() then Ok([])
    else if s.Confirmed(setup.povIdx) && setup.povIdx !in s.nacked && s.refuted && ack.Some? then
      Ok([ResolveAck(ack.value)])
    else if s.refuted || s.fulfilled then Ok([])
    else if setup.contestHeight + setup.proofTimelock > U64_MAX then Err
    else if height > setup.contestHeight + setup.proofTimelock then Ok([PublishBridgeProofTimeout])
    else Ok([])
  }

  ghost function RetryAnswer(setup: Setup, s: State, counterable: bool): Result<seq<Duty>> {
    var ack := setup.Resolve(setup.ownerIdx, setup.povIdx);
    if setup.IsOwnGraph() then
      var proof := if s.refuted then [] else [GenerateBridgeProof(s.tip)];
      Ok(proof + Nacks(setup, setup.povIdx, s.nacked, s.tip, s.entries))
    else if !s.refuted then Ok([])
    else if !s.Confirmed(setup.povIdx) then if counterable then Ok([PotentialCounterproof(s.tip)]) else Err
    else if setup.povIdx in s.nacked then Ok([])
    else if ack.Some? then Ok([ResolveAck(ack.value)])
    else Err
  }

  ghost function PostedAnswer(setup: Setup, s: State, counterprover: nat, accepted: bool): Result<seq<Duty>> {
    var ack := setup.Resolve(setup.ownerIdx, counterprover);
    if s.Confirmed(counterprover) || setup.slotFor(setup.ownerIdx, counterprover).None? || !accepted then Err
    else if setup.povIdx != counterprover || !s.refuted then Ok([])
    else if ack.Some? then Ok([ResolveAck(ack.value)])
    else Err
  }

  ghost function Answer(setup: Setup, s: State, e: Event): Result<seq<Duty>> {
    match e
    case Block(height, due) => BlockAnswer(setup, s, height, due)
    case RetryTick(counterable) => RetryAnswer(setup, s, counterable)
    case Posted(counterprover, _, accepted) => PostedAnswer(setup, s, counterprover, accepted)
    case Nacked(_) => Ok([])
  }

  /** A rejected counterproof changes nothing; an accepted one is inserted and sets the height. */
  ghost function After(setup: Setup, s: State, e: Event): State {
    match e
    case Block(height, _) => s.(tip := height)
    case RetryTick(_) => s
    case Posted(counterprover, height, accepted) =>
      if PostedAnswer(setup, s, counterprover, accepted).Err? then s
      else s.(tip := height, entries := Insert(s.entries, Entry(counterprover, height)))
    case Nacked(counterprover) => s.(nacked := s.nacked + {counterprover})
  }

  // ---------------------------------------------------------------- the handlers

  class CounterProofPosted {
    const setup: Setup
    var lastBlockHeight: u64
    var entries: seq<Entry>
    var nacked: set<nat>
    var refuted: bool
    var fulfilled: bool

    constructor (setup: Setup, s: State)
      ensures this.setup == setup && Snapshot() == s
    {
      this.setup := setup;
      lastBlockHeight := s.tip;
      entries := s.entries;
      nacked := s.nacked;
      refuted := s.refuted;
      fulfilled := s.fulfilled;
    }

    ghost function Snapshot(): State
      reads this
    {
      State(lastBlockHeight, entries, nacked, refuted, fulfilled)
    }

    predicate Confirmed(counterprover: nat)
      reads this
    {
      exists i :: 0 <= i < |entries| && entries[i].counterprover == counterprover
    }

    /** The loop of the block handler: the event's height, slots in the graph of the owner. */
    method BlockNacks(height: u64) returns (duties: seq<Duty>)
      ensures duties == Nacks(setup, setup.ownerIdx, nacked, height, entries)
    {
      duties := [];
      for i := 0 to |entries|
        invariant duties == Nacks(setup, setup.ownerIdx, nacked, height, entries[..i])
      {
        var e := entries[i];
        NacksSnoc(setup, setup.ownerIdx, nacked, height, entries, i);
        if e.counterprover in nacked || SaturatingAdd(height, 1) < SaturatingAdd(e.confHeight, setup.nackTimelock) {
          continue;
        }
        var slot := setup.slotFor(setup.ownerIdx, e.counterprover);
        if slot.None? {
          continue;
        }
        if slot.value >= setup.gameSlots || slot.value >= setup.signedSlots {
          continue;
        }
        duties := duties + [PublishNack(slot.value)];
      }
      assert entries[..|entries|] == entries;
    }

    /** The loop of the retry handler: the last height seen, slots in the graph of the point of view. */
    method RetryNacks() returns (duties: seq<Duty>)
      ensures duties == Nacks(setup, setup.povIdx, nacked, lastBlockHeight, entries)
    {
      duties := [];
      for i := 0 to |entries|
        invariant duties == Nacks(setup, setup.povIdx, nacked, lastBlockHeight, entries[..i])
      {
        var e := entries[i];
        NacksSnoc(setup, setup.povIdx, nacked, lastBlockHeight, entries, i);
        if e.counterprover in nacked
           || SaturatingAdd(lastBlockHeight, 1) < SaturatingAdd(e.confHeight, setup.nackTimelock) {
          continue;
        }
        var slot := setup.slotFor(setup.povIdx, e.counterprover);
        if slot.None? {
          continue;
        }
        if slot.value >= setup.gameSlots || slot.value >= setup.signedSlots {
          continue;
        }
        duties := duties + [PublishNack(slot.value)];
      }
      assert entries[..|entries|] == entries;
    }

    method NewBlock(height: u64, due: Timeouts) returns (r: Result<seq<Duty>>)
      modifies this
      ensures r == Answer(setup, old(Snapshot()), Block(height, due))
      ensures Snapshot() == After(setup, old(Snapshot()), Block(height, due))
    {
      lastBlockHeight := height;
      if due.slash {
        return Ok([Slash]);
      }
      if setup.ownerIdx == setup.povIdx {
        var duties := BlockNacks(height);
        if duties != [] {
          return Ok(duties);
        }
      }
      if due.contestedPayout {
        return Ok([PublishContestedPayout]);
      }
      if setup.ownerIdx != setup.povIdx && Confirmed(setup.povIdx) && setup.povIdx !in nacked {
        if refuted {
          var slot := setup.Resolve(setup.ownerIdx, setup.povIdx);
          if slot.Some? {
            return Ok([ResolveAck(slot.value)]);
          }
        }
      }
      if setup.ownerIdx != setup.povIdx && !refuted && !fulfilled {
        // the addition is unguarded: an overflow aborts
        if setup.contestHeight + setup.proofTimelock > U64_MAX {
          return Err;
        }
        if height > setup.contestHeight + setup.proofTimelock {
          return Ok([PublishBridgeProofTimeout]);
        }
      }
      return Ok([]);
    }

    method Retry(counterable: bool) returns (r: Result<seq<Duty>>)
      ensures r == Answer(setup, Snapshot(), RetryTick(counterable))
    {
      if setup.ownerIdx == setup.povIdx {
        var duties: seq<Duty> := [];
        if !refuted {
          duties := duties + [GenerateBridgeProof(lastBlockHeight)];
        }
        assert duties == if refuted then [] else [GenerateBridgeProof(lastBlockHeight)];
        var nacks := RetryNacks();
        return Ok(duties + nacks);
      } else if refuted {
        if Confirmed(setup.povIdx) && setup.povIdx !in nacked {
          var slot := setup.Resolve(setup.ownerIdx, setup.povIdx);
          if slot.None? {
            return Err;
          }
          return Ok([ResolveAck(slot.value)]);
        } else if !Confirmed(setup.povIdx) {
          return if counterable then Ok([PotentialCounterproof(lastBlockHeight)]) else Err;
        } else {
          return Ok([]);
        }
      } else {
        return Ok([]);
      }
    }

    /** A confirmed counterproof: duplicates and rejected ones change nothing. */
    method ProcessCounterproof(counterprover: nat, height: u64, accepted: bool) returns (r: Result<seq<Duty>>)
      modifies this
      ensures r == Answer(setup, old(Snapshot()), Posted(counterprover, height, accepted))
      ensures Snapshot() == After(setup, old(Snapshot()), Posted(counterprover, height, accepted))
    {
      if Confirmed(counterprover) {
        return Err;
      }
      if setup.slotFor(setup.ownerIdx, counterprover).None? || !accepted {
        return Err;
      }
      var duties: seq<Duty> := [];
      if setup.povIdx == counterprover && refuted {
        var slot := setup.Resolve(setup.ownerIdx, counterprover);
        if slot.None? {
          return Err;
        }
        duties := [ResolveAck(slot.value)];
      }
      entries := Insert(entries, Entry(counterprover, height));
      lastBlockHeight := height;
      return Ok(duties);
    }

    method RecordNack(counterprover: nat)
      modifies this
      ensures Snapshot() == After(setup, old(Snapshot()), Nacked(counterprover))
    {
      nacked := nacked + {counterprover};
    }
  }

  // ---------------------------------------------------------------- the handlers agree

  /** What a block answers when one of the two timeouts is due: the slash first, then the contested payout. */
  ghost function Due(due: Timeouts, otherwise: Result<seq<Duty>>): Result<seq<Duty>> {
    if due.slash then Ok([Slash]) else if due.contestedPayout then Ok([PublishContestedPayout]) else otherwise
  }

  /**
   * On an own graph with no slash due, a block and the retry that follows it ask for the same ordered NACKs,
   * although they resolve slots through different indices and read the height from different places. A block without
   * NACKs asks for a due contested payout, and for nothing else.
   */
  lemma HandlersAgree(setup: Setup, s: State, height: u64, due: Timeouts, counterable: bool)
    requires setup.IsOwnGraph() && !due.slash
    ensures var block := Answer(setup, s, Block(height, due));
      var retry := Answer(setup, After(setup, s, Block(height, due)), RetryTick(counterable));
      var nacks := Nacks(setup, setup.ownerIdx, s.nacked, height, s.entries);
      && block.Ok? && retry == Ok((if s.refuted then [] else [GenerateBridgeProof(height)]) + nacks)
      && (nacks != [] ==> block == Ok(nacks))
      && (nacks == [] ==> block == Due(due, Ok([])))
  {
  }

  // ---------------------------------------------------------------- whole runs

  ghost function Run(setup: Setup, s: State, events: seq<Event>): State
    decreases |events|
  {
    if events == [] then s else Run(setup, After(setup, s, events[0]), events[1..])
  }

  /** No event lowers the height. */
  ghost predicate Rising(setup: Setup, s: State, events: seq<Event>)
    decreases |events|
  {
    events == [] || (After(setup, s, events[0]).tip >= s.tip && Rising(setup, After(setup, s, events[0]), events[1..]))
  }

  lemma {:induction false} RisingAt(setup: Setup, s: State, events: seq<Event>, i: nat)
    requires Rising(setup, s, events) && i < |events|
    ensures Rising(setup, s, events[..i])
    ensures var before := Run(setup, s, events[..i]); After(setup, before, events[i]).tip >= before.tip
    decreases i
  {
    if i == 0 {
    } else {
      RisingAt(setup, After(setup, s, events[0]), events[1..], i - 1);
      assert events[..i][0] == events[0] && events[..i][1..] == events[1..][..i - 1];
    }
  }

  /** The posted counterproofs stay in order, one per counterprover, over every run. */
  lemma {:induction false} RunKeepsOrder(setup: Setup, s: State, events: seq<Event>)
    requires Ordered(s.entries)
    ensures Ordered(Run(setup, s, events).entries)
    decreases |events|
  {
    if events == [] {
    } else {
      var e := events[0];
      if e.Posted? && PostedAnswer(setup, s, e.counterprover, e.accepted).Ok? {
        InsertKeepsOrder(s.entries, Entry(e.counterprover, e.height));
      }
      RunKeepsOrder(setup, After(setup, s, e), events[1..]);
    }
  }

  /** Recorded NACKs are never forgotten and come from nowhere else; refutation and fulfilment stay as they are. */
  lemma {:induction false} NackedExactly(setup: Setup, s: State, events: seq<Event>, counterprover: nat)
    ensures var end := Run(setup, s, events);
      && (counterprover in end.nacked <==> counterprover in s.nacked || Nacked(counterprover) in events)
      && end.refuted == s.refuted && end.fulfilled == s.fulfilled
    decreases |events|
  {
    if events == [] {
    } else {
      assert events == [events[0]] + events[1..];
      NackedExactly(setup, After(setup, s, events[0]), events[1..], counterprover);
    }
  }

  // ---------------------------------------------------------------- entries over a run

  /** Event j is a counterproof that is accepted when its turn comes, and leaves this entry. */
  ghost predicate Confirms(setup: Setup, s: State, events: seq<Event>, j: nat, e: Entry)
    requires j < |events|
  {
    && events[j].Posted? && Entry(events[j].counterprover, events[j].height) == e
    && Answer(setup, Run(setup, s, events[..j]), events[j]).Ok?
  }

  lemma ConfirmsLater(setup: Setup, s: State, events: seq<Event>, j: nat, e: Entry)
    requires 1 <= j < |events|
    ensures Confirms(setup, s, events, j, e) <==> Confirms(setup, After(setup, s, events[0]), events[1..], j - 1, e)
  {
    assert events[..j][0] == events[0] && events[..j][1..] == events[1..][..j - 1];
  }

  /** Over every run the entries are those that were there and those that an accepted counterproof left. */
  lemma {:induction false} EntriesExactly(setup: Setup, s: State, events: seq<Event>, e: Entry)
    ensures e in Run(setup, s, events).entries
      <==> e in s.entries || exists j :: 0 <= j < |events| && Confirms(setup, s, events, j, e)
    decreases |events|
  {
    if events == [] {
    } else {
      var next, rest := After(setup, s, events[0]), events[1..];
      assert Run(setup, s, events[..0]) == s;
      if events[0].Posted? {
        InsertHolds(s.entries, Entry(events[0].counterprover, events[0].height));
      }
      assert e in next.entries <==> e in s.entries || Confirms(setup, s, events, 0, e);
      EntriesExactly(setup, next, rest, e);
      forall j | 1 <= j < |events|
        ensures Confirms(setup, s, events, j, e) <==> Confirms(setup, next, rest, j - 1, e)
      {
        ConfirmsLater(setup, s, events, j, e);
      }
      if k :| 0 <= k < |rest| && Confirms(setup, next, rest, k, e) {
        assert Confirms(setup, s, events, k + 1, e);
      }
    }
  }

  /** Event j is a block or an accepted counterproof. */
  ghost predicate SetsHeight(setup: Setup, s: State, events: seq<Event>, j: nat)
    requires j < |events|
  {
    || events[j].Block?
    || (events[j].Posted? && Confirms(setup, s, events, j, Entry(events[j].counterprover, events[j].height)))
  }

  ghost predicate QuietFrom(setup: Setup, s: State, events: seq<Event>, lo: nat) {
    forall j :: lo <= j < |events| ==> !SetsHeight(setup, s, events, j)
  }

  lemma QuietLater(setup: Setup, s: State, events: seq<Event>, lo: nat)
    requires 1 <= lo && events != [] && QuietFrom(setup, s, events, lo)
    ensures QuietFrom(setup, After(setup, s, events[0]), events[1..], lo - 1)
  {
    var next, rest := After(setup, s, events[0]), events[1..];
    forall j | lo - 1 <= j < |rest|
      ensures !SetsHeight(setup, next, rest, j)
    {
      assert !SetsHeight(setup, s, events, j + 1);
      if rest[j].Posted? {
        ConfirmsLater(setup, s, events, j + 1, Entry(rest[j].counterprover, rest[j].height));
      }
    }
  }

  lemma {:induction false} HeightKept(setup: Setup, s: State, events: seq<Event>)
    requires QuietFrom(setup, s, events, 0)
    ensures Run(setup, s, events).tip == s.tip
    decreases |events|
  {
    if events == [] {
    } else {
      assert Run(setup, s, events[..0]) == s;
      assert !SetsHeight(setup, s, events, 0);
      QuietLater(setup, s, events, 1);
      HeightKept(setup, After(setup, s, events[0]), events[1..]);
    }
  }

  /** The height after a run is that of its last block or accepted counterproof; no other event touches it. */
  lemma {:induction false} HeightIsLatest(setup: Setup, s: State, events: seq<Event>, j: nat)
    requires j < |events| && SetsHeight(setup, s, events, j) && QuietFrom(setup, s, events, j + 1)
    ensures Run(setup, s, events).tip == events[j].height
    decreases |events|
  {
    var next, rest := After(setup, s, events[0]), events[1..];
    QuietLater(setup, s, events, j + 1);
    if j == 0 {
      assert Run(setup, s, events[..0]) == s;
      HeightKept(setup, next, rest);
    } else {
      if events[j].Posted? {
        ConfirmsLater(setup, s, events, j, Entry(events[j].counterprover, events[j].height));
      }
      HeightIsLatest(setup, next, rest, j - 1);
    }
  }

  /** The counterproof of this counterprover is confirmed before event i: from the start or by an earlier event. */
  ghost predicate ConfirmedBefore(setup: Setup, s: State, events: seq<Event>, i: nat, counterprover: nat)
    requires i <= |events|
  {
    || s.Confirmed(counterprover)
    || exists j ::
         && 0 <= j < i && events[j].Posted? && events[j].counterprover == counterprover
         && Confirms(setup, s, events, j, Entry(counterprover, events[j].height))
  }

  lemma ConfirmedExactly(setup: Setup, s: State, events: seq<Event>, i: nat, counterprover: nat)
    requires i <= |events|
    ensures Run(setup, s, events[..i]).Confirmed(counterprover)
      <==> ConfirmedBefore(setup, s, events, i, counterprover)
  {
    var end := Run(setup, s, events[..i]);
    if end.Confirmed(counterprover) {
      var k :| 0 <= k < |end.entries| && end.entries[k].counterprover == counterprover;
      var e := end.entries[k];
      assert e in end.entries;
      EntriesExactly(setup, s, events[..i], e);
      if e !in s.entries {
        var j :| 0 <= j < i && Confirms(setup, s, events[..i], j, e);
        assert events[..i][..j] == events[..j];
        assert Confirms(setup, s, events, j, Entry(counterprover, events[j].height));
      }
    }
    if s.Confirmed(counterprover) {
      var k :| 0 <= k < |s.entries| && s.entries[k].counterprover == counterprover;
      EntriesExactly(setup, s, events[..i], s.entries[k]);
    } else if ConfirmedBefore(setup, s, events, i, counterprover) {
      var j :| && 0 <= j < i && events[j].Posted? && events[j].counterprover == counterprover
               && Confirms(setup, s, events, j, Entry(counterprover, events[j].height));
      assert events[..i][..j] == events[..j];
      assert Confirms(setup, s, events[..i], j, Entry(counterprover, events[j].height));
      EntriesExactly(setup, s, events[..i], Entry(counterprover, events[j].height));
    }
  }

  /**
   * Over every run and on every graph: a counterproof is accepted exactly when it passes validation, is the first of
   * its counterprover, and has a slot, which must be usable when it is the own one and the proof is refuted. Then
   * alone it asks for anything, namely for its acknowledgement.
   */
  lemma PostedExactly(setup: Setup, s: State, events: seq<Event>, i: nat)
    requires i < |events| && events[i].Posted?
    ensures var c := events[i].counterprover;
      var answer := Answer(setup, Run(setup, s, events[..i]), events[i]);
      var slot := setup.slotFor(setup.ownerIdx, c);
      var asks := c == setup.povIdx && s.refuted;
      && (answer.Ok? <==>
            && events[i].accepted && !ConfirmedBefore(setup, s, events, i, c) && slot.Some?
            && (asks ==> slot.value < setup.gameSlots && slot.value < setup.signedSlots))
      && (answer.Ok? ==> answer.value == if asks then [ResolveAck(slot.value)] else [])
  {
    NackedExactly(setup, s, events[..i], setup.povIdx);
    ConfirmedExactly(setup, s, events, i, events[i].counterprover);
  }

  // ---------------------------------------------------------------- the own graph

  /** Along rising heights an eligible entry stays eligible exactly until its NACK is recorded. */
  lemma {:induction false} EligibleUntilNacked(setup: Setup, graphIdx: nat, s: State, events: seq<Event>, e: Entry)
    requires Rising(setup, s, events) && Eligible(setup, graphIdx, s.nacked, s.tip, e)
    ensures var end := Run(setup, s, events);
      if Nacked(e.counterprover) in events then e.counterprover in end.nacked
      else Eligible(setup, graphIdx, end.nacked, end.tip, e)
    decreases |events|
  {
    if events == [] {
    } else {
      var next, rest := After(setup, s, events[0]), events[1..];
      assert events == [events[0]] + rest;
      if events[0] == Nacked(e.counterprover) {
        NackedExactly(setup, next, rest, e.counterprover);
      } else {
        EligibleUntilNacked(setup, graphIdx, next, rest, e);
      }
    }
  }

  /**
   * Once an entry of an own graph has matured, every block without a due slash and every retry of the run asks
   * for its NACK exactly until that NACK is recorded; a block with a due slash answers with the slash alone.
   */
  lemma NackAskedExactly(setup: Setup, s: State, events: seq<Event>, e: Entry, i: nat)
    requires setup.IsOwnGraph() && setup.DistinctSlots() && e in s.entries && i < |events|
    requires Rising(setup, s, events) && Eligible(setup, setup.ownerIdx, s.nacked, s.tip, e)
    ensures var answer := Answer(setup, Run(setup, s, events[..i]), events[i]);
      var duty := PublishNack(setup.Resolve(setup.ownerIdx, e.counterprover).value);
      match events[i]
      case Block(_, due) =>
        if due.slash then answer == Ok([Slash])
        else answer.Ok? && (duty in answer.value <==> Nacked(e.counterprover) !in events[..i])
      case RetryTick(_) => answer.Ok? && (duty in answer.value <==> Nacked(e.counterprover) !in events[..i])
      case _ => true
  {
    var before := Run(setup, s, events[..i]);
    var duty := PublishNack(setup.Resolve(setup.ownerIdx, e.counterprover).value);
    RisingAt(setup, s, events, i);
    EligibleUntilNacked(setup, setup.ownerIdx, s, events[..i], e);
    EntriesExactly(setup, s, events[..i], e);
    var tip := if events[i].Block? then events[i].height else before.tip;
    DutyExactly(setup, before, tip, e, Nacked(e.counterprover) in events[..i]);
  }

  lemma DutyExactly(setup: Setup, s: State, tip: u64, e: Entry, done: bool)
    requires setup.DistinctSlots() && e in s.entries && tip >= s.tip
    requires setup.Resolve(setup.ownerIdx, e.counterprover).Some?
    requires if done then e.counterprover in s.nacked else Eligible(setup, setup.ownerIdx, s.nacked, s.tip, e)
    ensures var duty := PublishNack(setup.Resolve(setup.ownerIdx, e.counterprover).value);
      duty in Nacks(setup, setup.ownerIdx, s.nacked, tip, s.entries) <==> !done
  {
    var duty := PublishNack(setup.Resolve(setup.ownerIdx, e.counterprover).value);
    NacksExactly(setup, setup.ownerIdx, s.nacked, tip, s.entries, duty);
    if done {
      forall i | 0 <= i < |s.entries|
        ensures !Asks(setup, setup.ownerIdx, s.nacked, tip, s.entries[i], duty)
      {
        var other := s.entries[i].counterprover;
        if setup.Resolve(setup.ownerIdx, other) == setup.Resolve(setup.ownerIdx, e.counterprover) {
          assert setup.slotFor(setup.ownerIdx, other) == setup.slotFor(setup.ownerIdx, e.counterprover);
          assert other == e.counterprover;
        }
      }
    } else {
      var i :| 0 <= i < |s.entries| && s.entries[i] == e;
      MatureExactly(tip, e.confHeight, setup.nackTimelock);
      assert Asks(setup, setup.ownerIdx, s.nacked, tip, s.entries[i], duty);
    }
  }

  // ---------------------------------------------------------------- the graph of another operator

  /** The slot of the own counterproof in the owner's graph, with a subgraph and signatures. */
  ghost predicate AckSlot(setup: Setup, slot: nat) {
    && setup.slotFor(setup.ownerIdx, setup.povIdx) == Some(slot)
    && slot < setup.gameSlots && slot < setup.signedSlots
  }

  /**
   * Once the own counterproof on another operator's graph is confirmed and the bridge proof refuted, every block
   * with no timeout due and every retry of the run asks for its acknowledgement exactly until its NACK is recorded.
   */
  lemma AckAskedExactly(setup: Setup, s: State, events: seq<Event>, i: nat, slot: nat)
    requires !setup.IsOwnGraph() && s.refuted && s.Confirmed(setup.povIdx) && setup.povIdx !in s.nacked
    requires AckSlot(setup, slot) && i < |events|
    ensures var answer := Answer(setup, Run(setup, s, events[..i]), events[i]);
      var asked := if Nacked(setup.povIdx) in events[..i] then [] else [ResolveAck(slot)];
      match events[i]
      case Block(_, due) => answer == Due(due, Ok(asked))
      case RetryTick(_) => answer == Ok(asked)
      case _ => true
  {
    NackedExactly(setup, s, events[..i], setup.povIdx);
    ConfirmedExactly(setup, s, events, i, setup.povIdx);
  }

  /** Without a usable slot blocks stay silent, while every retry until the NACK raises. */
  lemma NoSlotToAcknowledge(setup: Setup, s: State, events: seq<Event>, i: nat)
    requires !setup.IsOwnGraph() && s.refuted && s.Confirmed(setup.povIdx) && setup.povIdx !in s.nacked
    requires (forall slot :: !AckSlot(setup, slot)) && i < |events|
    ensures var answer := Answer(setup, Run(setup, s, events[..i]), events[i]);
      match events[i]
      case Block(_, due) => answer == Due(due, Ok([]))
      case RetryTick(_) => answer == if Nacked(setup.povIdx) in events[..i] then Ok([]) else Err
      case _ => true
  {
    NackedExactly(setup, s, events[..i], setup.povIdx);
    ConfirmedExactly(setup, s, events, i, setup.povIdx);
    var own := setup.slotFor(setup.ownerIdx, setup.povIdx);
    if own.Some? {
      assert !AckSlot(setup, own.value);
    }
  }

  /**
   * While the proof is refuted and the own counterproof not yet confirmed, blocks with no timeout due are silent and
   * every retry asks for the own counterproof at the last height, or raises when its duty cannot be built.
   */
  lemma CounterproofAskedExactly(setup: Setup, s: State, events: seq<Event>, i: nat)
    requires !setup.IsOwnGraph() && s.refuted && i < |events| && !ConfirmedBefore(setup, s, events, i, setup.povIdx)
    ensures var before := Run(setup, s, events[..i]);
      var answer := Answer(setup, before, events[i]);
      match events[i]
      case Block(_, due) => answer == Due(due, Ok([]))
      case RetryTick(counterable) => answer == if counterable then Ok([PotentialCounterproof(before.tip)]) else Err
      case _ => true
  {
    NackedExactly(setup, s, events[..i], setup.povIdx);
    ConfirmedExactly(setup, s, events, i, setup.povIdx);
  }

  /**
   * For a claim of another operator without a refuted proof, retries ask for nothing over the whole run. A block
   * with no timeout due asks for the bridge-proof timeout exactly beyond the contest height plus the proof timelock,
   * if the claim is not fulfilled either; a sum beyond 64 bits then aborts.
   */
  lemma ProofTimeoutExactly(setup: Setup, s: State, events: seq<Event>, i: nat)
    requires !setup.IsOwnGraph() && !s.refuted && i < |events|
    ensures var answer := Answer(setup, Run(setup, s, events[..i]), events[i]);
      var deadline := setup.contestHeight + setup.proofTimelock;
      match events[i]
      case Block(height, due) =>
        if s.fulfilled then answer == Due(due, Ok([]))
        else if deadline > U64_MAX then answer == Due(due, Err)
        else answer == Due(due, Ok(if height > deadline then [PublishBridgeProofTimeout] else []))
      case RetryTick(_) => answer == Ok([])
      case _ => true
  {
    NackedExactly(setup, s, events[..i], setup.povIdx);
  }
}
