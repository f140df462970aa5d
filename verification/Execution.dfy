/** The execution of one authorized slot, from its admission to its ledger record, and whole runs of executions. */
module Execution {
  import opened ByteStrings
  import opened FiniteSets
  import opened Sealing
  import opened Signatures
  import opened LabelTree
  import opened LabelRelease
  import opened Manifests
  import opened SlotLedger

  // ---------------------------------------------------------------- manifests, requests and the world around

  /** Everything execution calls: hash, pad expansion, curve, signatures, and the evaluator's parser and replay. */
  datatype World<!P, +R> = World(
    hash: Hash, expander: Expander, curve: Curve, scheme: Scheme,
    parse: (Bytes, int) -> Result<P>, replay: (P, Point, Bytes, Bytes) -> Result<R>)

  datatype Request = Request(
    manifest: Manifest, requiredKeys: seq<Bytes>, context: EvaluationContext, authorizer: Bytes,
    artifact: Bytes, profileBits: nat, nonceBase: int, release: Release) {

    ghost predicate Valid() {
      manifest.Valid() && context.Valid() && release.Valid()
    }
  }

  function ArtifactPreimage(slotId: nat, artifact: Bytes): Bytes {
    Ascii("ranklock/bounded-embryo-artifact-root/v1") + [0] + (BigEndian(slotId, 4) + artifact)
  }

  lemma ArtifactRootBinds(h: Hash, slotId: nat, a: Bytes, b: Bytes)
    requires h(ArtifactPreimage(slotId, a)) == h(ArtifactPreimage(slotId, b))
    requires CollisionFree(h, {ArtifactPreimage(slotId, a), ArtifactPreimage(slotId, b)})
    ensures a == b
  {
    var dom := Ascii("ranklock/bounded-embryo-artifact-root/v1") + [0];
    SplitEqual(dom, BigEndian(slotId, 4) + a, dom, BigEndian(slotId, 4) + b);
    SplitEqual(BigEndian(slotId, 4), a, BigEndian(slotId, 4), b);
  }

  function InputPreimage(release: Release): Bytes {
    Ascii("ranklock/authorized-input/v1") + [0] + release.point
  }

  function InputDigest(h: Hash, release: Release): Digest {
    h(InputPreimage(release))
  }

  function AuthorizationPreimage(release: Release, message: Digest): Bytes {
    Ascii("ranklock/authorized-release/v1") + [0] + (message + release.txid)
  }

  function AuthorizationDigest(h: Hash, release: Release, message: Digest): Digest {
    h(AuthorizationPreimage(release, message))
  }

  // ---------------------------------------------------------------- one execution

  /** The artifact is the one the manifest activated for the slot. */
  predicate Activated<P, R>(w: World<P, R>, q: Request)
    requires q.release.Valid()
  {
    var slots, r := q.manifest.body.slots, q.release;
    && r.slotId < |slots| && slots[r.slotId].slotId == r.slotId && slots[r.slotId].labelRoot == r.root
    && |q.artifact| == slots[r.slotId].artifactLength
    && w.hash(ArtifactPreimage(r.slotId, q.artifact)) == slots[r.slotId].artifactRoot
  }

  /** Everything that is checked before the slot is burned. */
  predicate Admitted<P, R>(w: World<P, R>, q: Request)
    requires q.Valid()
  {
    var context := q.context.ContextDigest(w.hash);
    && q.manifest.Verifies(w.hash, w.scheme, q.requiredKeys, context) && q.release.context == context
    && Activated(w, q) && q.release.SignedBy(w.hash, w.scheme, q.authorizer)
  }

  function OpenedLabels(openings: seq<Opening>): seq<Bytes> {
    seq(|openings|, i requires 0 <= i < |openings| => openings[i].text)
  }

  /** Everything that happens once the slot is burned. */
  function Evaluated<P, R>(w: World<P, R>, q: Request): Result<R>
    requires q.Valid() && w.expander.Lawful()
  {
    var root :- q.release.Reconstructed(w.hash, w.curve);
    if root != q.release.root then Err else
    var p :- w.curve.decompress(q.release.point);
    if w.curve.compress(p) != Ok(q.release.point) then Err else
    var plaintext :- OpenSlot(w.expander, q.artifact, q.context.ContextDigest(w.hash), q.release.slotId,
                              q.release.seed);
    ReplayOf(w, plaintext, q.nonceBase + q.release.slotId, p, OpenedLabels(q.release.openings), q.profileBits)
  }

  /** Parse the opened program, split the labels in halves of the profile's width, and replay. */
  function ReplayOf<P, R>(
    w: World<P, R>, plaintext: Bytes, namespace: int, p: Point, texts: seq<Bytes>, profileBits: nat): Result<R>
  {
    var program :- w.parse(plaintext, namespace);
    var labels, split := Concat(texts), profileBits * LABEL_BYTES;
    if |labels| != 2 * split then Err else
    w.replay(program, p, labels[..split], labels[split..])
  }

  datatype Attempt<+R> = Refused | Burned | Replayed(value: R, use: SlotUse)

  /** The record a request leaves in the ledger if its slot is still free. */
  function Recorded<P, R>(w: World<P, R>, q: Request): SlotUse
    requires q.Valid() && w.expander.Lawful() && Admitted(w, q)
  {
    SlotUse(q.release.slotId, q.context.ContextDigest(w.hash), InputDigest(w.hash, q.release),
            AuthorizationDigest(w.hash, q.release, q.release.SigningMessage(w.hash).value),
            if Evaluated(w, q).Ok? then "success" else "malformed")
  }

  /** A request that the ledger accepts whenever its slot is free. */
  predicate Eligible<P, R>(w: World<P, R>, scope: Scope, q: Request)
    requires q.Valid()
  {
    Admitted(w, q) && q.release.slotId < scope.slotCount && q.context.ContextDigest(w.hash) == scope.context
  }

  /** A request's claim on its slot, independent of what the ledger already holds. */
  function Ticket<P, R>(w: World<P, R>, scope: Scope, q: Request): (t: Option<SlotUse>)
    requires q.Valid() && w.expander.Lawful()
    ensures t.Some? <==> Eligible(w, scope, q)
    ensures t.Some? ==> t.value.slotId == q.release.slotId && TicketOk(scope, t.value)
  {
    if Eligible(w, scope, q) then Some(Recorded(w, q)) else None
  }

  ghost predicate TicketOk(scope: Scope, use: SlotUse) {
    && 0 <= use.slotId < scope.slotCount && scope.RecordOk(use.slotId, use)
    && (use.outcome == "success" || use.outcome == "malformed")
  }

  /** A ticket is honoured while its slot is unused. */
  predicate Honoured(uses: Uses, t: Option<SlotUse>) {
    t.Some? && t.value.slotId !in uses
  }

  function Take(uses: Uses, t: Option<SlotUse>): Uses {
    if Honoured(uses, t) then uses[t.value.slotId := t.value] else uses
  }

  function Attempted<P, R>(w: World<P, R>, scope: Scope, uses: Uses, q: Request): (a: Attempt<R>)
    requires q.Valid() && w.expander.Lawful()
    ensures a.Refused? <==> !Honoured(uses, Ticket(w, scope, q))
    ensures a.Replayed? <==> Honoured(uses, Ticket(w, scope, q)) && Ticket(w, scope, q).value.outcome == "success"
  {
    if !Honoured(uses, Ticket(w, scope, q)) then Refused
    else match Evaluated(w, q)
      case Ok(value) => Replayed(value, Recorded(w, q))
      case Err => Burned
  }

  /** The checks before the burn, in order: outsiders and inactive descriptors fail here. */
  method Admit<P, R>(w: World<P, R>, q: Request) returns (ok: bool)
    requires q.Valid()
    ensures ok == Admitted(w, q)
  {
    var h, release := w.hash, q.release;
    var context := q.context.ContextDigest(h);
    var verified := Verify(h, w.scheme, q.manifest, q.requiredKeys, context);
    if !verified {
      return false;
    }
    if release.context != context {
      return false;
    }
    if release.slotId >= |q.manifest.body.slots| {
      return false;
    }
    var descriptor := q.manifest.body.slots[release.slotId];
    if descriptor.slotId != release.slotId || descriptor.labelRoot != release.root {
      return false;
    }
    var artifactRoot := h(ArtifactPreimage(release.slotId, q.artifact));
    if |q.artifact| != descriptor.artifactLength || artifactRoot != descriptor.artifactRoot {
      return false;
    }
    return release.SignedBy(h, w.scheme, q.authorizer);
  }

  /** The ledger's own begin accepts exactly the honoured tickets, and finalizing by the evaluation gives the ticket. */
  lemma BeginHonours<P, R>(w: World<P, R>, scope: Scope, uses: Uses, q: Request)
    requires q.Valid() && w.expander.Lawful() && Admitted(w, q)
    ensures var h := w.hash;
      var begun := Begun(scope, uses, q.release.slotId, q.context.ContextDigest(h), InputDigest(h, q.release),
                         AuthorizationDigest(h, q.release, q.release.SigningMessage(h).value));
      var outcome := if Evaluated(w, q).Ok? then "success" else "malformed";
      && (begun.Ok? <==> Honoured(uses, Ticket(w, scope, q)))
      && (begun.Ok? ==> Ticket(w, scope, q) == Some(begun.value.(outcome := outcome)) && outcome in Allowed())
  {
  }

  /**
   * One execution. A refusal changes nothing; otherwise the slot is burned before anything in the release is
   * opened, and it ends as a success with its replay or as malformed.
   */
  method Execute<P, R>(w: World<P, R>, ledger: BoundedSlotLedger, q: Request) returns (a: Attempt<R>)
    requires q.Valid() && ledger.Valid() && w.expander.Lawful()
    modifies ledger
    ensures ledger.Valid()
    ensures a == Attempted(w, ledger.scope, old(ledger.uses), q)
    ensures ledger.uses == Take(old(ledger.uses), Ticket(w, ledger.scope, q))
    ensures a.Refused? ==> ledger.uses == old(ledger.uses)
    ensures a.Replayed? ==> ledger.Use(q.release.slotId) == Some(a.use)
  {
    var admitted := Admit(w, q);
    if !admitted {
      return Refused;
    }
    var h, release := w.hash, q.release;
    BeginHonours(w, ledger.scope, ledger.uses, q);
    var begun := ledger.Begin(release.slotId, q.context.ContextDigest(h), InputDigest(h, release),
                              AuthorizationDigest(h, release, release.SigningMessage(h).value));
    if begun.Err? {
      return Refused;
    }
    var outcome := Evaluate(w, q);
    var use := ledger.Finalize(release.slotId, if outcome.Ok? then "success" else "malformed");
    assert ledger.uses == Take(old(ledger.uses), Ticket(w, ledger.scope, q));
    return if outcome.Ok? then Replayed(outcome.value, use.value) else Burned;
  }

  /** The guarded part, step by step. */
  method Evaluate<P, R>(w: World<P, R>, q: Request) returns (r: Result<R>)
    requires q.Valid() && w.expander.Lawful()
    ensures r == Evaluated(w, q)
  {
    var release := q.release;
    var root := ReconstructRoot(w.hash, w.curve, release);
    if root != Ok(release.root) {
      return Err;
    }
    var p :- w.curve.decompress(release.point);
    if w.curve.compress(p) != Ok(release.point) {
      return Err;
    }
    var plaintext :- OpenSlot(w.expander, q.artifact, q.context.ContextDigest(w.hash), release.slotId, release.seed);
    r := Replay(w, plaintext, q.nonceBase + release.slotId, p, OpenedLabels(release.openings), q.profileBits);
  }

  /** Its last steps: parse the opened program, split the labels and replay. */
  method Replay<P, R>(w: World<P, R>, plaintext: Bytes, namespace: int, p: Point, texts: seq<Bytes>, profileBits: nat)
    returns (r: Result<R>)
    ensures r == ReplayOf(w, plaintext, namespace, p, texts, profileBits)
  {
    var program :- w.parse(plaintext, namespace);
    var labels, split := Concat(texts), profileBits * LABEL_BYTES;
    if |labels| != 2 * split {
      return Err;
    }
    r := w.replay(program, p, labels[..split], labels[split..]);
  }

  // ---------------------------------------------------------------- what is refused

  /** Other keys than the required ones, another context, an unfit lock or checksum, or a missing signature. */
  ghost predicate ManifestFlaw<P, R>(w: World<P, R>, q: Request)
    requires q.Valid()
  {
    var m := q.manifest;
    || multiset(q.requiredKeys) != multiset(m.body.contributors)
    || m.body.context != w.hash(q.context.Preimage())
    || |m.body.lock.masked| >= Pow256(4) || m.checksum != w.hash(m.ChecksumPreimage())
    || exists i ::
         0 <= i < |m.signatures|
         && !w.scheme.verify(w.hash(m.body.SigningPreimage()), m.body.contributors[i], m.signatures[i])
  }

  /** Another context or key, too many openings, or a signature that the authorizer's key does not verify. */
  ghost predicate ReleaseFlaw<P, R>(w: World<P, R>, q: Request)
    requires q.Valid()
  {
    var r := q.release;
    || r.context != w.hash(q.context.Preimage())
    || |q.authorizer| != 32 || r.pubkey != q.authorizer || r.InputBits() >= Pow256(2)
    || !w.scheme.verify(w.hash(r.SigningPreimage(w.hash)), q.authorizer, r.signature)
  }

  /** A slot without descriptor, or another tree or artifact than its descriptor activates. */
  ghost predicate ArtifactFlaw<P, R>(w: World<P, R>, q: Request)
    requires q.Valid()
  {
    var slots, r := q.manifest.body.slots, q.release;
    || r.slotId >= |slots| || r.root != slots[r.slotId].labelRoot
    || |q.artifact| != slots[r.slotId].artifactLength
    || w.hash(ArtifactPreimage(r.slotId, q.artifact)) != slots[r.slotId].artifactRoot
  }

  /** A slot that the ledger does not have or no longer has, or a ledger of another context. */
  ghost predicate LedgerFlaw<P, R>(w: World<P, R>, scope: Scope, uses: Uses, q: Request)
    requires q.Valid()
  {
    q.release.slotId >= scope.slotCount || q.release.slotId in uses || w.hash(q.context.Preimage()) != scope.context
  }

  lemma ManifestVerifiesExactly<P, R>(w: World<P, R>, q: Request)
    requires q.Valid()
    ensures q.manifest.Verifies(w.hash, w.scheme, q.requiredKeys, q.context.ContextDigest(w.hash))
      <==> !ManifestFlaw(w, q)
  {
  }

  lemma ReleaseSignedExactly<P, R>(w: World<P, R>, q: Request)
    requires q.Valid()
    ensures q.release.context == q.context.ContextDigest(w.hash) && q.release.SignedBy(w.hash, w.scheme, q.authorizer)
      <==> !ReleaseFlaw(w, q)
  {
  }

  lemma ActivatedExactly<P, R>(w: World<P, R>, q: Request)
    requires q.Valid()
    ensures Activated(w, q) <==> !ArtifactFlaw(w, q)
  {
  }

  /** An execution is refused exactly for one of these flaws: every single check counts. */
  lemma RefusedExactly<P, R>(w: World<P, R>, scope: Scope, uses: Uses, q: Request)
    requires q.Valid() && w.expander.Lawful()
    ensures Attempted(w, scope, uses, q).Refused?
      <==> ManifestFlaw(w, q) || ReleaseFlaw(w, q) || ArtifactFlaw(w, q) || LedgerFlaw(w, scope, uses, q)
  {
    ManifestVerifiesExactly(w, q);
    ReleaseSignedExactly(w, q);
    ActivatedExactly(w, q);
    RefusedBySteps(w, scope, uses, q);
  }

  lemma RefusedBySteps<P, R>(w: World<P, R>, scope: Scope, uses: Uses, q: Request)
    requires q.Valid() && w.expander.Lawful()
    ensures Attempted(w, scope, uses, q).Refused?
      <==> || !q.manifest.Verifies(w.hash, w.scheme, q.requiredKeys, q.context.ContextDigest(w.hash))
           || q.release.context != q.context.ContextDigest(w.hash) || !Activated(w, q)
           || !q.release.SignedBy(w.hash, w.scheme, q.authorizer) || LedgerFlaw(w, scope, uses, q)
  {
  }

  // ---------------------------------------------------------------- whole runs

  type Tickets = seq<Option<SlotUse>>

  function Final(uses: Uses, ts: Tickets): Uses {
    if ts == [] then uses else Take(Final(uses, ts[..|ts| - 1]), ts[|ts| - 1])
  }

  /** The first ticket of a run for a slot. */
  function First(ts: Tickets, k: int): (c: Option<nat>)
    ensures c.Some? ==> c.value < |ts| && ts[c.value].Some? && ts[c.value].value.slotId == k
    ensures forall i :: 0 <= i < |ts| && (c.Some? ==> i < c.value) ==> ts[i].None? || ts[i].value.slotId != k
  {
    if ts == [] then None
    else
      var last := |ts| - 1;
      match First(ts[..last], k)
      case Some(i) => Some(i)
      case None => if ts[last].Some? && ts[last].value.slotId == k then Some(last) else None
  }

  lemma {:induction false} FinalExactly(uses: Uses, ts: Tickets, k: int)
    ensures k in Final(uses, ts) <==> k in uses || First(ts, k).Some?
    ensures k in uses ==> Final(uses, ts)[k] == uses[k]
    ensures k !in uses && First(ts, k).Some? ==>
      k in Final(uses, ts) && Some(Final(uses, ts)[k]) == ts[First(ts, k).value]
  {
    if ts == [] {
    } else {
      FinalExactly(uses, ts[..|ts| - 1], k);
    }
  }

  ghost predicate AllValid(qs: seq<Request>) {
    forall i :: 0 <= i < |qs| ==> qs[i].Valid()
  }

  ghost function TicketsOf<P, R>(w: World<P, R>, scope: Scope, qs: seq<Request>): (ts: Tickets)
    requires AllValid(qs) && w.expander.Lawful()
    ensures |ts| == |qs| && forall i :: 0 <= i < |qs| ==> ts[i] == Ticket(w, scope, qs[i])
  {
    seq(|qs|, i requires 0 <= i < |qs| => Ticket(w, scope, qs[i]))
  }

  /** The ledger after executing a run of requests. */
  ghost function Ledger<P, R>(w: World<P, R>, scope: Scope, uses: Uses, qs: seq<Request>): Uses
    requires AllValid(qs) && w.expander.Lawful()
  {
    Final(uses, TicketsOf(w, scope, qs))
  }

  /** Executing one more request takes its ticket. */
  lemma LedgerStep<P, R>(w: World<P, R>, scope: Scope, uses: Uses, qs: seq<Request>, n: nat)
    requires AllValid(qs) && w.expander.Lawful() && n < |qs|
    ensures Ledger(w, scope, uses, qs[..n + 1]) == Take(Ledger(w, scope, uses, qs[..n]), Ticket(w, scope, qs[n]))
  {
    var front, longer := TicketsOf(w, scope, qs[..n]), TicketsOf(w, scope, qs[..n + 1]);
    assert longer[..n] == front && longer[n] == Ticket(w, scope, qs[n]);
    FinalStep(uses, longer);
  }

  lemma FinalStep(uses: Uses, ts: Tickets)
    requires ts != []
    ensures Final(uses, ts) == Take(Final(uses, ts[..|ts| - 1]), ts[|ts| - 1])
  {
  }

  /** What request i of a run is told. */
  ghost function Told<P, R>(w: World<P, R>, scope: Scope, uses: Uses, qs: seq<Request>, i: nat): Attempt<R>
    requires AllValid(qs) && w.expander.Lawful() && i < |qs|
  {
    Attempted(w, scope, Ledger(w, scope, uses, qs[..i]), qs[i])
  }

  /** What every request of a run is told. */
  ghost function ToldAll<P, R>(w: World<P, R>, scope: Scope, uses: Uses, qs: seq<Request>): (told: seq<Attempt<R>>)
    requires AllValid(qs) && w.expander.Lawful()
    ensures |told| == |qs|
  {
    seq(|qs|, i requires 0 <= i < |qs| => Told(w, scope, uses, qs, i))
  }

  lemma ToldAt<P, R>(w: World<P, R>, scope: Scope, uses: Uses, qs: seq<Request>, i: nat)
    requires AllValid(qs) && w.expander.Lawful() && i < |qs|
    ensures ToldAll(w, scope, uses, qs)[i] == Told(w, scope, uses, qs, i)
  {
  }

  lemma ToldStep<P, R>(
    w: World<P, R>, scope: Scope, uses: Uses, qs: seq<Request>, n: nat, told: seq<Attempt<R>>, next: Attempt<R>)
    requires AllValid(qs) && w.expander.Lawful() && n < |qs|
    requires told == ToldAll(w, scope, uses, qs)[..n] && next == Told(w, scope, uses, qs, n)
    ensures told + [next] == ToldAll(w, scope, uses, qs)[..n + 1]
  {
    ToldAt(w, scope, uses, qs, n);
    PrefixGrows(ToldAll(w, scope, uses, qs), n, told, next);
  }

  lemma PrefixGrows<T>(all: seq<T>, n: nat, prefix: seq<T>, next: T)
    requires n < |all| && prefix == all[..n] && next == all[n]
    ensures prefix + [next] == all[..n + 1]
  {
  }

  /** A client that executes requests one after the other against one ledger. */
  method ExecuteAll<P, R>(w: World<P, R>, ledger: BoundedSlotLedger, qs: seq<Request>) returns (told: seq<Attempt<R>>)
    requires AllValid(qs) && ledger.Valid() && w.expander.Lawful()
    modifies ledger
    ensures ledger.Valid() && ledger.uses == Ledger(w, ledger.scope, old(ledger.uses), qs)
    ensures told == ToldAll(w, ledger.scope, old(ledger.uses), qs)
  {
    told := [];
    for n := 0 to |qs|
      invariant ledger.Valid() && ledger.uses == Ledger(w, ledger.scope, old(ledger.uses), qs[..n])
      invariant told == ToldAll(w, ledger.scope, old(ledger.uses), qs)[..n]
    {
      LedgerStep(w, ledger.scope, old(ledger.uses), qs, n);
      var attempt := Execute(w, ledger, qs[n]);
      ToldStep(w, ledger.scope, old(ledger.uses), qs, n, told, attempt);
      told := told + [attempt];
    }
    assert qs[..|qs|] == qs;
  }

  /**
   * The ledger after any run, slot by slot: a slot that was used keeps its record; a free one is used exactly
   * when some request of the run could claim it, and then records the first such request and how it evaluated.
   */
  lemma LedgerExactly<P, R>(w: World<P, R>, scope: Scope, uses: Uses, qs: seq<Request>, k: int)
    requires AllValid(qs) && w.expander.Lawful()
    ensures var final := Ledger(w, scope, uses, qs);
      && (k in final <==> k in uses || exists i :: 0 <= i < |qs| && Claims(w, scope, qs[i], k))
      && (k in uses ==> final[k] == uses[k])
    ensures var final := Ledger(w, scope, uses, qs);
      k in final && k !in uses ==>
        exists i :: 0 <= i < |qs| && Claims(w, scope, qs[i], k) && Ticket(w, scope, qs[i]) == Some(final[k])
          && forall j :: 0 <= j < i ==> !Claims(w, scope, qs[j], k)
  {
    FinalExactly(uses, TicketsOf(w, scope, qs), k);
    FirstClaims(w, scope, qs, k);
  }

  /** The first ticket for a slot is that of the first request that can claim it. */
  lemma FirstClaims<P, R>(w: World<P, R>, scope: Scope, qs: seq<Request>, k: int)
    requires AllValid(qs) && w.expander.Lawful()
    ensures match First(TicketsOf(w, scope, qs), k)
      case Some(c) => Claims(w, scope, qs[c], k) && forall j :: 0 <= j < c ==> !Claims(w, scope, qs[j], k)
      case None => forall j :: 0 <= j < |qs| ==> !Claims(w, scope, qs[j], k)
  {
    var ts := TicketsOf(w, scope, qs);
    forall j | 0 <= j < |qs|
      ensures Claims(w, scope, qs[j], k) <==> ts[j].Some? && ts[j].value.slotId == k
    {
      assert ts[j] == Ticket(w, scope, qs[j]);
    }
  }

  ghost predicate Claims<P, R>(w: World<P, R>, scope: Scope, q: Request, k: int)
    requires q.Valid() && w.expander.Lawful()
  {
    Ticket(w, scope, q).Some? && q.release.slotId == k
  }

  /**
   * A request of a run is served exactly when it can claim its slot, the slot was free at the start, and no
   * earlier request could claim it.
   */
  lemma ServedExactly<P, R>(w: World<P, R>, scope: Scope, uses: Uses, qs: seq<Request>, i: nat)
    requires AllValid(qs) && w.expander.Lawful() && i < |qs|
    ensures var k := qs[i].release.slotId;
      !Told(w, scope, uses, qs, i).Refused?
      <==> Claims(w, scope, qs[i], k) && k !in uses && forall j :: 0 <= j < i ==> !Claims(w, scope, qs[j], k)
  {
    var k := qs[i].release.slotId;
    LedgerExactly(w, scope, uses, qs[..i], k);
    assert forall j :: 0 <= j < i ==> qs[..i][j] == qs[j];
  }

  /** So no slot is served twice in any run. */
  lemma ServedOnce<P, R>(w: World<P, R>, scope: Scope, uses: Uses, qs: seq<Request>, i: nat, j: nat)
    requires AllValid(qs) && w.expander.Lawful() && i < j < |qs|
    requires !Told(w, scope, uses, qs, i).Refused? && !Told(w, scope, uses, qs, j).Refused?
    ensures qs[i].release.slotId != qs[j].release.slotId
  {
    ServedExactly(w, scope, uses, qs, i);
    ServedExactly(w, scope, uses, qs, j);
  }

  ghost predicate Finished(uses: Uses) {
    forall k :: k in uses ==> uses[k].outcome == "success" || uses[k].outcome == "malformed"
  }

  ghost function Successes(uses: Uses): set<int> {
    set k | k in uses && uses[k].outcome == "success"
  }

  /** The ticket at a position of a run is honoured when its turn comes. */
  ghost predicate HonouredAt(uses: Uses, ts: Tickets, i: nat)
    requires i < |ts|
  {
    Honoured(Final(uses, ts[..i]), ts[i])
  }

  /** Positions of a run whose request is served, and those that also replay. */
  ghost function Served(uses: Uses, ts: Tickets): set<nat> {
    set i: nat | i < |ts| && HonouredAt(uses, ts, i)
  }

  ghost function Replays(uses: Uses, ts: Tickets): set<nat> {
    set i | i in Served(uses, ts) && ts[i].value.outcome == "success"
  }

  lemma TakeCounts(scope: Scope, uses: Uses, t: Option<SlotUse>)
    requires scope.Holds(uses) && Finished(uses) && (t.Some? ==> TicketOk(scope, t.value))
    ensures scope.Holds(Take(uses, t)) && Finished(Take(uses, t))
    ensures |Take(uses, t)| == |uses| + (if Honoured(uses, t) then 1 else 0)
    ensures |Successes(Take(uses, t))|
      == |Successes(uses)| + (if Honoured(uses, t) && t.value.outcome == "success" then 1 else 0)
  {
    if Honoured(uses, t) {
      var next, k := Take(uses, t), t.value.slotId;
      assert next.Keys == uses.Keys + {k};
      assert |next| == |next.Keys| && |uses| == |uses.Keys|;
      SuccessesAfter(uses, t.value);
    }
  }

  lemma SuccessesAfter(uses: Uses, use: SlotUse)
    requires use.slotId !in uses
    ensures var next := uses[use.slotId := use];
      Successes(next) == if use.outcome == "success" then Successes(uses) + {use.slotId} else Successes(uses)
  {
  }

  lemma AddPosition(a: set<nat>, b: set<nat>, n: nat, extra: bool)
    requires forall i :: i in a ==> i < n
    requires forall i :: i in b <==> i in a || (extra && i == n)
    ensures |b| == |a| + if extra then 1 else 0
  {
    assert b == if extra then a + {n} else a;
  }

  lemma HonouredBefore(uses: Uses, ts: Tickets, t: Option<SlotUse>, i: nat)
    requires i <= |ts|
    ensures HonouredAt(uses, ts + [t], i) == if i < |ts| then HonouredAt(uses, ts, i) else Honoured(Final(uses, ts), t)
  {
    assert (ts + [t])[..i] == ts[..i];
    assert ts[..|ts|] == ts;
  }

  lemma ServedGrows(uses: Uses, ts: Tickets, t: Option<SlotUse>)
    ensures var honoured := Honoured(Final(uses, ts), t);
      && |Served(uses, ts + [t])| == |Served(uses, ts)| + (if honoured then 1 else 0)
      && |Replays(uses, ts + [t])| == |Replays(uses, ts)| + (if honoured && t.value.outcome == "success" then 1 else 0)
  {
    var honoured := Honoured(Final(uses, ts), t);
    forall i: nat
      ensures i in Served(uses, ts + [t]) <==> i in Served(uses, ts) || (honoured && i == |ts|)
    {
      if i <= |ts| { HonouredBefore(uses, ts, t, i); }
    }
    AddPosition(Served(uses, ts), Served(uses, ts + [t]), |ts|, honoured);
    AddPosition(Replays(uses, ts), Replays(uses, ts + [t]), |ts|, honoured && t.value.outcome == "success");
  }

  lemma {:induction false} FinalCounts(scope: Scope, uses: Uses, ts: Tickets)
    requires scope.Holds(uses) && Finished(uses)
    requires forall i :: 0 <= i < |ts| && ts[i].Some? ==> TicketOk(scope, ts[i].value)
    ensures scope.Holds(Final(uses, ts)) && Finished(Final(uses, ts))
    ensures |Final(uses, ts)| == |uses| + |Served(uses, ts)|
    ensures |Successes(Final(uses, ts))| == |Successes(uses)| + |Replays(uses, ts)|
  {
    if ts == [] {
      assert Served(uses, ts) == {} && Replays(uses, ts) == {};
    } else {
      var last := |ts| - 1;
      FinalCounts(scope, uses, ts[..last]);
      TakeCounts(scope, Final(uses, ts[..last]), ts[last]);
      ServedGrows(uses, ts[..last], ts[last]);
      assert ts[..last] + [ts[last]] == ts;
    }
  }

  ghost function Serves<P, R>(w: World<P, R>, scope: Scope, uses: Uses, qs: seq<Request>): set<nat>
    requires AllValid(qs) && w.expander.Lawful()
  {
    set i: nat | i < |qs| && !Told(w, scope, uses, qs, i).Refused?
  }

  ghost function ReplaysIn<P, R>(w: World<P, R>, scope: Scope, uses: Uses, qs: seq<Request>): set<nat>
    requires AllValid(qs) && w.expander.Lawful()
  {
    set i: nat | i < |qs| && Told(w, scope, uses, qs, i).Replayed?
  }

  lemma ToldByTicket<P, R>(w: World<P, R>, scope: Scope, uses: Uses, qs: seq<Request>, i: nat)
    requires AllValid(qs) && w.expander.Lawful() && i < |qs|
    ensures var ts := TicketsOf(w, scope, qs);
      && (!Told(w, scope, uses, qs, i).Refused? <==> HonouredAt(uses, ts, i))
      && (Told(w, scope, uses, qs, i).Replayed? <==> HonouredAt(uses, ts, i) && ts[i].value.outcome == "success")
  {
    assert TicketsOf(w, scope, qs[..i]) == TicketsOf(w, scope, qs)[..i];
  }

  /**
   * Over every run from a ledger at rest: every slot in use ends as a success or as malformed, the slots in use
   * grow by exactly the served requests and the successful ones by exactly the replays; so no run replays more
   * often than the ledger has slots.
   */
  lemma RunAccounting<P, R>(w: World<P, R>, scope: Scope, uses: Uses, qs: seq<Request>)
    requires AllValid(qs) && w.expander.Lawful() && scope.Valid() && scope.Holds(uses) && Finished(uses)
    ensures var final := Ledger(w, scope, uses, qs);
      && scope.Holds(final) && Finished(final)
      && |final| == |uses| + |Serves(w, scope, uses, qs)| <= scope.slotCount
      && |Successes(final)| == |Successes(uses)| + |ReplaysIn(w, scope, uses, qs)| <= scope.slotCount
  {
    var ts := TicketsOf(w, scope, qs);
    FinalCounts(scope, uses, ts);
    forall i: nat | i < |qs|
      ensures i in Serves(w, scope, uses, qs) <==> i in Served(uses, ts)
      ensures i in ReplaysIn(w, scope, uses, qs) <==> i in Replays(uses, ts)
    {
      ToldByTicket(w, scope, uses, qs, i);
    }
    assert Serves(w, scope, uses, qs) == Served(uses, ts);
    assert ReplaysIn(w, scope, uses, qs) == Replays(uses, ts);
    SuccessesBounded(scope, Final(uses, ts));
  }

  lemma SuccessesBounded(scope: Scope, uses: Uses)
    requires scope.Valid() && scope.Holds(uses)
    ensures |Successes(uses)| <= |uses| <= scope.slotCount
  {
    UsesBounded(scope, uses);
    SubsetSize(Successes(uses), uses.Keys);
    assert |uses| == |uses.Keys|;
  }

  // ---------------------------------------------------------------- end to end

  /** What setup produced for one slot. */
  datatype Setup = Setup(tree: Tree, plaintext: Bytes, artifact: Bytes) {
    /**
     * The tree roots its own pairs, the artifact seals the plaintext under the tree's seed, and the manifest
     * activates both.
     */
    ghost predicate Honest<P, R>(w: World<P, R>, m: Manifest)
      requires w.expander.Lawful()
    {
      var slots := m.body.slots;
      && tree.Consistent(w.hash)
      && SealSlot(w.expander, plaintext, tree.context, tree.slotId, tree.seed) == Ok(artifact)
      && tree.slotId < |slots| && slots[tree.slotId].slotId == tree.slotId
      && slots[tree.slotId].labelRoot == tree.root && slots[tree.slotId].artifactLength == |artifact|
      && slots[tree.slotId].artifactRoot == w.hash(ArtifactPreimage(tree.slotId, artifact))
    }

    ghost function ChosenAt(p: Point, i: nat): Bytes
      requires tree.Valid() && p.Affine? && i < |tree.pairs|
    {
      Choose(tree.pairs[i], Selected(p, i, tree.inputBits))
    }

    /** The labels that bits lo up to hi of the point choose among the setup pairs. */
    ghost function ChosenLabels(p: Point, lo: nat, hi: nat): (s: seq<Bytes>)
      requires tree.Valid() && p.Affine? && lo <= hi <= |tree.pairs|
      ensures |s| == hi - lo
    {
      seq(hi - lo, i requires 0 <= i < hi - lo => ChosenAt(p, lo + i))
    }

    /** The result that setup and the point alone determine. */
    ghost function Expected<P, R>(w: World<P, R>, point: Bytes, profileBits: nat, nonceBase: int): Result<R>
      requires tree.Valid()
    {
      var p :- w.curve.Canonical(point);
      var program :- w.parse(plaintext, nonceBase + tree.slotId);
      if tree.inputBits != profileBits then Err else
      w.replay(program, p, Concat(ChosenLabels(p, 0, tree.inputBits)),
               Concat(ChosenLabels(p, tree.inputBits, 2 * tree.inputBits)))
    }
  }

  lemma {:induction false} ConcatAppend(a: seq<Bytes>, b: seq<Bytes>)
    ensures Concat(a + b) == Concat(a) + Concat(b)
  {
    if a == [] {
      assert a + b == b;
    } else {
      assert (a + b)[1..] == a[1..] + b;
      ConcatAppend(a[1..], b);
    }
  }

  lemma ChosenInOrder(h: Hash, s: Setup, p: Point, r: Release)
    requires s.tree.Valid() && p.Affine? && r.Valid() && Opens(h, s.tree, p, r)
    ensures OpenedLabels(r.openings) == s.ChosenLabels(p, 0, 2 * s.tree.inputBits)
    ensures AllOfWidth(s.ChosenLabels(p, 0, 2 * s.tree.inputBits), LABEL_BYTES)
  {
    forall i | 0 <= i < |s.tree.pairs|
      ensures OpenedLabels(r.openings)[i] == s.ChosenAt(p, i) && |s.ChosenAt(p, i)| == LABEL_BYTES
    {
      assert OpensPair(h, s.tree, p, i, r.openings[i]);
    }
  }

  lemma ChosenCut(s: Setup, p: Point, k: nat)
    requires s.tree.Valid() && p.Affine? && k <= |s.tree.pairs|
    requires AllOfWidth(s.ChosenLabels(p, 0, |s.tree.pairs|), LABEL_BYTES)
    ensures var labels := Concat(s.ChosenLabels(p, 0, |s.tree.pairs|));
      && |labels| == |s.tree.pairs| * LABEL_BYTES && k * LABEL_BYTES <= |labels|
      && labels[..k * LABEL_BYTES] == Concat(s.ChosenLabels(p, 0, k))
      && labels[k * LABEL_BYTES..] == Concat(s.ChosenLabels(p, k, |s.tree.pairs|))
  {
    var n := |s.tree.pairs|;
    var all, x, y := s.ChosenLabels(p, 0, n), s.ChosenLabels(p, 0, k), s.ChosenLabels(p, k, n);
    assert x == all[..k] && y == all[k..] && all == x + y;
    ConcatAppend(x, y);
    ConcatLength(all, LABEL_BYTES);
    ConcatLength(x, LABEL_BYTES);
  }

  /** A release with a canonical point that opens the setup tree there. */
  ghost predicate HonestlyOpens<P, R>(w: World<P, R>, s: Setup, r: Release)
    requires s.tree.Valid()
  {
    r.Valid() && w.curve.Canonical(r.point).Ok? && Opens(w.hash, s.tree, w.curve.Canonical(r.point).value, r)
  }

  lemma ReplayOfSetup<P, R>(w: World<P, R>, s: Setup, p: Point, r: Release, profileBits: nat, nonceBase: int)
    requires s.tree.Valid() && r.Valid() && w.curve.Canonical(r.point) == Ok(p) && Opens(w.hash, s.tree, p, r)
    ensures ReplayOf(w, s.plaintext, nonceBase + s.tree.slotId, p, OpenedLabels(r.openings), profileBits)
      == s.Expected(w, r.point, profileBits, nonceBase)
  {
    ChosenInOrder(w.hash, s, p, r);
    ChosenCut(s, p, s.tree.inputBits);
  }

  /** The setup artifact, opened by a release of the setup tree, evaluates as setup and the point say. */
  lemma OpeningEvaluates<P, R>(w: World<P, R>, s: Setup, q: Request)
    requires q.Valid() && w.expander.Lawful() && s.Honest(w, q.manifest) && HonestlyOpens(w, s, q.release)
    requires q.release.root == s.tree.root && q.artifact == s.artifact
    requires q.context.ContextDigest(w.hash) == s.tree.context
    ensures Evaluated(w, q) == s.Expected(w, q.release.point, q.profileBits, q.nonceBase)
  {
    var p := w.curve.Canonical(q.release.point).value;
    OpeningReconstructs(w.hash, w.curve, s.tree, q.release);
    OpenUndoesSeal(w.expander, s.plaintext, s.tree.context, s.tree.slotId, s.tree.seed);
    ReplayOfSetup(w, s, p, q.release, q.profileBits, q.nonceBase);
  }

  /** Every string hashed on both sides of the binding argument. */
  ghost function BindingQueries<P, R>(w: World<P, R>, s: Setup, q: Request): set<Bytes>
    requires s.tree.Valid() && s.tree.inputBits < Pow256(2) && q.Valid()
  {
    s.tree.Queries(w.hash)
    + match w.curve.Canonical(q.release.point)
      case Err => {}
      case Ok(p) => if q.release.InputBits() < Pow256(2) then q.release.Queries(w.hash, p) else {}
  }

  ghost function ArtifactQueries(s: Setup, q: Request): set<Bytes> {
    {ArtifactPreimage(s.tree.slotId, q.artifact), ArtifactPreimage(s.tree.slotId, s.artifact)}
  }

  /** Admission ties a request to the descriptor that setup activated. */
  lemma AdmittedMatchesSetup<P, R>(w: World<P, R>, s: Setup, q: Request)
    requires q.Valid() && w.expander.Lawful() && s.Honest(w, q.manifest)
    requires Admitted(w, q) && q.release.slotId == s.tree.slotId
    requires CollisionFree(w.hash, ArtifactQueries(s, q))
    ensures q.artifact == s.artifact && q.release.root == s.tree.root
    ensures q.release.context == q.context.ContextDigest(w.hash)
  {
    assert Activated(w, q);
    ArtifactRootBinds(w.hash, s.tree.slotId, q.artifact, s.artifact);
  }

  lemma RootCheckGuards<P, R>(w: World<P, R>, q: Request)
    requires q.Valid() && w.expander.Lawful() && Evaluated(w, q).Ok?
    ensures q.release.Reconstructed(w.hash, w.curve) == Ok(q.release.root)
  {
  }

  /**
   * Without collisions, an admitted request for an honestly set up slot opens the setup tree when it passes the
   * root check, and then evaluates to exactly what setup and the point determine; otherwise it fails. No release
   * can bring in another seed, label, program or number of openings.
   */
  lemma EvaluationBound<P, R>(w: World<P, R>, s: Setup, q: Request)
    requires q.Valid() && w.expander.Lawful() && s.Honest(w, q.manifest)
    requires Admitted(w, q) && q.release.slotId == s.tree.slotId
    requires CollisionFree(w.hash, BindingQueries(w, s, q)) && CollisionFree(w.hash, ArtifactQueries(s, q))
    ensures
      if q.release.Reconstructed(w.hash, w.curve) == Ok(q.release.root)
      then
        && HonestlyOpens(w, s, q.release)
        && Evaluated(w, q) == s.Expected(w, q.release.point, q.profileBits, q.nonceBase)
      else Evaluated(w, q).Err?
  {
    AdmittedMatchesSetup(w, s, q);
    if q.release.Reconstructed(w.hash, w.curve) == Ok(q.release.root) {
      ReleaseBinding(w.hash, w.curve, s.tree, q.release);
      OpeningEvaluates(w, s, q);
    } else if Evaluated(w, q).Ok? {
      RootCheckGuards(w, q);
    }
  }

  /** Two successful executions of one slot at one point, in whatever ledgers, return the same replay. */
  lemma ReplayDetermined<P, R>(w: World<P, R>, s: Setup, q: Request, q': Request)
    requires q.Valid() && q'.Valid() && w.expander.Lawful() && Admitted(w, q) && Admitted(w, q')
    requires s.Honest(w, q.manifest) && s.Honest(w, q'.manifest)
    requires q.release.slotId == s.tree.slotId == q'.release.slotId
    requires q.release.point == q'.release.point && q.profileBits == q'.profileBits && q.nonceBase == q'.nonceBase
    requires Evaluated(w, q).Ok? && Evaluated(w, q').Ok?
    requires CollisionFree(w.hash, BindingQueries(w, s, q)) && CollisionFree(w.hash, BindingQueries(w, s, q'))
    requires CollisionFree(w.hash, ArtifactQueries(s, q)) && CollisionFree(w.hash, ArtifactQueries(s, q'))
    ensures Evaluated(w, q) == Evaluated(w, q')
  {
    RootCheckGuards(w, q);
    RootCheckGuards(w, q');
    EvaluationBound(w, s, q);
    EvaluationBound(w, s, q');
  }

  /** An honestly issued release of an honestly set up slot is served on a fresh slot, with the expected replay. */
  lemma HonestReleaseSucceeds<P, R>(w: World<P, R>, scope: Scope, uses: Uses, s: Setup, q: Request, secret: int)
    requires q.Valid() && w.expander.Lawful() && w.scheme.Correct() && s.Honest(w, q.manifest)
    requires q.manifest.Verifies(w.hash, w.scheme, q.requiredKeys, s.tree.context)
    requires q.context.ContextDigest(w.hash) == s.tree.context
    requires q.artifact == s.artifact && w.scheme.publicKey(secret) == Ok(q.authorizer)
    requires q.profileBits == s.tree.inputBits
    requires q.release.root == s.tree.root && q.release.pubkey == q.authorizer && HonestlyOpens(w, s, q.release)
    requires w.scheme.sign(q.release.SigningMessage(w.hash).value, secret) == Ok(q.release.signature)
    requires scope.context == s.tree.context && s.tree.slotId < scope.slotCount && s.tree.slotId !in uses
    ensures var expected := s.Expected(w, q.release.point, q.profileBits, q.nonceBase);
      var a := Attempted(w, scope, uses, q);
      if expected.Ok? then a.Replayed? && a.value == expected.value && a.use.outcome == "success" else a.Burned?
  {
    OpeningEvaluates(w, s, q);
  }

  // ---------------------------------------------------------------- what a ledger record names

  /** Two admitted requests with one recorded authorization carry one release, up to its signature. */
  lemma RecordNamesRelease<P, R>(w: World<P, R>, q: Request, q': Request)
    requires q.Valid() && q'.Valid() && w.expander.Lawful() && Admitted(w, q) && Admitted(w, q')
    requires Recorded(w, q).authorization == Recorded(w, q').authorization
    requires CollisionFree(w.hash, RecordQueries(w.hash, q.release) + RecordQueries(w.hash, q'.release))
    ensures q.release == q'.release.(signature := q.release.signature)
  {
    SameAuthorization(w.hash, q.release, q'.release);
  }

  /** And two with one recorded input digest were made for one point. */
  lemma RecordNamesPoint<P, R>(w: World<P, R>, q: Request, q': Request)
    requires q.Valid() && q'.Valid() && w.expander.Lawful() && Admitted(w, q) && Admitted(w, q')
    requires Recorded(w, q).input == Recorded(w, q').input
    requires CollisionFree(w.hash, {InputPreimage(q.release), InputPreimage(q'.release)})
    ensures q.release.point == q'.release.point
  {
    var dom := Ascii("ranklock/authorized-input/v1") + [0];
    SplitEqual(dom, q.release.point, dom, q'.release.point);
  }

  ghost function RecordQueries(h: Hash, r: Release): set<Bytes>
    requires r.Valid()
  {
    SigningQueries(h, r) + if r.SigningMessage(h).Ok? then {AuthorizationPreimage(r, r.SigningMessage(h).value)} else {}
  }

  lemma SameAuthorization(h: Hash, a: Release, b: Release)
    requires a.Valid() && b.Valid() && a.SigningMessage(h).Ok? && b.SigningMessage(h).Ok?
    requires AuthorizationDigest(h, a, a.SigningMessage(h).value)
      == AuthorizationDigest(h, b, b.SigningMessage(h).value)
    requires CollisionFree(h, RecordQueries(h, a) + RecordQueries(h, b))
    ensures a == b.(signature := a.signature)
  {
    var dom := Ascii("ranklock/authorized-release/v1") + [0];
    var m, m' := a.SigningMessage(h).value, b.SigningMessage(h).value;
    assert AuthorizationPreimage(a, m) in RecordQueries(h, a) && AuthorizationPreimage(b, m') in RecordQueries(h, b);
    SplitEqual(dom, m + a.txid, dom, m' + b.txid);
    SplitEqual(m, a.txid, m', b.txid);
    assert CollisionFree(h, SigningQueries(h, a) + SigningQueries(h, b));
    SigningMessageBinds(h, a, b);
  }

  // ---------------------------------------------------------------- one honest contributor

  /** The signature that the manifest carries for a key, if it verifies, was made over the body of one manifest. */
  ghost predicate ContributedTo<P, R>(w: World<P, R>, m: Manifest, key: Bytes, honest: Manifest)
    requires |m.signatures| == |m.body.contributors|
  {
    var digest := m.body.SigningDigest(w.hash);
    forall i ::
      0 <= i < |m.signatures| && m.body.contributors[i] == key && w.scheme.verify(digest, key, m.signatures[i]) ==>
      digest == honest.body.SigningDigest(w.hash)
  }

  /**
   * If the owner of one required key signed nothing but the manifest of an honest setup, every admitted request
   * runs in the context and against the descriptors of that setup: all other contributors can be corrupt.
   */
  lemma HonestContributorFixesSetup<P, R>(w: World<P, R>, s: Setup, q: Request, honest: Manifest, key: Bytes)
    requires q.Valid() && honest.Valid() && w.expander.Lawful() && Admitted(w, q) && key in q.requiredKeys
    requires ContributedTo(w, q.manifest, key, honest) && s.Honest(w, honest) && LockFits(honest.body.lock)
    requires CollisionFree(w.hash, {q.manifest.body.SigningPreimage(), honest.body.SigningPreimage()})
    ensures q.manifest.body == honest.body && s.Honest(w, q.manifest)
    ensures q.context.ContextDigest(w.hash) == honest.body.context && key in honest.body.contributors
  {
    ContributorSigned(w.hash, w.scheme, q.manifest, q.requiredKeys, q.context.ContextDigest(w.hash), key);
    SigningDigestBinds(w.hash, q.manifest.body, honest.body);
    SameBodyHonest(w, s, q.manifest, honest);
  }

  lemma SameBodyHonest<P, R>(w: World<P, R>, s: Setup, m: Manifest, honest: Manifest)
    requires w.expander.Lawful() && s.Honest(w, honest) && m.body == honest.body
    ensures s.Honest(w, m)
  {
  }

  // ---------------------------------------------------------------- what an outsider can do

  /** The message was signed when one of the releases was issued. */
  ghost predicate SomeIssued(h: Hash, issued: set<Release>, m: Bytes)
    requires forall r :: r in issued ==> r.Valid()
  {
    exists r :: r in issued && r.SigningMessage(h) == Ok(m)
  }

  /** The presented signature, if it verifies under the authorizer's key, was made over an issued release's message. */
  ghost predicate Unforged<P, R>(w: World<P, R>, q: Request, issued: set<Release>)
    requires q.Valid()
  {
    var message := q.release.SigningMessage(w.hash);
    && (forall r :: r in issued ==> r.Valid())
    && (message.Ok? && w.scheme.verify(message.value, q.authorizer, q.release.signature) ==>
          SomeIssued(w.hash, issued, message.value))
  }

  ghost function IssuedQueries(h: Hash, issued: set<Release>): set<Bytes>
    requires forall r :: r in issued ==> r.Valid()
  {
    (set r | r in issued :: r.SigningPreimage(h)) + (set r | r in issued :: r.OpeningsPreimage())
  }

  /** If its signature is no forgery, an admitted release is an issued one up to the signature. */
  lemma AdmittedIsIssued<P, R>(w: World<P, R>, q: Request, issued: set<Release>)
    requires q.Valid() && Admitted(w, q) && Unforged(w, q, issued)
    requires CollisionFree(w.hash, IssuedQueries(w.hash, issued) + SigningQueries(w.hash, q.release))
    ensures exists r :: r in issued && q.release == r.(signature := q.release.signature)
  {
    var h := w.hash;
    var r :| r in issued && r.SigningMessage(h) == Ok(q.release.SigningMessage(h).value);
    IssuedMatches(h, q.release, r, issued);
  }

  lemma IssuedMatches(h: Hash, a: Release, r: Release, issued: set<Release>)
    requires (forall i :: i in issued ==> i.Valid()) && r in issued && a.Valid()
    requires a.SigningMessage(h).Ok? && a.SigningMessage(h) == r.SigningMessage(h)
    requires CollisionFree(h, IssuedQueries(h, issued) + SigningQueries(h, a))
    ensures a == r.(signature := a.signature)
  {
    assert r.SigningPreimage(h) in IssuedQueries(h, issued) && r.OpeningsPreimage() in IssuedQueries(h, issued);
    assert SigningQueries(h, r) <= IssuedQueries(h, issued);
    SigningMessageBinds(h, a, r);
  }

  /** The signature plays no part in what a release opens. */
  lemma SameOpening<P, R>(w: World<P, R>, s: Setup, r: Release, r': Release)
    requires s.tree.Valid() && HonestlyOpens(w, s, r) && r' == r.(signature := r'.signature)
    ensures HonestlyOpens(w, s, r')
  {
  }

  /**
   * If, moreover, every release issued for a slot opens its setup tree, an admitted request never fails on its
   * openings but evaluates as setup says: an outsider cannot spend a slot with altered openings.
   */
  lemma OutsiderCannotSpend<P, R>(w: World<P, R>, s: Setup, q: Request, issued: set<Release>)
    requires q.Valid() && w.expander.Lawful() && Admitted(w, q) && Unforged(w, q, issued)
    requires CollisionFree(w.hash, IssuedQueries(w.hash, issued) + SigningQueries(w.hash, q.release))
    requires CollisionFree(w.hash, ArtifactQueries(s, q))
    requires s.Honest(w, q.manifest) && q.release.slotId == s.tree.slotId
    requires forall r :: r in issued && r.slotId == s.tree.slotId ==> HonestlyOpens(w, s, r)
    ensures HonestlyOpens(w, s, q.release)
    ensures Evaluated(w, q) == s.Expected(w, q.release.point, q.profileBits, q.nonceBase)
  {
    AdmittedIsIssued(w, q, issued);
    var r :| r in issued && q.release == r.(signature := q.release.signature);
    assert HonestlyOpens(w, s, r);
    SameOpening(w, s, r, q.release);
    AdmittedMatchesSetup(w, s, q);
    OpeningEvaluates(w, s, q);
  }
}
