/** Counted text replacement, and the dry run that precedes an installation. */
module PatchEngine {
  import opened ByteStrings

  // ---------------------------------------------------------------- counting and replacing

  /** Non-overlapping occurrences from the left; the empty pattern occurs around every character. */
  function Count(t: string, anchor: string): nat {
    if anchor == "" then |t| + 1
    else if |t| < |anchor| then 0
    else if t[..|anchor|] == anchor then 1 + Count(t[|anchor|..], anchor)
    else Count(t[1..], anchor)
  }

  /** Every counted occurrence replaced. */
  function Replace(t: string, anchor: string, replacement: string): string {
    if anchor == "" then Interleave(t, replacement)
    else if |t| < |anchor| then t
    else if t[..|anchor|] == anchor then replacement + Replace(t[|anchor|..], anchor, replacement)
    else [t[0]] + Replace(t[1..], anchor, replacement)
  }

  function Interleave(t: string, replacement: string): string {
    if t == "" then replacement else replacement + [t[0]] + Interleave(t[1..], replacement)
  }

  /** The first occurrence replaced, if there is one. */
  function ReplaceFirst(t: string, anchor: string, replacement: string): string {
    if |t| < |anchor| then t
    else if t[..|anchor|] == anchor then replacement + t[|anchor|..]
    else [t[0]] + ReplaceFirst(t[1..], anchor, replacement)
  }

  function ReplaceExactly(t: string, anchor: string, replacement: string, count: int): Result<string> {
    if Count(t, anchor) != count then Err else Ok(Replace(t, anchor, replacement))
  }

  function ReplaceOnce(t: string, anchor: string, replacement: string): Result<string> {
    if Count(t, anchor) != 1 then Err else Ok(ReplaceFirst(t, anchor, replacement))
  }

  /** The characters one by one, and the end. */
  function Letters(t: string): (p: seq<string>)
    ensures |p| == |t| + 1
  {
    if t == "" then [""] else [[t[0]]] + Letters(t[1..])
  }

  /** The stretches of text that replacement keeps; the empty anchor keeps the characters apart. */
  function Pieces(t: string, anchor: string): (p: seq<string>)
    ensures p != []
  {
    if anchor == "" then [""] + Letters(t)
    else if |t| < |anchor| then [t]
    else if t[..|anchor|] == anchor then [""] + Pieces(t[|anchor|..], anchor)
    else
      var p := Pieces(t[1..], anchor);
      [[t[0]] + p[0]] + p[1..]
  }

  function Join(p: seq<string>, separator: string): string
    requires p != []
  {
    if |p| == 1 then p[0] else p[0] + separator + Join(p[1..], separator)
  }

  lemma JoinPrepend(c: char, p: seq<string>, separator: string)
    requires p != []
    ensures Join([[c] + p[0]] + p[1..], separator) == [c] + Join(p, separator)
  {
    var p' := [[c] + p[0]] + p[1..];
    assert p'[1..] == p[1..];
  }

  lemma JoinEmptyFirst(p: seq<string>, separator: string)
    requires p != []
    ensures Join([""] + p, separator) == separator + Join(p, separator)
  {
    assert ([""] + p)[1..] == p;
  }

  lemma {:induction false} LettersJoin(t: string, separator: string)
    ensures separator + Join(Letters(t), separator) == Interleave(t, separator)
    ensures Join(Letters(t), "") == t
  {
    if t == "" {
    } else {
      var p := Letters(t);
      LettersJoin(t[1..], separator);
      assert p[1..] == Letters(t[1..]);
      assert Join(p, separator) == [t[0]] + separator + Join(p[1..], separator);
      assert Join(p, "") == [t[0]] + "" + Join(p[1..], "");
      assert t == [t[0]] + t[1..];
    }
  }

  /**
   * Replacement cuts the text at the counted occurrences and joins the same pieces with the new text:
   * one more piece than occurrences, no occurrence left unaccounted for.
   */
  lemma {:induction false} ReplaceIsJoin(t: string, anchor: string, replacement: string)
    ensures |Pieces(t, anchor)| == Count(t, anchor) + 1
    ensures Join(Pieces(t, anchor), anchor) == t
    ensures Join(Pieces(t, anchor), replacement) == Replace(t, anchor, replacement)
  {
    if anchor == "" {
      LettersJoin(t, replacement);
      JoinEmptyFirst(Letters(t), replacement);
      JoinEmptyFirst(Letters(t), anchor);
    } else if |t| < |anchor| {
    } else {
      if t[..|anchor|] == anchor {
        ReplaceIsJoin(t[|anchor|..], anchor, replacement);
        JoinEmptyFirst(Pieces(t[|anchor|..], anchor), anchor);
        JoinEmptyFirst(Pieces(t[|anchor|..], anchor), replacement);
        assert t == anchor + t[|anchor|..];
      } else {
        ReplaceIsJoin(t[1..], anchor, replacement);
        JoinPrepend(t[0], Pieces(t[1..], anchor), anchor);
        JoinPrepend(t[0], Pieces(t[1..], anchor), replacement);
        assert t == [t[0]] + t[1..];
      }
    }
  }

  predicate Occurs(t: string, anchor: string, k: nat) {
    k + |anchor| <= |t| && t[k..k + |anchor|] == anchor
  }

  /** The anchor does not occur at any of the first n positions. */
  ghost predicate Absent(t: string, anchor: string, n: nat) {
    forall k: nat :: k < n ==> !Occurs(t, anchor, k)
  }

  /**
   * The cuts are leftmost: before the anchor that follows a piece there is no occurrence, not even one that overlaps
   * it, and none at all in the last piece.
   */
  ghost predicate Leftmost(p: seq<string>, anchor: string)
    requires p != []
  {
    if |p| == 1 then Absent(p[0], anchor, |p[0]|)
    else Absent(p[0] + anchor, anchor, |p[0]|) && Leftmost(p[1..], anchor)
  }

  lemma OccursLater(t: string, anchor: string, k: nat)
    requires t != ""
    ensures Occurs(t, anchor, k + 1) <==> Occurs(t[1..], anchor, k)
  {
    var n := |anchor|;
    if k + 1 + n <= |t| {
      var a, b := t[k + 1..k + 1 + n], t[1..][k..k + n];
      assert |a| == |b| && forall i :: 0 <= i < n ==> a[i] == b[i];
      assert a == b;
    }
  }

  lemma AbsentShifts(t: string, anchor: string, n: nat)
    requires t != ""
    ensures Absent(t, anchor, n + 1) <==> !Occurs(t, anchor, 0) && Absent(t[1..], anchor, n)
  {
    forall k: nat
      ensures Occurs(t, anchor, k + 1) <==> Occurs(t[1..], anchor, k)
    {
      OccursLater(t, anchor, k);
    }
    if !Occurs(t, anchor, 0) && Absent(t[1..], anchor, n) {
      forall k: nat | k < n + 1
        ensures !Occurs(t, anchor, k)
      {
        if k > 0 {
          assert !Occurs(t[1..], anchor, k - 1);
        }
      }
    }
  }

  /** The pieces are cut leftmost. */
  lemma {:induction false} PiecesLeftmost(t: string, anchor: string)
    requires anchor != ""
    ensures Leftmost(Pieces(t, anchor), anchor)
  {
    if |t| < |anchor| {
    } else if t[..|anchor|] == anchor {
      PiecesLeftmost(t[|anchor|..], anchor);
      assert ([""] + Pieces(t[|anchor|..], anchor))[1..] == Pieces(t[|anchor|..], anchor);
    } else {
      var p, q := Pieces(t[1..], anchor), Pieces(t, anchor);
      PiecesLeftmost(t[1..], anchor);
      ReplaceIsJoin(t, anchor, "");
      assert q[1..] == p[1..];
      LeftmostPrepend(t[0], p, q, t, anchor);
    }
  }

  lemma LeftmostPrepend(c: char, p: seq<string>, q: seq<string>, t: string, anchor: string)
    requires p != [] && q == [[c] + p[0]] + p[1..] && Leftmost(p, anchor)
    requires Join(q, anchor) == t && !Occurs(t, anchor, 0)
    ensures Leftmost(q, anchor)
  {
    assert q[1..] == p[1..];
    if |q| == 1 {
      assert q[0][1..] == p[0];
      AbsentShifts(q[0], anchor, |p[0]|);
    } else {
      var head := q[0] + anchor;
      assert head[1..] == p[0] + anchor;
      assert t == head + Join(q[1..], anchor);
      assert head[..|anchor|] == t[..|anchor|];
      AbsentShifts(head, anchor, |p[0]|);
    }
  }

  /** A text has one leftmost cut, so no other one gives its pieces. */
  lemma {:induction false} PiecesUnique(t: string, anchor: string, p: seq<string>)
    requires anchor != "" && p != [] && Leftmost(p, anchor) && Join(p, anchor) == t
    ensures p == Pieces(t, anchor)
    decreases |t|
  {
    if |p| == 1 {
      NoOccurrence(t, anchor);
    } else if p[0] == "" {
      assert Join(p, anchor) == anchor + Join(p[1..], anchor);
      assert t[|anchor|..] == Join(p[1..], anchor);
      PiecesUnique(t[|anchor|..], anchor, p[1..]);
    } else {
      var head, rest, q := p[0] + anchor, Join(p[1..], anchor), [p[0][1..]] + p[1..];
      assert t == head + rest;
      assert t[..|anchor|] == head[..|anchor|];
      assert head[1..] == q[0] + anchor && q[1..] == p[1..];
      AbsentShifts(head, anchor, |q[0]|);
      assert Join(q, anchor) == t[1..];
      PiecesUnique(t[1..], anchor, q);
      assert p[0] == [t[0]] + q[0];
    }
  }

  /** A text without the anchor is one piece. */
  lemma {:induction false} NoOccurrence(t: string, anchor: string)
    requires anchor != "" && Absent(t, anchor, |t|)
    ensures Pieces(t, anchor) == [t]
  {
    if |t| < |anchor| {
    } else {
      assert !Occurs(t, anchor, 0);
      AbsentShifts(t, anchor, |t| - 1);
      NoOccurrence(t[1..], anchor);
      assert t == [t[0]] + t[1..];
    }
  }

  lemma {:induction false} InterleaveLength(t: string, replacement: string)
    ensures |Interleave(t, replacement)| == |t| + (|t| + 1) * |replacement|
  {
    if t == "" {
    } else {
      InterleaveLength(t[1..], replacement);
      assert (|t| + 1) * |replacement| == |replacement| + |t| * |replacement|;
    }
  }

  lemma OneMore(n: nat, d: int)
    ensures (1 + n) * d == d + n * d
  {
  }

  /** Each counted occurrence changes the length by the difference of replacement and anchor. */
  lemma {:induction false} ReplaceLength(t: string, anchor: string, replacement: string)
    ensures |Replace(t, anchor, replacement)| == |t| + Count(t, anchor) * (|replacement| - |anchor|)
  {
    var d := |replacement| - |anchor|;
    if anchor == "" {
      InterleaveLength(t, replacement);
    } else if |t| >= |anchor| {
      if t[..|anchor|] == anchor {
        var rest := t[|anchor|..];
        ReplaceLength(rest, anchor, replacement);
        OneMore(Count(rest, anchor), d);
        assert Count(t, anchor) == 1 + Count(rest, anchor);
        assert |Replace(t, anchor, replacement)| == |replacement| + |Replace(rest, anchor, replacement)|;
      } else {
        ReplaceLength(t[1..], anchor, replacement);
      }
    } else {
      assert 0 * d == 0;
    }
  }

  lemma {:induction false} NothingToReplace(t: string, anchor: string, replacement: string)
    requires Count(t, anchor) == 0
    ensures Replace(t, anchor, replacement) == t
  {
    if |t| < |anchor| {
    } else {
      NothingToReplace(t[1..], anchor, replacement);
      assert t == [t[0]] + t[1..];
    }
  }

  /** An unambiguous anchor: replacing once and replacing exactly one occurrence are the same edit. */
  lemma {:induction false} OnceIsExactlyOne(t: string, anchor: string, replacement: string)
    ensures ReplaceOnce(t, anchor, replacement) == ReplaceExactly(t, anchor, replacement, 1)
  {
    if Count(t, anchor) != 1 || |t| < |anchor| {
    } else {
      if anchor == "" {
        assert t == "" && replacement + "" == replacement;
      } else if t[..|anchor|] == anchor {
        NothingToReplace(t[|anchor|..], anchor, replacement);
      } else {
        OnceIsExactlyOne(t[1..], anchor, replacement);
      }
    }
  }

  // ---------------------------------------------------------------- jobs

  datatype Edit = Once(anchor: string, replacement: string) | Exactly(anchor: string, replacement: string, count: int)

  function ApplyEdit(t: string, e: Edit): Result<string> {
    match e
    case Once(anchor, replacement) => ReplaceOnce(t, anchor, replacement)
    case Exactly(anchor, replacement, count) => ReplaceExactly(t, anchor, replacement, count)
  }

  /** The edits in order, each on the result of the one before. */
  function ApplyEdits(t: string, edits: seq<Edit>): Result<string>
    decreases edits
  {
    if edits == [] then Ok(t)
    else
      var next :- ApplyEdit(t, edits[0]);
      ApplyEdits(next, edits[1..])
  }

  type Files = map<string, string>

  function Lookup(files: Files, rel: string): Option<string> {
    if rel in files then Some(files[rel]) else None
  }

  /**
   * Patch an existing file, rewrite one by a splice of its own, or install a bundled one that may replace a file
   * only where that is expected.
   */
  datatype Job =
    | Patch(rel: string, edits: seq<Edit>)
    | Splice(rel: string, transform: string -> Result<string>)
    | Overlay(rel: string, source: Option<string>, overwrites: bool)

  /** The text a job makes of its target, or an error. */
  function JobOn(current: Option<string>, job: Job): Result<string> {
    match job
    case Patch(_, edits) => if current.None? then Err else ApplyEdits(current.value, edits)
    case Splice(_, transform) => if current.None? then Err else transform(current.value)
    case Overlay(_, source, overwrites) =>
      if source.None? || (current.Some? && !overwrites) then Err else Ok(source.value)
  }

  function JobText(files: Files, job: Job): Result<string> {
    JobOn(Lookup(files, job.rel), job)
  }

  datatype Outcome = Outcome(files: Files, ok: bool)

  /** Jobs in order up to the first that fails; a dry run writes nothing. */
  function RunJobs(files: Files, jobs: seq<Job>, dryRun: bool): Outcome
    decreases |jobs|
  {
    if |jobs| == 0 then Outcome(files, true)
    else
      match JobText(files, jobs[0])
      case Err => Outcome(files, false)
      case Ok(t) => RunJobs(if dryRun then files else files[jobs[0].rel := t], jobs[1..], dryRun)
  }

  // ---------------------------------------------------------------- the steps behind the jobs

  /** A unified diff or a formatter: the tree it leaves, or an error. */
  type Delta = Files -> Result<Files>

  /** Formatting, the acknowledgement diff and the two NACK diffs. */
  datatype Finish = Finish(format: Delta, ack: Delta, nackWitness: Delta, nackClassifier: Delta)

  /** The tree behind all jobs, formatted and with the acknowledgement diff. */
  function Prepared(base: Files, jobs: seq<Job>, finish: Finish): Result<Files> {
    var run := RunJobs(base, jobs, false);
    if !run.ok then Err else
    var formatted :- finish.format(run.files);
    finish.ack(formatted)
  }

  /** The disposable checkout only checks the NACK diffs, each against the prepared tree. */
  predicate PreflightPasses(base: Files, jobs: seq<Job>, finish: Finish) {
    var prepared := Prepared(base, jobs, finish);
    prepared.Ok? && finish.nackWitness(prepared.value).Ok? && finish.nackClassifier(prepared.value).Ok?
  }

  /** A complete installation applies the second NACK diff behind the first. */
  function Completed(base: Files, jobs: seq<Job>, finish: Finish): Result<Files> {
    var prepared :- Prepared(base, jobs, finish);
    var witnessed :- finish.nackWitness(prepared);
    finish.nackClassifier(witnessed)
  }

  class Repository {
    /** The tree of the pinned commit, which a checkout must equal when it is patched. */
    const base: Files
    var files: Files

    constructor (base: Files, files: Files)
      ensures this.base == base && this.files == files
    {
      this.base := base;
      this.files := files;
    }

    method Write(rel: string, text: string, dryRun: bool)
      modifies this`files
      ensures files == if dryRun then old(files) else old(files)[rel := text]
    {
      if !dryRun {
        files := files[rel := text];
      }
    }

    method PatchFile(rel: string, edits: seq<Edit>, dryRun: bool) returns (ok: bool)
      modifies this`files
      ensures ok <==> rel in old(files) && ApplyEdits(old(files)[rel], edits).Ok?
      ensures files == if ok && !dryRun then old(files)[rel := ApplyEdits(old(files)[rel], edits).value] else old(files)
    {
      if rel !in files {
        return false;
      }
      var text := files[rel];
      for i := 0 to |edits|
        invariant files == old(files)
        invariant ApplyEdits(text, edits[i..]) == ApplyEdits(old(files)[rel], edits)
      {
        var edited := ApplyEdit(text, edits[i]);
        assert edits[i..][0] == edits[i] && edits[i..][1..] == edits[i + 1..];
        if edited.Err? {
          return false;
        }
        text := edited.value;
      }
      Write(rel, text, dryRun);
      return true;
    }

    method SpliceFile(rel: string, transform: string -> Result<string>, dryRun: bool) returns (ok: bool)
      modifies this`files
      ensures ok <==> rel in old(files) && transform(old(files)[rel]).Ok?
      ensures files == if ok && !dryRun then old(files)[rel := transform(old(files)[rel]).value] else old(files)
    {
      if rel !in files {
        return false;
      }
      var text := transform(files[rel]);
      if text.Err? {
        return false;
      }
      Write(rel, text.value, dryRun);
      return true;
    }

    method InstallOverlay(rel: string, source: Option<string>, overwrites: bool, dryRun: bool) returns (ok: bool)
      modifies this`files
      ensures ok <==> source.Some? && (rel !in old(files) || overwrites)
      ensures files == if ok && !dryRun then old(files)[rel := source.value] else old(files)
    {
      if source.None? {
        return false;
      }
      if rel in files && !overwrites {
        return false;
      }
      Write(rel, source.value, dryRun);
      return true;
    }

    /** Validate the checkout, then run the jobs in order up to the first failure. */
    method Apply(jobs: seq<Job>, dryRun: bool) returns (ok: bool)
      modifies this`files
      ensures Outcome(files, ok) ==
        if old(files) == base then RunJobs(base, jobs, dryRun) else Outcome(old(files), false)
    {
      if files != base {
        return false;
      }
      for i := 0 to |jobs|
        invariant RunJobs(files, jobs[i..], dryRun) == RunJobs(old(files), jobs, dryRun)
      {
        assert jobs[i..][0] == jobs[i] && jobs[i..][1..] == jobs[i + 1..];
        match jobs[i] {
          case Patch(rel, edits) => ok := PatchFile(rel, edits, dryRun);
          case Splice(rel, transform) => ok := SpliceFile(rel, transform, dryRun);
          case Overlay(rel, source, overwrites) => ok := InstallOverlay(rel, source, overwrites, dryRun);
        }
        if !ok {
          return false;
        }
      }
      return true;
    }

    /** Check a delta against the tree, then apply it unless this is a dry run. */
    method RunDelta(delta: Delta, dryRun: bool) returns (ok: bool)
      modifies this`files
      ensures ok <==> delta(old(files)).Ok?
      ensures files == if ok && !dryRun then delta(old(files)).value else old(files)
    {
      var next := delta(files);
      if next.Err? {
        return false;
      }
      if !dryRun {
        files := next.value;
      }
      return true;
    }

    /** The two NACK diffs in order. */
    method RunNackDeltas(finish: Finish, dryRun: bool) returns (ok: bool)
      modifies this`files
      ensures var f := old(files);
        && (ok <==>
              && finish.nackWitness(f).Ok?
              && finish.nackClassifier(if dryRun then f else finish.nackWitness(f).value).Ok?)
        && files == if dryRun || finish.nackWitness(f).Err? then f
                    else if ok then finish.nackClassifier(finish.nackWitness(f).value).value
                    else finish.nackWitness(f).value
    {
      ok := RunDelta(finish.nackWitness, dryRun);
      if ok {
        ok := RunDelta(finish.nackClassifier, dryRun);
      }
    }

    /** Jobs, formatting and the acknowledgement diff on this checkout. */
    method Prepare(jobs: seq<Job>, finish: Finish) returns (ok: bool)
      requires files == base
      modifies this`files
      ensures ok <==> Prepared(base, jobs, finish).Ok?
      ensures ok ==> files == Prepared(base, jobs, finish).value
    {
      ok := Apply(jobs, false);
      if ok {
        ok := RunDelta(finish.format, false);
      }
      if ok {
        ok := RunDelta(finish.ack, false);
      }
    }

    /** The complete installation in a disposable checkout of the pinned commit; this checkout is not touched. */
    method Preflight(jobs: seq<Job>, finish: Finish) returns (ok: bool)
      ensures ok <==> PreflightPasses(base, jobs, finish)
    {
      var scratch := new Repository(base, base);
      ok := scratch.Prepare(jobs, finish);
      if ok {
        ok := scratch.RunNackDeltas(finish, true);
      }
    }

    /**
     * Dry run, pre-flight, real run. Whatever the job list, a failure leaves every file as it was, with one
     * exception: the pre-flight checks the second NACK diff against a tree without the first, so a second diff
     * that stops applying behind the first one fails on a changed tree.
     */
    method Install(jobs: seq<Job>, finish: Finish) returns (ok: bool)
      modifies this`files
      ensures ok <==>
        && old(files) == base && RunJobs(base, jobs, true).ok && PreflightPasses(base, jobs, finish)
        && Completed(base, jobs, finish).Ok?
      ensures ok ==> files == Completed(base, jobs, finish).value
      ensures !ok && !(old(files) == base && RunJobs(base, jobs, true).ok && PreflightPasses(base, jobs, finish)) ==>
        files == old(files)
      ensures !ok && old(files) == base && RunJobs(base, jobs, true).ok && PreflightPasses(base, jobs, finish) ==>
        files == finish.nackWitness(Prepared(base, jobs, finish).value).value
    {
      DryRunExactly(base, jobs);
      ok := Apply(jobs, true);
      if !ok {
        return;
      }
      ok := Preflight(jobs, finish);
      if !ok {
        return;
      }
      ok := Prepare(jobs, finish);
      ok := RunNackDeltas(finish, false);
    }
  }

  /** NACK diffs that the pre-flight accepts and the installation cannot complete. */
  lemma NackDiffsCanConflict()
    ensures var keep, mark := (f: Files) => Ok(f), (f: Files) => Ok(f["nack" := ""]);
      var unmarked := (f: Files) => if "nack" in f then Err else Ok(f);
      && PreflightPasses(map[], [], Finish(keep, keep, mark, unmarked))
      && Completed(map[], [], Finish(keep, keep, mark, unmarked)).Err?
  {
  }

  // ---------------------------------------------------------------- what each run does

  /** A dry run changes no file, whatever the jobs, and passes exactly when every job applies to the given files. */
  lemma {:induction false} DryRunExactly(files: Files, jobs: seq<Job>)
    ensures RunJobs(files, jobs, true).files == files
    ensures RunJobs(files, jobs, true).ok <==> forall i :: 0 <= i < |jobs| ==> JobText(files, jobs[i]).Ok?
    decreases |jobs|
  {
    if |jobs| == 0 {
    } else {
      DryRunExactly(files, jobs[1..]);
      assert forall i :: 0 < i < |jobs| ==> jobs[i] == jobs[1..][i - 1];
      assert forall i :: 0 <= i < |jobs[1..]| ==> jobs[1..][i] == jobs[i + 1];
    }
  }

  /** The jobs with one target, in order. */
  function Own(jobs: seq<Job>, rel: string): seq<Job> {
    if |jobs| == 0 then []
    else (if jobs[0].rel == rel then [jobs[0]] else []) + Own(jobs[1..], rel)
  }

  /** Jobs on one target, each on the text that the one before it left. */
  function Chain(current: Option<string>, own: seq<Job>): Result<Option<string>>
    decreases |own|
  {
    if |own| == 0 then Ok(current)
    else
      var next :- JobOn(current, own[0]);
      Chain(Some(next), own[1..])
  }

  ghost predicate ChainsThrough(files: Files, jobs: seq<Job>, rel: string) {
    Chain(Lookup(files, rel), Own(jobs, rel)).Ok?
  }

  /**
   * A real run succeeds exactly when the jobs of every target succeed one behind the other on that target, and
   * leaves in every file what its own jobs made of it, however often a target repeats.
   */
  lemma {:induction false} RealRunInstalls(files: Files, jobs: seq<Job>)
    ensures RunJobs(files, jobs, false).ok <==> forall rel :: ChainsThrough(files, jobs, rel)
    ensures RunJobs(files, jobs, false).ok ==>
      forall rel :: Ok(Lookup(RunJobs(files, jobs, false).files, rel)) == Chain(Lookup(files, rel), Own(jobs, rel))
    decreases |jobs|
  {
    if |jobs| == 0 {
      assert forall rel :: ChainsThrough(files, jobs, rel);
    } else {
      var job, rest := jobs[0], jobs[1..];
      OwnFirst(jobs);
      if JobText(files, job).Err? {
        assert !ChainsThrough(files, jobs, job.rel);
      } else {
        var next := files[job.rel := JobText(files, job).value];
        RealRunInstalls(next, rest);
        forall rel
          ensures Chain(Lookup(files, rel), Own(jobs, rel)) == Chain(Lookup(next, rel), Own(rest, rel))
          ensures ChainsThrough(files, jobs, rel) == ChainsThrough(next, rest, rel)
        {
          ChainStep(files, jobs, rel);
        }
        assert RunJobs(files, jobs, false) == RunJobs(next, rest, false);
      }
    }
  }

  lemma OwnFirst(jobs: seq<Job>)
    requires |jobs| > 0
    ensures Own(jobs, jobs[0].rel) == [jobs[0]] + Own(jobs[1..], jobs[0].rel)
    ensures Own(jobs, jobs[0].rel)[1..] == Own(jobs[1..], jobs[0].rel)
  {
  }

  lemma ChainStep(files: Files, jobs: seq<Job>, rel: string)
    requires |jobs| > 0 && JobText(files, jobs[0]).Ok?
    ensures var next := files[jobs[0].rel := JobText(files, jobs[0]).value];
      Chain(Lookup(files, rel), Own(jobs, rel)) == Chain(Lookup(next, rel), Own(jobs[1..], rel))
  {
    OwnFirst(jobs);
    if rel != jobs[0].rel {
      assert Own(jobs, rel) == Own(jobs[1..], rel);
    }
  }

  function AllEdits(own: seq<Job>): seq<Edit>
    requires forall i :: 0 <= i < |own| ==> own[i].Patch?
  {
    if |own| == 0 then [] else own[0].edits + AllEdits(own[1..])
  }

  /** A target that is patched several times ends as the fold of the concatenated edit lists. */
  lemma {:induction false} PatchesConcatenate(t: string, own: seq<Job>)
    requires forall i :: 0 <= i < |own| ==> own[i].Patch?
    ensures Chain(Some(t), own)
      == match ApplyEdits(t, AllEdits(own)) case Ok(text) => Ok(Some(text)) case Err => Err
    decreases |own|
  {
    if |own| == 0 {
    } else {
      EditsAppend(t, own[0].edits, AllEdits(own[1..]));
      if ApplyEdits(t, own[0].edits).Ok? {
        PatchesConcatenate(ApplyEdits(t, own[0].edits).value, own[1..]);
      }
    }
  }

  lemma {:induction false} EditsAppend(t: string, a: seq<Edit>, b: seq<Edit>)
    ensures ApplyEdits(t, a + b) == match ApplyEdits(t, a) case Ok(text) => ApplyEdits(text, b) case Err => Err
    decreases |a|
  {
    if a == [] {
      assert a + b == b;
    } else {
      assert (a + b)[0] == a[0] && (a + b)[1..] == a[1..] + b;
      if ApplyEdit(t, a[0]).Ok? {
        EditsAppend(ApplyEdit(t, a[0]).value, a[1..], b);
      }
    }
  }

  // ---------------------------------------------------------------- when the two runs agree

  /** The job applies to what its predecessors on the same target leave. */
  ghost predicate AppliesInTurn(files: Files, jobs: seq<Job>, i: nat)
    requires i < |jobs|
  {
    var before := Chain(Lookup(files, jobs[i].rel), Own(jobs[..i], jobs[i].rel));
    before.Ok? && JobOn(before.value, jobs[i]).Ok?
  }

  lemma {:induction false} RunSnoc(files: Files, jobs: seq<Job>, job: Job)
    ensures var front := RunJobs(files, jobs, false);
      RunJobs(files, jobs + [job], false).ok <==> front.ok && JobText(front.files, job).Ok?
    decreases |jobs|
  {
    if |jobs| == 0 {
      assert jobs + [job] == [job];
      assert |[job][1..]| == 0;
    } else {
      assert (jobs + [job])[0] == jobs[0] && (jobs + [job])[1..] == jobs[1..] + [job];
      if JobText(files, jobs[0]).Ok? {
        RunSnoc(files[jobs[0].rel := JobText(files, jobs[0]).value], jobs[1..], job);
      }
    }
  }

  /** The real run succeeds exactly when every job applies to what its predecessors leave. */
  lemma {:induction false} RealRunInTurn(files: Files, jobs: seq<Job>)
    ensures RunJobs(files, jobs, false).ok <==> forall i :: 0 <= i < |jobs| ==> AppliesInTurn(files, jobs, i)
    decreases |jobs|
  {
    if |jobs| == 0 {
    } else {
      var last := |jobs| - 1;
      var front := jobs[..last];
      RealRunInTurn(files, front);
      RunSnoc(files, front, jobs[last]);
      RealRunInstalls(files, front);
      assert jobs == front + [jobs[last]];
      forall i | 0 <= i < last
        ensures AppliesInTurn(files, jobs, i) == AppliesInTurn(files, front, i)
      {
        assert jobs[..i] == front[..i];
      }
      if RunJobs(files, front, false).ok {
        assert AppliesInTurn(files, jobs, last) == JobText(RunJobs(files, front, false).files, jobs[last]).Ok?;
      } else {
        var i :| 0 <= i < last && !AppliesInTurn(files, front, i);
        assert !AppliesInTurn(files, jobs, i);
      }
    }
  }

  /** An earlier job has the same target. */
  ghost predicate Repeats(jobs: seq<Job>, i: nat)
    requires i < |jobs|
  {
    exists j :: 0 <= j < i && jobs[j].rel == jobs[i].rel
  }

  lemma {:induction false} NothingOwn(jobs: seq<Job>, rel: string)
    requires forall j :: 0 <= j < |jobs| ==> jobs[j].rel != rel
    ensures Own(jobs, rel) == []
  {
    if |jobs| == 0 {
    } else {
      NothingOwn(jobs[1..], rel);
    }
  }

  /**
   * The dry run predicts the real run exactly when a first job of some target does not apply to the given files,
   * or the jobs on repeated targets all apply to the given files just when they all apply in turn.
   */
  lemma DryRunFaithful(files: Files, jobs: seq<Job>)
    ensures RunJobs(files, jobs, true).ok == RunJobs(files, jobs, false).ok
      <==>
        || (exists i :: 0 <= i < |jobs| && !Repeats(jobs, i) && JobText(files, jobs[i]).Err?)
        || ((forall i :: 0 <= i < |jobs| && Repeats(jobs, i) ==> JobText(files, jobs[i]).Ok?)
            <==> (forall i :: 0 <= i < |jobs| && Repeats(jobs, i) ==> AppliesInTurn(files, jobs, i)))
  {
    DryRunExactly(files, jobs);
    RealRunInTurn(files, jobs);
    forall i | 0 <= i < |jobs| && !Repeats(jobs, i)
      ensures AppliesInTurn(files, jobs, i) == JobText(files, jobs[i]).Ok?
    {
      NothingOwn(jobs[..i], jobs[i].rel);
    }
  }

  ghost predicate DistinctTargets(jobs: seq<Job>) {
    forall i, j :: 0 <= i < j < |jobs| ==> jobs[i].rel != jobs[j].rel
  }

  /** So with distinct targets it always does. */
  lemma DistinctTargetsAgree(files: Files, jobs: seq<Job>)
    requires DistinctTargets(jobs)
    ensures RunJobs(files, jobs, true).ok == RunJobs(files, jobs, false).ok
  {
    DryRunFaithful(files, jobs);
    assert forall i :: 0 <= i < |jobs| ==> !Repeats(jobs, i);
  }

  /** With a repeated target either run can succeed where the other fails. */
  lemma RepeatedTargetsDisagree()
    ensures var files: Files, jobs := map["f" := "a"], [Patch("f", [Once("a", "b")]), Patch("f", [Once("a", "c")])];
      RunJobs(files, jobs, true).ok && !RunJobs(files, jobs, false).ok
    ensures var files: Files, jobs := map["f" := "a"], [Patch("f", [Once("a", "b")]), Patch("f", [Once("b", "c")])];
      !RunJobs(files, jobs, true).ok && RunJobs(files, jobs, false).ok
  {
    SingleCharacterEdit('a', 'a', 'b');
    SingleCharacterEdit('a', 'a', 'c');
    SingleCharacterEdit('b', 'a', 'c');
    SingleCharacterEdit('b', 'b', 'c');
    SingleCharacterEdit('a', 'b', 'c');
    var files: Files := map["f" := "a"];
    var first, again, after := Patch("f", [Once("a", "b")]), Patch("f", [Once("a", "c")]), Patch("f", [Once("b", "c")]);
    SingleEdit("a", Once("a", "b"));
    SingleEdit("a", Once("a", "c"));
    SingleEdit("b", Once("a", "c"));
    SingleEdit("a", Once("b", "c"));
    SingleEdit("b", Once("b", "c"));
    assert files["f" := "b"]["f"] == "b";
    assert [first, again][1..] == [again] && [first, after][1..] == [after];
    SingleJob(files, again);
    SingleJob(files, after);
    SingleJob(files["f" := "b"], again);
    SingleJob(files["f" := "b"], after);
  }

  lemma SingleCharacterEdit(t: char, anchor: char, replacement: char)
    ensures ReplaceOnce([t], [anchor], [replacement]) == if t == anchor then Ok([replacement]) else Err
  {
    assert [t][..1] == [t] && [t][1..] == "";
    assert Count("", [anchor]) == 0;
    assert [replacement] + "" == [replacement];
  }

  lemma SingleEdit(t: string, e: Edit)
    ensures ApplyEdits(t, [e]) == ApplyEdit(t, e)
  {
    var none: seq<Edit> := [];
    assert [e][1..] == none;
  }

  lemma SingleJob(files: Files, job: Job)
    ensures forall dryRun :: RunJobs(files, [job], dryRun).ok == JobText(files, job).Ok?
  {
    var none: seq<Job> := [];
    assert [job][1..] == none;
  }
}
