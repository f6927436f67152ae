/** Crashes at any moment.  The pager as a machine whose steps are the log appends of normal
    work, flushes, evictions, the rounds of restart, and crashes between any two of them. */
module CrashSafety {
  import opened Wal
  import opened LogFacts
  import opened Recovery
  import opened Restart

  datatype Phase =
    | Working
    | Opened
    | Redoing(i: nat, dpt: map<nat, nat>, att: map<nat, TxnData>)
    | Undoing(att: map<nat, TxnData>)
    | Refused

  datatype Sys = Sys(log: Log, flushed: nat, pages: Store, disk: Store, ph: Phase)

  // ---------------------------------------------------------------- the steps

  /** The file grows by a page no record has been applied to. */
  ghost predicate Extend(s: Sys, s': Sys, pg: nat) {
    && s.ph.Working? && pg !in s.pages && pg !in s.disk
    && (forall k :: 0 <= k < |s.log| ==> !Writes(s.log[k], pg))
    && exists image :: s' == s.(pages := s.pages[pg := Page(0, image)], disk := s.disk[pg := Page(0, image)])
  }

  /** Normal work appends a record that may follow and applies what it writes: a begin, a
      save over the page as it is, a round of rollback, a commit or an end. */
  ghost predicate Work(s: Sys, s': Sys, r: Rec) {
    && s.ph.Working?
    && CanAppend(s.log + [r], |s.log|)
    && ((r.Update? || r.Clr?) ==> r.pg in s.pages)
    && (r.Update? ==> r.undo == s.pages[r.pg].image)
    && s' == s.(log := s.log + [r],
                pages := if r.Update? || r.Clr? then s.pages[r.pg := Page(|s.log|, r.redo)] else s.pages)
  }

  ghost predicate Flush(s: Sys, s': Sys) {
    s.flushed <= s'.flushed <= |s.log| && s' == s.(flushed := s'.flushed)
  }

  /** An eviction flushes the log first, except while restarting. */
  ghost predicate Evict(s: Sys, s': Sys, pg: nat) {
    && pg in s.pages
    && s' == s.(flushed := if s.ph.Working? then |s.log| else s.flushed, disk := s.disk[pg := s.pages[pg]])
  }

  /** The pool is lost, and of the log any prefix survives that holds what was flushed. */
  ghost predicate Crash(s: Sys, s': Sys, k: nat) {
    && s.flushed <= k <= |s.log|
    && s' == Sys(s.log[..k], k, s.disk, s.disk, Opened)
  }

  /** Analysis, as the comments have it or, with lookup false, as coded.  When its dirty page
      table is empty redo finds nowhere to start, and the restart is given up. */
  ghost predicate Analyze(s: Sys, s': Sys, ends: seq<Rec>, redoLsn: nat, lookup: bool) {
    var dpt, att := DptAt(s.log, |s.log|), AttAt(s.log, |s.log|, lookup);
    && s.ph.Opened?
    && EndsOf(ends, att, {})
    && (forall pg :: pg in dpt ==> redoLsn <= dpt[pg])
    && (dpt != map[] ==> exists pg :: pg in dpt && dpt[pg] == redoLsn)
    && redoLsn <= s.flushed <= s'.flushed <= |s.log + ends|
    && s' == s.(log := s.log + ends, flushed := s'.flushed,
                ph := if dpt == map[] then Refused else Redoing(redoLsn, dpt, Unfinished(att)))
  }

  ghost predicate Redo(s: Sys, s': Sys) {
    && s.ph.Redoing? && s.ph.i < s.flushed <= |s.log|
    && var r := s.log[s.ph.i];
    && ((r.Update? || r.Clr?) ==> r.pg in s.pages)
    && var (dpt, pages) := RedoRecord(r, s.ph.i, s.ph.dpt, s.pages);
       s' == s.(pages := pages, ph := Redoing(s.ph.i + 1, dpt, s.ph.att))
  }

  ghost predicate RedoEnds(s: Sys, s': Sys) {
    s.ph.Redoing? && s.ph.i == s.flushed && s' == s.(ph := Undoing(s.ph.att))
  }

  /** A round of undo for the loser with the greatest undo pointer; a compensation record is
      flushed at once, an end record is not. */
  ghost predicate Undo(s: Sys, s': Sys, t: nat) {
    && s.ph.Undoing? && t in s.ph.att
    && (forall u :: u in s.ph.att ==> s.ph.att[u].undoNext <= s.ph.att[t].undoNext)
    && s.ph.att[t].undoNext < |s.log|
    && var u := s.ph.att[t].undoNext;
    && (s.log[u].Update? ==> s.log[u].pg in s.pages)
    && var (log, att, pages) := UndoRound(s.log, t, s.ph.att, s.pages);
       s' == s.(log := log, flushed := if s.log[u].Update? then |log| else s.flushed, pages := pages, ph := Undoing(att))
  }

  ghost predicate UndoEnds(s: Sys, s': Sys) {
    s.ph == Undoing(map[]) && s' == s.(ph := Working)
  }

  /** The steps of a pager that is restarting, crashes and evictions among them. */
  ghost predicate RestartStep(s: Sys, s': Sys, lookup: bool) {
    && !s.ph.Working?
    && (|| Flush(s, s') || Redo(s, s') || RedoEnds(s, s') || UndoEnds(s, s')
        || (exists pg :: Evict(s, s', pg)) || (exists k :: Crash(s, s', k))
        || (exists ends, redoLsn :: Analyze(s, s', ends, redoLsn, lookup)) || (exists t :: Undo(s, s', t)))
  }

  ghost predicate WorkStep(s: Sys, s': Sys) {
    && s.ph.Working?
    && (|| Flush(s, s') || (exists pg :: Evict(s, s', pg)) || (exists k :: Crash(s, s', k))
        || (exists pg :: Extend(s, s', pg)) || (exists r :: Work(s, s', r)))
  }

  // ---------------------------------------------------------------- the invariant

  ghost predicate Durable(s: Sys) {
    && s.flushed <= |s.log|
    && Legal(s.log)
    && s.pages.Keys == s.disk.Keys
    && StoreOk(s.log, s.flushed, s.disk)
  }

  ghost predicate InPhase(s: Sys)
    requires s.flushed <= |s.log|
  {
    match s.ph
    case Working =>
      StoreOk(s.log, |s.log|, s.pages) && UpToDate(s.log, s.pages)
    case Opened =>
      s.pages == s.disk && s.flushed == |s.log|
    case Refused =>
      s.pages == s.disk
    case Redoing(i, dpt, att) =>
      && i <= s.flushed
      && RedoneTo(s.log, s.flushed, i, dpt, s.pages, s.pages)
      && UndoTable(s.log, att)
      && forall k :: s.flushed <= k < |s.log| ==> s.log[k].End?
    case Undoing(att) =>
      && StoreOk(s.log, s.flushed, s.pages)
      && UpToDate(s.log, s.pages)
      && UndoTable(s.log, att)
      && forall k :: s.flushed <= k < |s.log| ==> s.log[k].End?
  }

  ghost predicate Inv(s: Sys) {
    Durable(s) && InPhase(s)
  }

  lemma FreshIsSafe()
    ensures Inv(Sys([], 0, map[], map[], Working))
  {}

  lemma WorkKeeps(s: Sys, s': Sys, r: Rec)
    requires Inv(s) && Work(s, s', r)
    ensures Inv(s')
  {
    hide Legal, CanAppend, StoreOk, UpToDate;
    LegalAppend(s.log, r);
    AppendKeepsStore(s.log, r, s.flushed, s.disk);
    if r.Update? || r.Clr? {
      ApplyNewest(s.log, r, s.pages);
      WriteKeepsStore(s.log, r, s.pages);
    } else {
      ApplyNone(s.log, r, s.pages);
      AppendKeepsStore(s.log, r, |s.log|, s.pages);
      StoreOkLater(s'.log, |s.log|, |s'.log|, s.pages);
    }
  }

  lemma WriteKeepsStore(log: Log, r: Rec, m: Store)
    requires StoreOk(log, |log|, m) && (r.Update? || r.Clr?) && r.pg in m
    ensures StoreOk(log + [r], |log| + 1, m[r.pg := Page(|log|, r.redo)])
  {}

  lemma AppendKeepsStore(log: Log, r: Rec, n: nat, m: Store)
    requires n <= |log| && StoreOk(log, n, m) && ((r.Update? || r.Clr?) ==> r.pg in m)
    ensures StoreOk(log + [r], n, m)
  {}

  lemma CrashKeeps(s: Sys, s': Sys, k: nat)
    requires Inv(s) && Crash(s, s', k)
    ensures Inv(s')
  {
    LegalPrefix(s.log, s.log[..k], k);
  }

  lemma AnalyzeKeeps(s: Sys, s': Sys, ends: seq<Rec>, redoLsn: nat)
    requires Inv(s) && Analyze(s, s', ends, redoLsn, true)
    ensures Inv(s')
  {
    hide Legal, StoreOk, UndoTable, Covers, AttAt, UpToDate;
    AnalysisLeavesUndoTable(s.log, ends, AttAt(s.log, |s.log|, true));
    AnalyzeStores(s.log, ends, s'.flushed, s.disk);
    CoverPastEnds(s.log, ends, s'.flushed, s.pages);
    RedoBegins(s.log, ends, s'.flushed, redoLsn, DptAt(s.log, |s.log|), s.pages);
  }

  lemma AnalyzeStores(log: Log, ends: seq<Rec>, n: nat, m: Store)
    requires StoreOk(log, |log|, m) && |log| <= n <= |log + ends|
    requires forall k :: 0 <= k < |ends| ==> ends[k].End?
    ensures StoreOk(log + ends, n, m)
    ensures forall k :: |log| <= k < |log + ends| ==> (log + ends)[k].End?
  {
    forall k | |log| <= k < |log + ends|
      ensures (log + ends)[k].End?
    {
      assert (log + ends)[k] == ends[k - |log|];
    }
  }

  /** Nothing below the least recLSN is missing, so redo may start there. */
  lemma RedoBegins(log: Log, ends: seq<Rec>, n: nat, redoLsn: nat, dpt: map<nat, nat>, m: Store)
    requires |log| <= n <= |log + ends| && redoLsn <= n && StoreOk(log + ends, n, m) && Covers(log + ends, n, dpt, m)
    requires forall pg :: pg in dpt ==> redoLsn <= dpt[pg]
    ensures RedoneTo(log + ends, n, redoLsn, dpt, m, m)
  {}

  lemma RedoKeeps(s: Sys, s': Sys)
    requires Inv(s) && Redo(s, s')
    ensures Inv(s')
  {
    RedoneStep(s.log, s.flushed, s.ph.i, s.ph.dpt, s.pages, s.pages);
  }

  lemma RedoEndsKeeps(s: Sys, s': Sys)
    requires Inv(s) && RedoEnds(s, s')
    ensures Inv(s')
  {
    if |s.log| > 0 { FirstIsBegin(s.log); }
    RedoneAll(s.log, s.flushed, s.ph.dpt, s.pages, s.pages);
    forall pg
      ensures LastWrite(s.log, |s.log|, pg) == LastWrite(s.log, s.flushed, pg)
    {}
  }

  lemma UndoKeeps(s: Sys, s': Sys, t: nat)
    requires Inv(s) && Undo(s, s', t)
    ensures Inv(s')
  {
    hide Legal, UndoTable, StoreOk, UpToDate, UndoRound, RedoneTo;
    UndoStores(s.log, t, s.ph.att, s.flushed, s.pages, s.disk);
    UndoGoesOn(s.log, t, s.ph.att, s.pages);
  }

  lemma UndoGoesOn(log: Log, t: nat, att: map<nat, TxnData>, m: Store)
    requires Legal(log) && UpToDate(log, m) && UndoTable(log, att) && t in att && att[t].undoNext < |log|
    requires log[att[t].undoNext].Update? ==> log[att[t].undoNext].pg in m
    ensures var (log', att', m') := UndoRound(log, t, att, m);
            Legal(log') && UpToDate(log', m') && UndoTable(log', att')
  {
    hide UndoRound, UpToDate, UndoTable;
    UndoRoundKeeps(log, |log|, t, att, m, m);
  }

  lemma UndoStores(log: Log, t: nat, att: map<nat, TxnData>, n: nat, m: Store, disk: Store)
    requires n <= |log| && t in att && att[t].undoNext < |log|
    requires log[att[t].undoNext].Update? ==> log[att[t].undoNext].pg in m
    requires StoreOk(log, n, m) && StoreOk(log, n, disk) && m.Keys == disk.Keys
    requires forall k :: n <= k < |log| ==> log[k].End?
    ensures var (log', att', m') := UndoRound(log, t, att, m);
            var n' := if log[att[t].undoNext].Update? then |log'| else n;
            && n' <= |log'| && StoreOk(log', n', m') && StoreOk(log', n', disk) && m'.Keys == disk.Keys
            && forall k :: n' <= k < |log'| ==> log'[k].End?
  {}

  lemma EvictKeeps(s: Sys, s': Sys, pg: nat)
    requires Inv(s) && Evict(s, s', pg)
    ensures Inv(s')
  {
    hide Legal, UndoTable, UpToDate;
    if s.ph.Working? { StoreOkLater(s.log, s.flushed, |s.log|, s.disk); }
    if s.ph.Opened? || s.ph.Refused? { assert s'.disk == s.disk; }
  }

  lemma FlushKeeps(s: Sys, s': Sys)
    requires Inv(s) && Flush(s, s')
    ensures Inv(s')
  {
    hide Legal, UndoTable, UpToDate;
    StoreOkLater(s.log, s.flushed, s'.flushed, s.disk);
    match s.ph
    case Redoing(i, dpt, att) =>
      StoreOkLater(s.log, s.flushed, s'.flushed, s.pages);
    case Undoing(att) =>
      StoreOkLater(s.log, s.flushed, s'.flushed, s.pages);
    case _ =>
  }

  /** No step of normal work, of a restart, or of a crash in either leaves the invariant. */
  lemma StepKeeps(s: Sys, s': Sys)
    requires Inv(s) && (WorkStep(s, s') || RestartStep(s, s', true))
    ensures Inv(s')
  {
    hide Inv, Flush, Redo, RedoEnds, UndoEnds, Evict, Crash, Analyze, Undo, Extend, Work;
    if Flush(s, s') { FlushKeeps(s, s'); }
    else if Redo(s, s') { RedoKeeps(s, s'); }
    else if RedoEnds(s, s') { RedoEndsKeeps(s, s'); }
    else if UndoEnds(s, s') { UndoEndsKeeps(s, s'); }
    else if pg :| Evict(s, s', pg) { EvictKeeps(s, s', pg); }
    else if k :| Crash(s, s', k) { CrashKeeps(s, s', k); }
    else if ends, redoLsn :| Analyze(s, s', ends, redoLsn, true) { AnalyzeKeeps(s, s', ends, redoLsn); }
    else if t :| Undo(s, s', t) { UndoKeeps(s, s', t); }
    else if pg :| Extend(s, s', pg) { ExtendKeeps(s, s', pg); }
    else if r :| Work(s, s', r) { WorkKeeps(s, s', r); }
  }

  lemma UndoEndsKeeps(s: Sys, s': Sys)
    requires Inv(s) && UndoEnds(s, s')
    ensures Inv(s')
  {
    StoreOkLater(s.log, s.flushed, |s.log|, s.pages);
  }

  lemma ExtendKeeps(s: Sys, s': Sys, pg: nat)
    requires Inv(s) && Extend(s, s', pg)
    ensures Inv(s')
  {
    assert LastWrite(s.log, |s.log|, pg) == -1;
  }

  // ---------------------------------------------------------------- over whole runs

  /** s is a moment of the restarts that followed the opening s0: the log s0 found is still
      there, on stable storage, and only compensation and end records follow it. */
  ghost predicate Since(s0: Sys, s: Sys) {
    && |s0.log| <= s.flushed <= |s.log|
    && SamePrefix(s0.log, s.log, |s0.log|)
    && (forall k :: |s0.log| <= k < |s.log| ==> s.log[k].Clr? || s.log[k].End?)
  }

  lemma SinceAnalyze(s0: Sys, s: Sys, s': Sys, ends: seq<Rec>, redoLsn: nat, lookup: bool)
    requires Since(s0, s) && Analyze(s, s', ends, redoLsn, lookup)
    ensures Since(s0, s')
  {
    assert forall k :: |s.log| <= k < |s'.log| ==> s'.log[k] == ends[k - |s.log|];
  }

  lemma SinceUndo(s0: Sys, s: Sys, s': Sys, t: nat)
    requires Since(s0, s) && Undo(s, s', t)
    ensures Since(s0, s')
  {}

  lemma SinceStep(s0: Sys, s: Sys, s': Sys)
    requires Inv(s) && Since(s0, s) && RestartStep(s, s', true)
    ensures Since(s0, s')
  {
    hide Inv, Analyze, Undo;
    if ends, redoLsn :| Analyze(s, s', ends, redoLsn, true) { SinceAnalyze(s0, s, s', ends, redoLsn, true); }
    else if t :| Undo(s, s', t) { SinceUndo(s0, s, s', t); }
    else { SinceShorter(s0, s, s'); }
  }

  lemma SinceShorter(s0: Sys, s: Sys, s': Sys)
    requires Since(s0, s) && s.flushed <= s'.flushed <= |s'.log| <= |s.log|
    requires forall k :: 0 <= k < |s'.log| ==> s'.log[k] == s.log[k]
    ensures Since(s0, s')
  {}

  /** What is owed does not move while restarts come and go. */
  lemma OwedSince(s0: Sys, s: Sys, pg: nat)
    requires Inv(s) && Since(s0, s) && LastWrite(s0.log, |s0.log|, pg) >= 0
    ensures CommittedImage(s.log, |s.log|, pg) == CommittedImage(s0.log, |s0.log|, pg)
  {
    PrefixStable(s0.log, s.log, |s0.log|);
    OwedStable(s0.log, s.log, |s0.log|, pg);
    OwedUnchanged(s.log, |s0.log|, |s.log|, pg);
  }

  /** A restart that comes to its end holds every page as it is owed. */
  lemma RestartEndsRight(s0: Sys, s: Sys, s': Sys)
    requires Inv(s) && Since(s0, s) && UndoEnds(s, s')
    ensures forall pg :: pg in s'.pages && LastWrite(s0.log, |s0.log|, pg) >= 0 ==>
              s'.pages[pg].image == CommittedImage(s0.log, |s0.log|, pg)
    ensures forall t :: !Active(s'.log, |s'.log|, t)
  {
    assert forall t :: Active(s.log, |s.log|, t) ==> t in s.ph.att;
    AllFinished(s.log, |s.log|, s.pages);
    forall pg | pg in s'.pages && LastWrite(s0.log, |s0.log|, pg) >= 0
      ensures s'.pages[pg].image == CommittedImage(s0.log, |s0.log|, pg)
    {
      OwedSince(s0, s, pg);
      PrefixStable(s0.log, s.log, |s0.log|);
      WritesAccumulate(s.log, |s0.log|, |s.log|, pg);
    }
  }

  ghost predicate RestartRun(run: seq<Sys>, lookup: bool) {
    && |run| > 0 && run[0].ph.Opened? && Inv(run[0])
    && forall i :: 0 <= i < |run| - 1 ==> RestartStep(run[i], run[i + 1], lookup)
  }

  lemma {:induction false} RunKeeps(run: seq<Sys>, i: nat)
    requires RestartRun(run, true) && i < |run|
    ensures Inv(run[i]) && Since(run[0], run[i])
  {
    if i > 0 {
      RunKeeps(run, i - 1);
      assert RestartStep(run[i - 1], run[i - 1 + 1], true);
      StepKeeps(run[i - 1], run[i]);
      SinceStep(run[0], run[i - 1], run[i]);
    }
  }

  /** Crash-tolerant recovery.  Whatever happens after a pager is opened on a surviving log,
      redo and undo interrupted by any number of crashes at any point, any pages written out
      on the way, once a restart completes every page is what the log that was first found
      owes: the images of the committed transactions' surviving updates and nothing else. */
  lemma RecoveryToleratesCrashes(run: seq<Sys>)
    requires RestartRun(run, true) && run[|run| - 1].ph.Working?
    ensures var log, last := run[0].log, run[|run| - 1];
            && (forall pg :: pg in last.pages && LastWrite(log, |log|, pg) >= 0 ==>
                  last.pages[pg].image == CommittedImage(log, |log|, pg))
            && (forall t :: !Active(last.log, |last.log|, t))
            && Inv(last)
  {
    var n := |run| - 1;
    RunKeeps(run, n);
    RunKeeps(run, n - 1);
    assert RestartStep(run[n - 1], run[n - 1 + 1], true);
    OnlyUndoEndsFinishes(run[n - 1], run[n], true);
    RestartEndsRight(run[0], run[n - 1], run[n]);
  }

  /** A log without an update: however often it is opened, and whichever way analysis reads it,
      the restart is refused. */
  lemma {:induction false} NeverOpens(run: seq<Sys>, lookup: bool, i: nat)
    requires RestartRun(run, lookup) && i < |run|
    requires forall k :: 0 <= k < |run[0].log| ==> !run[0].log[k].Update?
    ensures run[i].ph.Opened? || run[i].ph.Refused?
    ensures forall k :: 0 <= k < |run[i].log| ==> !run[i].log[k].Update?
  {
    if i > 0 {
      NeverOpens(run, lookup, i - 1);
      assert RestartStep(run[i - 1], run[i - 1 + 1], lookup);
      StaysRefused(run[i - 1], run[i], lookup);
    }
  }

  lemma StaysRefused(s: Sys, s': Sys, lookup: bool)
    requires RestartStep(s, s', lookup) && (s.ph.Opened? || s.ph.Refused?)
    requires forall k :: 0 <= k < |s.log| ==> !s.log[k].Update?
    ensures s'.ph.Opened? || s'.ph.Refused?
    ensures forall k :: 0 <= k < |s'.log| ==> !s'.log[k].Update?
  {
    if ends, redoLsn :| Analyze(s, s', ends, redoLsn, lookup) {
      DptNonEmpty(s.log, |s.log|);
      assert forall k :: |s.log| <= k < |s'.log| ==> s'.log[k] == ends[k - |s.log|];
    }
  }

  lemma OnlyUndoEndsFinishes(s: Sys, s': Sys, lookup: bool)
    requires RestartStep(s, s', lookup) && s'.ph.Working?
    ensures UndoEnds(s, s')
  {}

  /** A commit whose record is on stable storage survives every step, crashes included. */
  lemma CommitIsDurable(s: Sys, s': Sys, t: nat)
    requires Inv(s) && (WorkStep(s, s') || RestartStep(s, s', true))
    requires Committed(s.log, s.flushed, t)
    ensures s.flushed <= s'.flushed <= |s'.log| && Committed(s'.log, s'.flushed, t)
  {
    StepKeeps(s, s');
    var i :| 0 <= i < s.flushed && s.log[i].Commit? && s.log[i].tid == t;
    FlushedStays(s, s', i);
  }

  lemma FlushedStays(s: Sys, s': Sys, i: nat)
    requires s.flushed <= |s.log| && i < s.flushed
    requires WorkStep(s, s') || RestartStep(s, s', true)
    ensures s.flushed <= s'.flushed && i < |s'.log| && s'.log[i] == s.log[i]
  {
    hide CanAppend, EndsOf;
    assert s.flushed <= s'.flushed;
  }

  /** Work steps, over any run, reach only states from which all of the above holds. */
  lemma {:induction false} EveryStateIsSafe(run: seq<Sys>, i: nat)
    requires |run| > 0 && run[0] == Sys([], 0, map[], map[], Working) && i < |run|
    requires forall j :: 0 <= j < |run| - 1 ==> WorkStep(run[j], run[j + 1]) || RestartStep(run[j], run[j + 1], true)
    ensures Inv(run[i])
  {
    if i == 0 {
      FreshIsSafe();
    } else {
      EveryStateIsSafe(run, i - 1);
      assert WorkStep(run[i - 1], run[i - 1 + 1]) || RestartStep(run[i - 1], run[i - 1 + 1], true);
      StepKeeps(run[i - 1], run[i]);
    }
  }
}
