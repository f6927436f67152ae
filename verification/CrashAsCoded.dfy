/** Crashes and restarts with the analysis as it is coded.  Its end records may close a
    transaction whose updates still stand, after which the log is not one the pager may write;
    this module says exactly what such restarts come to. */
module CrashAsCoded {
  import opened Wal
  import opened LogFacts
  import opened Recovery
  import opened Restart
  import opened CrashSafety

  // ---------------------------------------------------------------- a log past its end records

  lemma {:induction false} TablesStable(a: Log, b: Log, n: nat, lookup: bool)
    requires SamePrefix(a, b, n)
    ensures AttAt(a, n, lookup) == AttAt(b, n, lookup) && DptAt(a, n) == DptAt(b, n)
  {
    if n > 0 { TablesStable(a, b, n - 1, lookup); }
  }

  /** log is log0 with end records after it. */
  ghost predicate PastEnds(log0: Log, log: Log) {
    SamePrefix(log0, log, |log0|) && |log0| <= |log| && forall k :: |log0| <= k < |log| ==> log[k].End?
  }

  /** End records change neither the dirty page table nor, as coded, that every entry reads as
      its transaction's begin record left it. */
  lemma {:induction false} TablesPastEnds(log0: Log, log: Log, n: nat)
    requires Legal(log0) && PastEnds(log0, log) && |log0| <= n <= |log|
    ensures DptAt(log, n) == DptAt(log0, |log0|)
    ensures forall t :: t in AttAt(log, n, false) ==> Finished(AttAt(log, n, false)[t])
  {
    if n == |log0| {
      TablesStable(log0, log, n, false);
      AttCoded(log0, n);
    } else {
      TablesPastEnds(log0, log, n - 1);
    }
  }

  lemma NoneUnfinished(att: map<nat, TxnData>)
    requires forall t :: t in att ==> Finished(att[t])
    ensures Unfinished(att) == map[]
  {
    assert Unfinished(att).Keys == {};
  }

  lemma WritesPastEnds(log0: Log, log: Log, pg: nat)
    requires PastEnds(log0, log)
    ensures LastWrite(log, |log|, pg) == LastWrite(log0, |log0|, pg)
  {
    var i, j := LastWrite(log, |log|, pg), LastWrite(log0, |log0|, pg);
  }

  // ---------------------------------------------------------------- the invariant

  /** A moment of the restarts, as coded, that followed the opening on log0. */
  ghost predicate Coded(log0: Log, s: Sys) {
    && Legal(log0)
    && |log0| <= s.flushed <= |s.log| && PastEnds(log0, s.log)
    && s.pages.Keys == s.disk.Keys
    && StoreOk(s.log, s.flushed, s.disk)
    && match s.ph
       case Working => StoreOk(s.log, |s.log|, s.pages) && UpToDate(s.log, s.pages)
       case Opened => s.pages == s.disk && s.flushed == |s.log|
       case Refused => s.pages == s.disk
       case Redoing(i, dpt, att) => i <= s.flushed && RedoneTo(s.log, s.flushed, i, dpt, s.pages, s.pages) && att == map[]
       case Undoing(att) => StoreOk(s.log, s.flushed, s.pages) && UpToDate(s.log, s.pages) && att == map[]
  }

  lemma CodedAnalyze(log0: Log, s: Sys, s': Sys, ends: seq<Rec>, redoLsn: nat)
    requires Coded(log0, s) && Analyze(s, s', ends, redoLsn, false)
    ensures Coded(log0, s')
  {
    hide Legal, AttAt, DptAt, Covers, StoreOk, UpToDate, RedoneTo, PastEnds;
    AnalyzeStores(s.log, ends, s'.flushed, s.disk);
    CodedTables(log0, s.log, ends, s'.flushed, s.pages);
    RedoBegins(s.log, ends, s'.flushed, redoLsn, DptAt(s.log, |s.log|), s.pages);
  }

  lemma CodedTables(log0: Log, log: Log, ends: seq<Rec>, n: nat, m: Store)
    requires Legal(log0) && PastEnds(log0, log) && StoreOk(log, |log|, m) && |log| <= n <= |log + ends|
    requires forall k :: 0 <= k < |ends| ==> ends[k].End?
    ensures PastEnds(log0, log + ends) && Covers(log + ends, n, DptAt(log, |log|), m)
    ensures Unfinished(AttAt(log, |log|, false)) == map[]
  {
    hide Legal, AttAt, DptAt, Covers, StoreOk;
    AnalyzeStores(log, ends, n, m);
    TablesPastEnds(log0, log, |log|);
    NoneUnfinished(AttAt(log, |log|, false));
    DptAtFirst(log0, |log0|);
    if |log0| > 0 { FirstIsBegin(log0); }
    WrittenThere(log0, log, |log|, m);
    hide FirstUpdates;
    FirstUpdatesPastEnds(log0, log + ends, n, DptAt(log, |log|), m);
  }

  lemma WrittenThere(log0: Log, log: Log, n: nat, m: Store)
    requires PastEnds(log0, log) && n <= |log| && StoreOk(log, n, m)
    ensures forall k :: 0 <= k < |log0| && (log0[k].Update? || log0[k].Clr?) ==> log0[k].pg in m
  {
    assert forall k :: 0 <= k < |log0| ==> log0[k] == log[k];
  }

  lemma CodedRedoEnds(log0: Log, s: Sys, s': Sys)
    requires Coded(log0, s) && RedoEnds(s, s')
    ensures Coded(log0, s')
  {
    if |log0| > 0 {
      FirstIsBegin(log0);
      RedoneAll(s.log, s.flushed, s.ph.dpt, s.pages, s.pages);
    }
    forall pg
      ensures LastWrite(s.log, |s.log|, pg) == LastWrite(s.log, s.flushed, pg)
    {}
  }

  lemma CodedEvict(log0: Log, s: Sys, s': Sys, pg: nat)
    requires Coded(log0, s) && !s.ph.Working? && Evict(s, s', pg)
    ensures Coded(log0, s')
  {
    hide Legal, UpToDate;
    if s.ph.Opened? || s.ph.Refused? { assert s'.disk == s.disk; }
  }

  lemma CodedFlush(log0: Log, s: Sys, s': Sys)
    requires Coded(log0, s) && !s.ph.Working? && Flush(s, s')
    ensures Coded(log0, s')
  {
    hide Legal, UpToDate;
    StoreOkLater(s.log, s.flushed, s'.flushed, s.disk);
  }

  lemma CodedCrash(log0: Log, s: Sys, s': Sys, k: nat)
    requires Coded(log0, s) && Crash(s, s', k)
    ensures Coded(log0, s')
  {
    hide Legal;
  }

  lemma CodedRedo(log0: Log, s: Sys, s': Sys)
    requires Coded(log0, s) && Redo(s, s')
    ensures Coded(log0, s')
  {
    hide Legal;
    RedoneStep(s.log, s.flushed, s.ph.i, s.ph.dpt, s.pages, s.pages);
  }

  lemma CodedUndoEnds(log0: Log, s: Sys, s': Sys)
    requires Coded(log0, s) && UndoEnds(s, s')
    ensures Coded(log0, s')
  {
    StoreOkLater(s.log, s.flushed, |s.log|, s.pages);
  }

  lemma CodedStep(log0: Log, s: Sys, s': Sys)
    requires Coded(log0, s) && RestartStep(s, s', false)
    ensures Coded(log0, s')
  {
    assert s.ph.Undoing? ==> s.ph.att == map[];
    hide Coded, Flush, Redo, RedoEnds, UndoEnds, Evict, Crash, Analyze;
    if Flush(s, s') { CodedFlush(log0, s, s'); }
    else if Redo(s, s') { CodedRedo(log0, s, s'); }
    else if RedoEnds(s, s') { CodedRedoEnds(log0, s, s'); }
    else if UndoEnds(s, s') { CodedUndoEnds(log0, s, s'); }
    else if pg :| Evict(s, s', pg) { CodedEvict(log0, s, s', pg); }
    else if k :| Crash(s, s', k) { CodedCrash(log0, s, s', k); }
    else if ends, redoLsn :| Analyze(s, s', ends, redoLsn, false) { CodedAnalyze(log0, s, s', ends, redoLsn); }
  }

  // ---------------------------------------------------------------- over whole runs

  lemma {:induction false} CodedRun(run: seq<Sys>, i: nat)
    requires RestartRun(run, false) && i < |run|
    ensures Coded(run[0].log, run[i])
  {
    if i > 0 {
      CodedRun(run, i - 1);
      assert RestartStep(run[i - 1], run[i - 1 + 1], false);
      CodedStep(run[0].log, run[i - 1], run[i]);
    }
  }

  /** Whatever crashes and evictions come between, a restart as coded that completes leaves
      every page as the log that was first found last logged it: the image that is owed
      exactly where the unfinished transactions' live updates cancel out. */
  lemma CodedRestartsEnd(run: seq<Sys>)
    requires RestartRun(run, false) && run[|run| - 1].ph.Working?
    ensures var log, last := run[0].log, run[|run| - 1];
            && (forall pg :: pg in last.pages && LastWrite(log, |log|, pg) >= 0 ==>
                  last.pages[pg] == Page(LastWrite(log, |log|, pg), log[LastWrite(log, |log|, pg)].redo))
            && (forall pg :: pg in last.pages && LastWrite(log, |log|, pg) >= 0 ==>
                  (last.pages[pg].image == CommittedImage(log, |log|, pg) <==> LosersCancelOut(log, |log|, pg)))
  {
    var log, last := run[0].log, run[|run| - 1];
    CodedRun(run, |run| - 1);
    forall pg | pg in last.pages && LastWrite(log, |log|, pg) >= 0
      ensures last.pages[pg] == Page(LastWrite(log, |log|, pg), log[LastWrite(log, |log|, pg)].redo)
      ensures last.pages[pg].image == CommittedImage(log, |log|, pg) <==> LosersCancelOut(log, |log|, pg)
    {
      WritesPastEnds(log, last.log, pg);
      AsCodedIsRightIff(log, |log|, pg);
    }
  }

  // ---------------------------------------------------------------- when the code meets the invariant

  /** No unfinished transaction has anything left to undo. */
  ghost predicate Quiet(log: Log) {
    forall t :: Active(log, |log|, t) ==> Head(log, |log|, t) == -1
  }

  /** The analysis as coded keeps the invariant of crash safety exactly on the logs that leave
      nothing to undo. */
  lemma CodedAnalyzeKeepsIff(s: Sys, s': Sys, ends: seq<Rec>, redoLsn: nat)
    requires Inv(s) && Analyze(s, s', ends, redoLsn, false)
    ensures Inv(s') <==> Quiet(s.log)
  {
    CodedEndsLegalIff(s.log, ends);
    CodedAnalyze(s.log, s, s', ends, redoLsn);
    if Quiet(s.log) { CodedKeepsQuiet(s, s', ends, redoLsn); }
  }

  lemma CodedKeepsQuiet(s: Sys, s': Sys, ends: seq<Rec>, redoLsn: nat)
    requires Inv(s) && Analyze(s, s', ends, redoLsn, false) && Legal(s.log + ends) && Coded(s.log, s')
    ensures Inv(s')
  {
    hide Legal, AttAt, StoreOk, RedoneTo, EndsOf;
    AnalyzeEnds(s.log, ends);
    if s'.ph.Redoing? {
      AnalyzeStores(s.log, ends, s'.flushed, s.disk);
      CodedNobodyLeft(s.log, ends);
    }
  }

  lemma AnalyzeEnds(log: Log, ends: seq<Rec>)
    requires EndsOf(ends, AttAt(log, |log|, false), {})
    ensures forall k :: 0 <= k < |ends| ==> ends[k].End?
  {}

  lemma CodedNobodyLeft(log: Log, ends: seq<Rec>)
    requires Legal(log) && EndsOf(ends, AttAt(log, |log|, false), {})
    ensures UndoTable(log + ends, map[])
  {
    var all := log + ends;
    CodedEndsOf(log, ends);
    forall t
      ensures !Active(all, |all|, t)
    {
      EndedBy(log, ends, t);
      if LastOf(log, |log|, t) < 0 {
        NotEndedIn(log, ends, t);
      }
    }
  }
}
