/** A restart can come to its end.  CrashSafety and CrashAsCoded say what holds if it does; here
    every state a pager is opened in, if its log holds an update, has a run to the end. */
module CrashProgress {
  import opened Wal
  import opened LogFacts
  import opened Recovery
  import opened Restart
  import opened CrashSafety

  /** The steps of a restart itself, without crashes and evictions. */
  ghost predicate Onward(s: Sys, s': Sys, lookup: bool) {
    && !s.ph.Working?
    && (|| Redo(s, s') || RedoEnds(s, s') || UndoEnds(s, s')
        || (exists ends, redoLsn :: Analyze(s, s', ends, redoLsn, lookup)) || (exists t :: Undo(s, s', t)))
  }

  ghost predicate Way(run: seq<Sys>, lookup: bool) {
    |run| > 0 && forall i :: 0 <= i < |run| - 1 ==> Onward(run[i], run[i + 1], lookup)
  }

  lemma OnwardIsStep(s: Sys, s': Sys, lookup: bool)
    requires Onward(s, s', lookup)
    ensures RestartStep(s, s', lookup)
  {
    hide Redo, RedoEnds, UndoEnds, Analyze, Undo;
  }

  lemma Prepended(s: Sys, run: seq<Sys>, lookup: bool)
    requires Way(run, lookup) && Onward(s, run[0], lookup)
    ensures Way([s] + run, lookup)
  {
    hide Onward;
    var all := [s] + run;
    forall i | 0 <= i < |all| - 1
      ensures Onward(all[i], all[i + 1], lookup)
    {
      if i > 0 { assert Onward(run[i - 1], run[i - 1 + 1], lookup); }
    }
  }

  lemma Joined(a: seq<Sys>, b: seq<Sys>, lookup: bool)
    requires Way(a, lookup) && Way(b, lookup) && Onward(a[|a| - 1], b[0], lookup)
    ensures Way(a + b, lookup)
  {
    hide Onward;
    var all := a + b;
    forall i | 0 <= i < |all| - 1
      ensures Onward(all[i], all[i + 1], lookup)
    {
      if i < |a| - 1 {
        assert Onward(a[i], a[i + 1], lookup);
      } else if i >= |a| {
        assert Onward(b[i - |a|], b[i - |a| + 1], lookup);
      }
    }
  }

  lemma {:induction false} WayKeeps(run: seq<Sys>, i: nat)
    requires Way(run, true) && i < |run| && Inv(run[0])
    ensures Inv(run[i])
  {
    if i > 0 {
      WayKeeps(run, i - 1);
      assert Onward(run[i - 1], run[i - 1 + 1], true);
      OnwardIsStep(run[i - 1], run[i], true);
      StepKeeps(run[i - 1], run[i]);
    }
  }

  // ---------------------------------------------------------------- analysis

  /** Every table has its end records. */
  lemma EndsExist(att: map<nat, TxnData>) returns (ends: seq<Rec>)
    ensures EndsOf(ends, att, {})
  {
    ends := [];
    var todo := att.Keys;
    while todo != {}
      invariant todo <= att.Keys && EndsOf(ends, att, todo)
      decreases todo
    {
      var t :| t in todo;
      EndsOfStep(ends, att, todo, t);
      ends := if Finished(att[t]) then ends + [End(t, att[t].last)] else ends;
      todo := todo - {t};
    }
  }

  /** And every dirty page table that is not empty its least recLSN. */
  lemma LeastOf(dpt: map<nat, nat>) returns (min: nat)
    requires dpt != map[]
    ensures exists pg :: pg in dpt && dpt[pg] == min
    ensures forall pg :: pg in dpt ==> min <= dpt[pg]
  {
    var todo := dpt.Keys;
    var first :| first in dpt;
    min := dpt[first];
    while todo != {}
      invariant todo <= dpt.Keys && exists pg :: pg in dpt && dpt[pg] == min
      invariant forall pg :: pg in dpt && pg !in todo ==> min <= dpt[pg]
      decreases todo
    {
      var pg :| pg in todo;
      if dpt[pg] < min { min := dpt[pg]; }
      todo := todo - {pg};
    }
  }

  lemma Analyzes(s: Sys, lookup: bool) returns (s': Sys)
    requires Inv(s) && s.ph.Opened? && DptAt(s.log, |s.log|) != map[]
    requires forall pg :: pg in DptAt(s.log, |s.log|) ==> DptAt(s.log, |s.log|)[pg] <= |s.log|
    ensures Onward(s, s', lookup) && RedoReady(s')
    ensures s'.ph.att == Unfinished(AttAt(s.log, |s.log|, lookup))
  {
    var dpt, att := DptAt(s.log, |s.log|), AttAt(s.log, |s.log|, lookup);
    var ends := EndsExist(att);
    var min := LeastOf(dpt);
    s' := s.(log := s.log + ends, ph := Redoing(min, dpt, Unfinished(att)));
    assert Analyze(s, s', ends, min, lookup);
    hide Legal, StoreOk, UndoTable, Covers, AttAt, DptAt, UpToDate, RedoneTo;
    AnalyzeStores(s.log, ends, s.flushed, s.pages);
    CoverPastEnds(s.log, ends, s.flushed, s.pages);
    RedoBegins(s.log, ends, s.flushed, min, dpt, s.pages);
  }

  // ---------------------------------------------------------------- redo

  ghost predicate RedoReady(s: Sys) {
    && s.ph.Redoing? && s.ph.i <= s.flushed <= |s.log|
    && RedoneTo(s.log, s.flushed, s.ph.i, s.ph.dpt, s.pages, s.pages)
  }

  lemma RedoneAgain(s: Sys) returns (s': Sys)
    requires RedoReady(s) && s.ph.i < s.flushed
    ensures Redo(s, s') && RedoReady(s')
    ensures s'.ph.att == s.ph.att && s'.ph.i == s.ph.i + 1 && s'.flushed == s.flushed
  {
    RedoneStep(s.log, s.flushed, s.ph.i, s.ph.dpt, s.pages, s.pages);
    var r := s.log[s.ph.i];
    assert (r.Update? || r.Clr?) ==> r.pg in s.pages;
    var (dpt, pages) := RedoRecord(r, s.ph.i, s.ph.dpt, s.pages);
    s' := s.(pages := pages, ph := Redoing(s.ph.i + 1, dpt, s.ph.att));
  }

  lemma {:induction false} RedoRuns(s: Sys, lookup: bool) returns (run: seq<Sys>)
    requires RedoReady(s)
    ensures Way(run, lookup) && run[0] == s
    ensures var last := run[|run| - 1]; last.ph.Undoing? && last.ph.att == s.ph.att
    decreases s.flushed - s.ph.i
  {
    if s.ph.i == s.flushed {
      var s' := s.(ph := Phase.Undoing(s.ph.att));
      assert RedoEnds(s, s');
      run := [s, s'];
      assert Onward(s, s', lookup);
    } else {
      var s' := RedoneAgain(s);
      assert Onward(s, s', lookup);
      hide Onward, RedoReady, Redo;
      run := RedoRuns(s', lookup);
      Prepended(s, run, lookup);
      run := [s] + run;
    }
  }

  // ---------------------------------------------------------------- undo

  lemma GreatestPointer(att: map<nat, TxnData>) returns (t: nat)
    requires att != map[]
    ensures t in att && forall u :: u in att ==> att[u].undoNext <= att[t].undoNext
  {
    t :| t in att;
    var todo := att.Keys;
    while todo != {}
      invariant todo <= att.Keys && t in att
      invariant forall u :: u in att && u !in todo ==> att[u].undoNext <= att[t].undoNext
      decreases todo
    {
      var u :| u in todo;
      if att[u].undoNext > att[t].undoNext { t := u; }
      todo := todo - {u};
    }
  }

  lemma UndoneAgain(s: Sys) returns (s': Sys, bound: nat)
    requires Inv(s) && s.ph.Undoing? && s.ph.att != map[]
    ensures (exists t :: Undo(s, s', t)) && Inv(s') && s'.ph.Undoing?
    ensures forall u :: u in s'.ph.att ==> s'.ph.att[u].undoNext < bound
    ensures exists u :: u in s.ph.att && s.ph.att[u].undoNext == bound
  {
    var t := GreatestPointer(s.ph.att);
    NextToUndo(s.log, s.flushed, t, s.ph.att, s.pages);
    UndoFalls(s.log, t, s.ph.att, s.pages);
    bound := s.ph.att[t].undoNext;
    var u := bound;
    var (log, att, pages) := UndoRound(s.log, t, s.ph.att, s.pages);
    s' := s.(log := log, flushed := if s.log[u].Update? then |log| else s.flushed, pages := pages, ph := Phase.Undoing(att));
    hide UndoRound, UndoTable, UpToDate, Legal, StoreOk;
    assert Undo(s, s', t);
    UndoKeeps(s, s', t);
  }

  lemma {:induction false} UndoRuns(s: Sys, bound: nat) returns (run: seq<Sys>)
    requires Inv(s) && s.ph.Undoing? && forall u :: u in s.ph.att ==> s.ph.att[u].undoNext < bound
    ensures Way(run, true) && run[0] == s && run[|run| - 1].ph.Working?
    decreases bound
  {
    if s.ph.att == map[] {
      run := Finishes(s, true);
    } else {
      var s', less := UndoneAgain(s);
      assert Onward(s, s', true);
      hide Onward, Inv, Undo;
      run := UndoRuns(s', less);
      Prepended(s, run, true);
      run := [s] + run;
    }
  }

  lemma Finishes(s: Sys, lookup: bool) returns (run: seq<Sys>)
    requires s.ph == Phase.Undoing(map[])
    ensures Way(run, lookup) && run[0] == s && run[|run| - 1].ph.Working?
  {
    var s' := s.(ph := Working);
    assert UndoEnds(s, s');
    run := [s, s'];
    assert Onward(s, s', lookup);
  }

  lemma UndoPointersBelow(log: Log, att: map<nat, TxnData>)
    requires UndoTable(log, att)
    ensures forall u :: u in att ==> att[u].undoNext < |log|
  {
    OwnPointers(log, att);
  }

  // ---------------------------------------------------------------- whole restarts

  ghost predicate HoldsUpdate(log: Log) {
    exists k :: 0 <= k < |log| && log[k].Update?
  }

  lemma OpenedTables(s: Sys)
    requires Inv(s) && s.ph.Opened? && HoldsUpdate(s.log)
    ensures DptAt(s.log, |s.log|) != map[]
    ensures forall pg :: pg in DptAt(s.log, |s.log|) ==> DptAt(s.log, |s.log|)[pg] <= |s.log|
  {
    DptNonEmpty(s.log, |s.log|);
    DptAtFirst(s.log, |s.log|);
  }

  /** From every state a pager is opened in whose log holds an update, the restart has a run to
      its end, in either reading of analysis. */
  lemma CanOpen(s: Sys, lookup: bool) returns (run: seq<Sys>)
    requires Inv(s) && s.ph.Opened? && HoldsUpdate(s.log)
    ensures Way(run, lookup) && run[0] == s && run[|run| - 1].ph.Working?
  {
    OpenedTables(s);
    var s' := Analyzes(s, lookup);
    run := RedoRuns(s', lookup);
    hide Onward, RedoReady, Inv, Unfinished;
    Prepended(s, run, lookup);
    run := [s] + run;
    var tail := TailOf(s, run, lookup);
    assert Way(run[..|run| - 1], lookup) by { Shorter(run, lookup); }
    if |run| > 1 { assert Onward(run[|run| - 2], run[|run| - 2 + 1], lookup); }
    Joined(run[..|run| - 1], tail, lookup);
    run := run[..|run| - 1] + tail;
  }

  lemma Shorter(run: seq<Sys>, lookup: bool)
    requires Way(run, lookup) && |run| > 1
    ensures Way(run[..|run| - 1], lookup)
  {
    hide Onward;
    forall i | 0 <= i < |run| - 2
      ensures Onward(run[i], run[i + 1], lookup)
    {}
  }

  /** Undo from the end of redo. */
  lemma TailOf(s: Sys, run: seq<Sys>, lookup: bool) returns (tail: seq<Sys>)
    requires Inv(s) && s.ph.Opened? && Way(run, lookup) && run[0] == s && run[|run| - 1].ph.Undoing?
    requires run[|run| - 1].ph.att == Unfinished(AttAt(s.log, |s.log|, lookup))
    ensures Way(tail, lookup) && tail[0] == run[|run| - 1] && tail[|tail| - 1].ph.Working?
  {
    var last := run[|run| - 1];
    hide Onward, Way, Finished;
    if lookup {
      WayKeeps(run, |run| - 1);
      UndoPointersBelow(last.log, last.ph.att);
      tail := UndoRuns(last, |last.log|);
    } else {
      AsCodedUndoesNothing(s.log);
      tail := Finishes(last, false);
    }
  }

  lemma WayIsRun(run: seq<Sys>, lookup: bool)
    requires Way(run, lookup) && run[0].ph.Opened? && Inv(run[0])
    ensures RestartRun(run, lookup)
  {
    forall i | 0 <= i < |run| - 1
      ensures RestartStep(run[i], run[i + 1], lookup)
    {
      assert Onward(run[i], run[i + 1], lookup);
      OnwardIsStep(run[i], run[i + 1], lookup);
    }
  }

  ghost predicate Completes(run: seq<Sys>, s: Sys, lookup: bool) {
    RestartRun(run, lookup) && run[0] == s && run[|run| - 1].ph.Working?
  }

  /** A restart from an opened state can come to its end, crashes and evictions or none, if and
      only if the log that was found holds an update. */
  lemma OpensIff(s: Sys, lookup: bool)
    requires Inv(s) && s.ph.Opened?
    ensures (exists run :: Completes(run, s, lookup)) <==> HoldsUpdate(s.log)
  {
    if HoldsUpdate(s.log) {
      var run := CanOpen(s, lookup);
      hide Inv, Way;
      WayIsRun(run, lookup);
      assert Completes(run, s, lookup);
    } else if run :| Completes(run, s, lookup) {
      NeverOpens(run, lookup, |run| - 1);
    }
  }
}
