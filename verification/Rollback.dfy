/** Rolling a transaction back to a savepoint. */
module Rollback {
  import opened Wal
  import opened LogFacts
  import opened Recovery

  /** The live updates of t above a savepoint. */
  ghost function LiveAbove(log: Log, n: nat, t: nat, save: nat): set<int>
    requires n <= |log|
  {
    set j | save < j < n && Live(log, n, j) && log[j].tid == t
  }

  /** One round of the loop: what becomes of log, entry and pages. */
  function RollbackRound(log: Log, d: TxnData, m: Store): (Log, TxnData, Store)
    requires d.undoNext < |log|
  {
    var u := d.undoNext;
    match log[u]
    case Update(_, prev, pg, undo, _) =>
      (log + [ClrFor(log, u, d.last)], d.(last := |log|, undoNext := prev), m[pg := Page(|log|, undo)])
    case Clr(_, _, _, next, _) => (log, d.(undoNext := next), m)
    case _ => (log, d.(undoNext := 0), m)
  }

  /** A rollback of t to save in progress since log0: nothing has come to life, and only live
      updates of t above the savepoint have been taken back, one by each record added. */
  ghost predicate RollingBack(log0: Log, log: Log, t: nat, save: nat) {
    && |log0| <= |log| && SamePrefix(log0, log, |log0|)
    && Legal(log)
    && (forall k :: |log0| <= k < |log| ==> log[k].Clr? && log[k].tid == t)
    && (forall j :: Live(log, |log|, j) ==> Live(log0, |log0|, j))
    && (forall j :: Live(log0, |log0|, j) && !(log0[j].tid == t && j > save) ==> Live(log, |log|, j))
    && |log| + |LiveAbove(log, |log|, t, save)| == |log0| + |LiveAbove(log0, |log0|, t, save)|
  }

  lemma RollbackStarts(log: Log, t: nat, save: nat)
    requires Legal(log)
    ensures RollingBack(log, log, t, save)
  {}

  /** A round takes back the update the entry stands for, or moves the entry past a record
      that is not to be undone; either way the undo pointer falls. */
  lemma RoundKeeps(log0: Log, log: Log, t: nat, save: nat, d: TxnData, m: Store)
    requires RollingBack(log0, log, t, save) && Tracks(log, t, d) && save < d.undoNext
    requires log[d.undoNext].Update? ==> log[d.undoNext].pg in m
    ensures var (log', d', m') := RollbackRound(log, d, m);
            RollingBack(log0, log', t, save) && Tracks(log', t, d') && d'.undoNext < d.undoNext
  {
    PointerFacts(log, t, d.undoNext);
    match log[d.undoNext]
    case Update(_, _, _, _, _) =>
      AppendClr(log, t, d);
      TakesBack(log0, log, t, save, d);
    case Clr(_, _, _, _, _) =>
      SkipClr(log, t, d);
    case _ =>
      FirstIsBegin(log);
  }

  lemma TakesBack(log0: Log, log: Log, t: nat, save: nat, d: TxnData)
    requires RollingBack(log0, log, t, save) && Tracks(log, t, d) && save < d.undoNext
    requires log[d.undoNext].Update? && log[d.undoNext].tid == t
    requires Legal(log + [ClrFor(log, d.undoNext, d.last)])
    requires forall j :: Live(log + [ClrFor(log, d.undoNext, d.last)], |log| + 1, j) <==> Live(log, |log|, j) && j != d.undoNext
    ensures RollingBack(log0, log + [ClrFor(log, d.undoNext, d.last)], t, save)
  {
    var u := d.undoNext;
    var log' := log + [ClrFor(log, u, d.last)];
    assert Live(log, |log|, u) by { assert Resolve(log, u) == u; }
    var a, b := LiveAbove(log, |log|, t, save), LiveAbove(log', |log'|, t, save);
    assert u in a;
    assert b == a - {u} by {
      forall j
        ensures j in b <==> j in a - {u}
      {
        if j in b { assert Live(log', |log'|, j); }
        if j in a && j != u { assert Live(log', |log'|, j); }
      }
    }
  }

  // ---------------------------------------------------------------- what a rollback achieves

  /** Once the undo pointer is at or below the savepoint, the live updates are those of before
      without the transaction's own above the savepoint. */
  lemma RollbackDone(log0: Log, log: Log, t: nat, save: nat, d: TxnData)
    requires RollingBack(log0, log, t, save) && Tracks(log, t, d) && d.undoNext <= save
    ensures forall j :: Live(log, |log|, j) <==> Live(log0, |log0|, j) && !(log0[j].tid == t && j > save)
    ensures |log| == |log0| + |LiveAbove(log0, |log0|, t, save)|
  {
    assert LiveAbove(log, |log|, t, save) == {};
    forall j | Live(log, |log|, j)
      ensures !(log0[j].tid == t && j > save)
    {
      assert log[j] == log0[j];
    }
  }

  /** When a rollback keeps its promise: the loop stops early, with nothing done, when the
      undo pointer has not reached stable storage (found is false), and then the updates above
      the savepoint stay unless there were none. */
  lemma RollbackVerdict(log0: Log, log: Log, t: nat, save: nat, d: TxnData, found: bool)
    requires RollingBack(log0, log, t, save) && Tracks(log, t, d)
    requires if found then d.undoNext <= save else log == log0
    ensures found ==>
              forall j :: Live(log, |log|, j) <==> Live(log0, |log0|, j) && !(log0[j].tid == t && j > save)
    ensures found ==> |log| == |log0| + |LiveAbove(log0, |log0|, t, save)|
    ensures Head(log, |log|, t) <= save <==> found || Head(log0, |log0|, t) <= save
  {
    if found { RollbackDone(log0, log, t, save, d); }
  }

  /** The oldest live update of t above the savepoint on a page. */
  ghost predicate OldestAbove(log: Log, n: nat, t: nat, save: nat, pg: nat, o: int)
    requires n <= |log|
  {
    && LiveOn(log, n, pg, o) && log[o].tid == t && save < o
    && forall i :: LiveOn(log, n, pg, i) && log[i].tid == t && save < i ==> o <= i
  }

  /** Two prefixes with the same live updates of a page show the same image of it. */
  lemma SameImage(a: Log, na: nat, ma: nat, b: Log, nb: nat, mb: nat, pg: nat)
    requires ma <= na <= |a| && mb <= nb <= |b|
    requires forall j :: LiveOn(a, na, pg, j) && j < ma <==> LiveOn(b, nb, pg, j) && j < mb
    requires forall j :: 0 <= j < ma && j < mb ==> a[j] == b[j]
    requires Base(a, na, pg) == Base(b, nb, pg)
    ensures ImageBelow(a, na, pg, ma) == ImageBelow(b, nb, pg, mb)
  {
    var i, j := TopBelow(a, na, pg, ma), TopBelow(b, nb, pg, mb);
    if i >= 0 { assert LiveOn(b, nb, pg, i); }
    if j >= 0 { assert LiveOn(a, na, pg, j); }
  }

  lemma SameImageWhole(a: Log, na: nat, b: Log, nb: nat, pg: nat)
    requires nb <= na <= |a| && nb <= |b| && SamePrefix(a, b, nb)
    requires forall j :: LiveOn(a, na, pg, j) <==> LiveOn(b, nb, pg, j)
    requires Base(a, na, pg) == Base(b, nb, pg)
    ensures ImageBelow(a, na, pg, na) == ImageBelow(b, nb, pg, nb)
  {
    SameImage(a, na, na, b, nb, nb, pg);
  }

  /** What stays live on a page is what lies under the oldest update taken back. */
  lemma LiveUnderOldest(log0: Log, log: Log, t: nat, save: nat, pg: nat, o: nat)
    requires Legal(log0) && |log0| <= |log| && SamePrefix(log0, log, |log0|) && Active(log0, |log0|, t)
    requires forall j :: Live(log, |log|, j) <==> Live(log0, |log0|, j) && !(log0[j].tid == t && j > save)
    requires OldestAbove(log0, |log0|, t, save, pg, o)
    ensures forall i :: LiveOn(log, |log|, pg, i) <==> LiveOn(log0, |log0|, pg, i) && i < o
  {
    forall i | LiveOn(log0, |log0|, pg, i) && o < i
      ensures log0[i].tid == t
    {
      IsolatedOn(log0, |log0|, pg, o, i);
    }
  }

  /** A rolled-back page shows what the transaction found when it first wrote it after the
      savepoint. */
  lemma RolledBackImage(log0: Log, log: Log, t: nat, save: nat, pg: nat, o: nat)
    requires Legal(log0) && Legal(log) && |log0| <= |log| && SamePrefix(log0, log, |log0|)
    requires Active(log0, |log0|, t)
    requires forall j :: Live(log, |log|, j) <==> Live(log0, |log0|, j) && !(log0[j].tid == t && j > save)
    requires OldestAbove(log0, |log0|, t, save, pg, o)
    ensures LastWrite(log, |log|, pg) >= 0 && log[LastWrite(log, |log|, pg)].redo == log0[o].undo
  {
    var n0, n := |log0|, |log|;
    assert Writes(log0[o], pg) && Writes(log[o], pg);
    LastImage(log, n, pg);
    UndoImage(log0, n0, pg, o);
    SameBase(log0, log, pg);
    LiveUnderOldest(log0, log, t, save, pg, o);
    assert o < n0;
    hide Legal, Live, OldestAbove;
    SameImage(log, n, n, log0, n0, o, pg);
  }

  /** A page the transaction has no live update on above the savepoint keeps its image. */
  lemma OtherImage(log0: Log, log: Log, t: nat, save: nat, pg: nat)
    requires Legal(log0) && Legal(log) && |log0| <= |log| && SamePrefix(log0, log, |log0|)
    requires forall j :: Live(log, |log|, j) <==> Live(log0, |log0|, j) && !(log0[j].tid == t && j > save)
    requires forall o :: !OldestAbove(log0, |log0|, t, save, pg, o)
    requires LastWrite(log0, |log0|, pg) >= 0
    ensures LastWrite(log, |log|, pg) >= 0
    ensures log[LastWrite(log, |log|, pg)].redo == log0[LastWrite(log0, |log0|, pg)].redo
  {
    var n0, n := |log0|, |log|;
    PrefixStable(log0, log, n0);
    WritesAccumulate(log, n0, n, pg);
    LastImage(log, n, pg);
    LastImage(log0, n0, pg);
    SameBase(log0, log, pg);
    NoneAbove(log0, n0, t, save, pg);
    forall i
      ensures LiveOn(log, n, pg, i) <==> LiveOn(log0, n0, pg, i)
    {}
    SameImageWhole(log, n, log0, n0, pg);
  }

  lemma SameBase(log0: Log, log: Log, pg: nat)
    requires |log0| <= |log| && SamePrefix(log0, log, |log0|) && LastWrite(log0, |log0|, pg) >= 0
    ensures Base(log, |log|, pg) == Base(log0, |log0|, pg)
  {
    var a, b := FirstWrite(log0, |log0|, pg), FirstWrite(log, |log|, pg);
  }

  lemma NoneAbove(log: Log, n: nat, t: nat, save: nat, pg: nat)
    requires n <= |log| && forall o :: !OldestAbove(log, n, t, save, pg, o)
    ensures forall i :: LiveOn(log, n, pg, i) && log[i].tid == t ==> i <= save
  {
    forall i | LiveOn(log, n, pg, i) && log[i].tid == t
      ensures i <= save
    {
      if i > save {
        var o := OldestExists(log, n, t, save, pg, i);
      }
    }
  }

  lemma OldestExists(log: Log, n: nat, t: nat, save: nat, pg: nat, i: nat) returns (o: int)
    requires n <= |log| && LiveOn(log, n, pg, i) && log[i].tid == t && save < i
    ensures OldestAbove(log, n, t, save, pg, o)
  {
    o := save + 1;
    while !(LiveOn(log, n, pg, o) && log[o].tid == t)
      invariant save < o <= i
      invariant forall k :: save < k < o && LiveOn(log, n, pg, k) ==> log[k].tid != t
      decreases i - o
    {
      o := o + 1;
    }
  }

  /** The pages after a rollback: each page the transaction wrote after the savepoint shows what
      it found there when it first did, every other page shows what it showed. */
  ghost predicate RolledBackPages(log0: Log, t: nat, save: nat, m0: Store, m: Store) {
    && m.Keys == m0.Keys
    && (forall pg, o :: pg in m && OldestAbove(log0, |log0|, t, save, pg, o) ==> m[pg].image == log0[o].undo)
    && (forall pg :: pg in m && (forall o :: !OldestAbove(log0, |log0|, t, save, pg, o)) ==> m[pg].image == m0[pg].image)
  }

  lemma PagesRolledBack(log0: Log, log: Log, t: nat, save: nat, m0: Store, m: Store)
    requires Legal(log0) && Legal(log) && |log0| <= |log| && SamePrefix(log0, log, |log0|)
    requires Active(log0, |log0|, t)
    requires forall j :: Live(log, |log|, j) <==> Live(log0, |log0|, j) && !(log0[j].tid == t && j > save)
    requires UpToDate(log0, m0) && UpToDate(log, m) && m.Keys == m0.Keys
    requires forall pg :: pg in m && m[pg] != m0[pg] ==> LastWrite(log0, |log0|, pg) >= 0
    ensures RolledBackPages(log0, t, save, m0, m)
  {
    forall pg, o | pg in m && OldestAbove(log0, |log0|, t, save, pg, o)
      ensures m[pg].image == log0[o].undo
    {
      RolledBackImage(log0, log, t, save, pg, o);
    }
    hide Legal, Live;
    forall pg | pg in m && (forall o :: !OldestAbove(log0, |log0|, t, save, pg, o)) && m[pg] != m0[pg]
      ensures m[pg].image == m0[pg].image
    {
      OtherImage(log0, log, t, save, pg);
    }
  }

  /** A round changes only a page that the log wrote before the rollback began. */
  lemma RoundWrites(log0: Log, log: Log, t: nat, save: nat, d: TxnData, m: Store)
    requires RollingBack(log0, log, t, save) && d.undoNext < |log|
    ensures var m' := RollbackRound(log, d, m).2;
            forall pg :: pg in m && pg in m' && m'[pg] != m[pg] ==> LastWrite(log0, |log0|, pg) >= 0
  {
    if log[d.undoNext].Update? {
      assert Writes(log0[d.undoNext], log[d.undoNext].pg);
    }
  }

  // ---------------------------------------------------------------- savepoints

  /** No rollback since the savepoint has gone below it. */
  ghost predicate SavepointKept(log: Log, t: nat, save: nat)
    requires save < |log|
  {
    forall i :: save < i < |log| && log[i].Clr? && log[i].tid == t ==> log[i].undoNext >= Head(log, save + 1, t)
  }

  /** A rollback to save brings back the transaction's live updates of that moment exactly
      when no earlier rollback has taken back the newest of them. */
  lemma SavepointRestoredIff(log: Log, t: nat, save: nat)
    requires Legal(log) && save < |log|
    ensures SavepointKept(log, t, save) <==>
              forall j :: (Live(log, |log|, j) && log[j].tid == t && j <= save) <==>
                          (Live(log, save + 1, j) && log[j].tid == t)
  {
    var h := Head(log, save + 1, t);
    if SavepointKept(log, t, save) {
      forall j | Live(log, save + 1, j) && log[j].tid == t
        ensures Live(log, |log|, j)
      {
        assert !Compensated(log, save + 1, j);
        assert j <= h;
        assert !Compensated(log, |log|, j);
      }
    } else {
      var i :| save < i < |log| && log[i].Clr? && log[i].tid == t && log[i].undoNext < h;
      assert Compensated(log, |log|, h);
      assert Live(log, save + 1, h) && !Live(log, |log|, h);
    }
  }

  /** An update that is no longer live was taken back by a record that writes its page. */
  lemma {:induction false} TakenBackOn(log: Log, m: nat, n: nat, j: nat)
    requires Legal(log) && m <= n <= |log| && Live(log, m, j) && !Live(log, n, j)
    ensures exists i :: m <= i < n && log[i].Clr? && Writes(log[i], log[j].pg) && log[i].tid == log[j].tid
    decreases n
  {
    if Live(log, n - 1, j) {
      assert CanAppend(log, n - 1);
      if log[n - 1].Clr? { ClrTakesBackOne(log, n - 1); } else { OthersKeepLive(log, n - 1); }
      assert Writes(log[n - 1], log[j].pg);
    } else {
      TakenBackOn(log, m, n - 1, j);
    }
  }

  lemma LiveOnAtSavepoint(log: Log, t: nat, save: nat, pg: nat, j: int)
    requires Legal(log) && save < |log| && SavepointKept(log, t, save)
    requires forall k :: save < k < |log| && Writes(log[k], pg) ==> log[k].tid == t
    ensures LiveOn(log, |log|, pg, j) && !(log[j].tid == t && j > save) <==> LiveOn(log, save + 1, pg, j)
  {
    SavepointRestoredIff(log, t, save);
    if LiveOn(log, save + 1, pg, j) && !Live(log, |log|, j) {
      TakenBackOn(log, save + 1, |log|, j);
    }
    if LiveOn(log, |log|, pg, j) && !(log[j].tid == t && j > save) {
      assert Writes(log[j], pg);
      assert !Compensated(log, |log|, j);
      assert !Compensated(log, save + 1, j);
    }
  }

  lemma BaseAcross(log0: Log, log: Log, m: nat, pg: nat)
    requires m <= |log0| <= |log| && SamePrefix(log0, log, |log0|) && LastWrite(log0, m, pg) >= 0
    ensures Base(log, |log|, pg) == Base(log0, m, pg) && LastWrite(log, |log|, pg) >= 0
  {
    assert Writes(log[LastWrite(log0, m, pg)], pg);
    var f, g := FirstWrite(log, |log|, pg), FirstWrite(log0, m, pg);
  }

  /** Page pg as it stood after the first n records: as last logged, or as the log found it. */
  function ImageAt(log: Log, n: nat, pg: nat): Image
    requires n <= |log|
  {
    if LastWrite(log, n, pg) >= 0 then log[LastWrite(log, n, pg)].redo else Base(log, |log|, pg)
  }

  lemma LiveUpTo(log0: Log, log: Log, t: nat, save: nat, pg: nat)
    requires |log0| <= |log| && SamePrefix(log0, log, |log0|) && save < |log0|
    requires forall j :: Live(log, |log|, j) <==> Live(log0, |log0|, j) && !(log0[j].tid == t && j > save)
    requires forall k :: save < k < |log0| && Writes(log0[k], pg) ==> log0[k].tid == t
    ensures forall j :: LiveOn(log, |log|, pg, j) && j < |log| <==> LiveOn(log0, |log0|, pg, j) && j < save + 1
    ensures forall j :: 0 <= j < |log0| ==> log[j] == log0[j]
  {
    forall j
      ensures LiveOn(log, |log|, pg, j) && j < |log| <==> LiveOn(log0, |log0|, pg, j) && j < save + 1
    {
      if LiveOn(log0, |log0|, pg, j) && j > save {
        assert Writes(log0[j], pg);
      }
    }
  }

  /** A page written by no other transaction since the savepoint is rolled back to what is
      still live of it up to there. */
  lemma RolledBackIsBelow(log0: Log, log: Log, t: nat, save: nat, pg: nat)
    requires Legal(log0) && Legal(log) && |log0| <= |log| && SamePrefix(log0, log, |log0|)
    requires forall j :: Live(log, |log|, j) <==> Live(log0, |log0|, j) && !(log0[j].tid == t && j > save)
    requires save < |log0| && LastWrite(log0, |log0|, pg) >= 0
    requires forall k :: save < k < |log0| && Writes(log0[k], pg) ==> log0[k].tid == t
    ensures LastWrite(log, |log|, pg) >= 0
    ensures log[LastWrite(log, |log|, pg)].redo == ImageBelow(log0, |log0|, pg, save + 1)
  {
    hide *;
    LiveUpTo(log0, log, t, save, pg);
    LeftBelow(log0, log, save + 1, pg);
  }

  lemma LeftBelow(log0: Log, log: Log, m: nat, pg: nat)
    requires Legal(log) && m <= |log0| <= |log| && SamePrefix(log0, log, |log0|) && LastWrite(log0, |log0|, pg) >= 0
    requires forall j :: LiveOn(log, |log|, pg, j) && j < |log| <==> LiveOn(log0, |log0|, pg, j) && j < m
    ensures LastWrite(log, |log|, pg) >= 0
    ensures log[LastWrite(log, |log|, pg)].redo == ImageBelow(log0, |log0|, pg, m)
  {
    assert forall j :: 0 <= j < |log| && j < m ==> log[j] == log0[j];
    hide *;
    BaseAcross(log0, log, |log0|, pg);
    LastImage(log, |log|, pg);
    SameImage(log, |log|, |log|, log0, |log0|, m, pg);
  }

  /** When a rollback brings a page back as it stood at the savepoint: exactly if, just before
      it, what was still live of the page up to there showed that image. */
  lemma PageAsAtSavepointIff(log0: Log, log: Log, t: nat, save: nat, pg: nat)
    requires Legal(log0) && Legal(log) && |log0| <= |log| && SamePrefix(log0, log, |log0|)
    requires forall j :: Live(log, |log|, j) <==> Live(log0, |log0|, j) && !(log0[j].tid == t && j > save)
    requires save < |log0| && LastWrite(log0, |log0|, pg) >= 0
    requires forall k :: save < k < |log0| && Writes(log0[k], pg) ==> log0[k].tid == t
    ensures LastWrite(log, |log|, pg) >= 0
    ensures log[LastWrite(log, |log|, pg)].redo == ImageAt(log0, save + 1, pg) <==>
              ImageBelow(log0, |log0|, pg, save + 1) == ImageAt(log0, save + 1, pg)
  {
    RolledBackIsBelow(log0, log, t, save, pg);
  }

  /** It was, whenever no rollback since the savepoint has gone below it. */
  lemma KeptShowsSavepoint(log: Log, t: nat, save: nat, pg: nat)
    requires Legal(log) && save < |log| && SavepointKept(log, t, save) && LastWrite(log, |log|, pg) >= 0
    requires forall k :: save < k < |log| && Writes(log[k], pg) ==> log[k].tid == t
    ensures ImageBelow(log, |log|, pg, save + 1) == ImageAt(log, save + 1, pg)
  {
    var n := |log|;
    if LastWrite(log, save + 1, pg) >= 0 {
      LastImage(log, save + 1, pg);
      BaseAcross(log, log, save + 1, pg);
      forall j | 0 <= j < save + 1
        ensures LiveOn(log, n, pg, j) <==> LiveOn(log, save + 1, pg, j)
      {
        LiveOnAtSavepoint(log, t, save, pg, j);
      }
      hide Legal, Live, LiveOn, SavepointKept;
      SameTop(log, n, save + 1, pg, save + 1);
    } else {
      forall k | 0 <= k < save + 1
        ensures !LiveOn(log, n, pg, k)
      {
        assert !Writes(log[k], pg);
      }
    }
  }

  /** With the savepoint kept and the page written by no other transaction since, rolling back
      to it leaves the page as it stood at that record. */
  lemma PageAsAtSavepoint(log0: Log, log: Log, t: nat, save: nat, pg: nat)
    requires Legal(log0) && Legal(log) && |log0| <= |log| && SamePrefix(log0, log, |log0|)
    requires forall j :: Live(log, |log|, j) <==> Live(log0, |log0|, j) && !(log0[j].tid == t && j > save)
    requires save < |log0| && SavepointKept(log0, t, save) && LastWrite(log0, |log0|, pg) >= 0
    requires forall k :: save < k < |log0| && Writes(log0[k], pg) ==> log0[k].tid == t
    ensures LastWrite(log, |log|, pg) >= 0
    ensures log[LastWrite(log, |log|, pg)].redo == ImageAt(log0, save + 1, pg)
  {
    hide *;
    KeptShowsSavepoint(log0, t, save, pg);
    PageAsAtSavepointIff(log0, log, t, save, pg);
  }

  /** A savepoint that an earlier rollback has gone below: nothing above it is live, so rolling
      back to it changes nothing, and the page is not as it stood there. */
  lemma StaleSavepoint()
    ensures var log := SAMPLE + [SAMPLE_CLR];
            && Legal(log)
            && !SavepointKept(log, 2, 5)
            && Head(log, 7, 2) == -1
            && ImageAt(log, 6, 0) == [1] && ImageAt(log, 7, 0) == [0]
  {
    SampleRecords();
    SampleTakenBack();
    var log := SAMPLE + [SAMPLE_CLR];
    AppendStable(SAMPLE, SAMPLE_CLR);
    assert log[6].Clr? && log[6].undoNext < Head(log, 5 + 1, 2);
  }

  /** A rollback that stops early: the undo pointer, at 5, has not reached stable storage, so
      nothing is done and the update above the savepoint, at 4, stays. */
  lemma RollbackUnflushed()
    ensures var d := TxnData(5, 5, Running);
            && Legal(SAMPLE) && Tracks(SAMPLE, 2, d) && RollingBack(SAMPLE, SAMPLE, 2, 4)
            && d.undoNext > 4 && Head(SAMPLE, 6, 2) > 4
  {
    SampleRecords();
    RollbackStarts(SAMPLE, 2, 4);
    RollbackVerdict(SAMPLE, SAMPLE, 2, 4, TxnData(5, 5, Running), false);
  }

  /** Writing a compensation record asserts that its undoNext is not 0.  That assertion fails
      exactly when the record takes back the first update of the transaction that begins the
      log, whose begin record has LSN 0. */
  lemma ClrUndoNextZeroIff(log: Log, k: nat)
    requires Legal(log) && k < |log| && log[k].Clr?
    ensures log[k].undoNext == 0 <==>
              log[0].tid == log[k].tid
              && forall i :: 0 < i < Head(log, k, log[k].tid) ==> log[i].tid != log[k].tid
  {
    assert CanAppend(log, k);
    var j := Head(log, k, log[k].tid);
    assert CanAppend(log, j);
  }
}
