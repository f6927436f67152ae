/** The pager's log, transaction and page-level operations, in place. */
module Pager {
  import opened Wal
  import opened LogFacts
  import opened Recovery
  import opened Restart
  import opened Rollback
  import opened Transactions
  import BufferPool

  /** What restart works with: the analysis bank, the tables over it, and the scan position. */
  ghost predicate NoneDone(txns: seq<Txn>) {
    forall k :: 0 <= k < |txns| ==> txns[k].data.state != Done
  }

  /** Every descriptor marked done is the one the table refers to. */
  ghost predicate DoneInTable(txns: seq<Txn>, txt: map<nat, nat>) {
    forall k :: 0 <= k < |txns| && txns[k].data.state == Done ==> txns[k].tid in txt && txt[txns[k].tid] == k
  }

  /** now is was with the finished entries outside todo marked done. */
  ghost predicate ClosedIn(now: map<nat, TxnData>, was: map<nat, TxnData>, todo: set<nat>) {
    && now.Keys == was.Keys
    && forall t :: t in was ==>
         now[t] == if t !in todo && Finished(was[t]) then was[t].(state := Done) else was[t]
  }

  lemma DroppedDone(closed: map<nat, TxnData>, was: map<nat, TxnData>)
    requires ClosedIn(closed, was, {}) && forall t :: t in was ==> was[t].state != Done
    ensures (map t | t in closed && closed[t].state != Done :: closed[t]) == Unfinished(was)
  {}

  lemma EndsKeepStores(log: Log, ends: seq<Rec>, n: nat, n': nat, m: Store)
    requires n <= n' <= |log| + |ends| && n <= |log| && StoreOk(log, n, m)
    requires forall k :: 0 <= k < |ends| ==> ends[k].End?
    ensures StoreOk(log + ends, n', m)
  {}

  lemma NoneClosed(was: map<nat, TxnData>, txns: seq<Txn>, txt: map<nat, nat>)
    requires NoneDone(txns)
    ensures EndsOf([], was, was.Keys) && ClosedIn(was, was, was.Keys) && DoneInTable(txns, txt)
  {}

  lemma ClosedStep(now: map<nat, TxnData>, was: map<nat, TxnData>, todo: set<nat>, t: nat)
    requires ClosedIn(now, was, todo) && t in todo && t in was
    ensures now[t] == was[t]
    ensures ClosedIn(if Finished(was[t]) then now[t := was[t].(state := Done)] else now, was, todo - {t})
  {}

  /** Some record of the log is of transaction t. */
  ghost predicate IsTid(log: Log, t: nat) {
    exists k :: 0 <= k < |log| && log[k].tid == t
  }

  class AriesCtx {
    var txns: seq<Txn>
    var txt: map<nat, nat>
    var dpt: map<nat, nat>
    var maxTid: nat

    ghost predicate Valid()
      reads this
    {
      forall t :: t in txt ==> txt[t] < |txns| && txns[txt[t]].tid == t
    }

    /** The transaction table as a map from transaction to entry. */
    ghost function Att(): map<nat, TxnData>
      reads this
      requires Valid()
    {
      map t | t in txt :: txns[txt[t]].data
    }

    constructor ()
      ensures Valid() && txns == [] && txt == map[] && dpt == map[] && maxTid == 0
    {
      txns := [];
      txt := map[];
      dpt := map[];
      maxTid := 0;
    }

    /** txn_update on the entry at position i: the table sees it only if it refers to i. */
    method TxnUpdate(i: nat, data: TxnData)
      requires Valid() && i < |txns|
      modifies `txns
      ensures Valid()
      ensures txns == old(txns)[i := Txn(old(txns)[i].tid, data)]
      ensures Att() == if txns[i].tid in txt && txt[txns[i].tid] == i
                       then old(Att())[txns[i].tid := data] else old(Att())
    {
      txns := txns[i := Txn(txns[i].tid, data)];
    }

    /** Appends a fresh entry to the bank and enters it in the table unless the table already
        holds its transaction; answers the entry that the scan goes on to update. */
    method Enter(t: nat, data: TxnData, lookup: bool) returns (tx: nat)
      requires Valid()
      modifies `txns, `txt
      ensures Valid() && txns == old(txns) + [Txn(t, data)]
      ensures Att() == if t in old(txt) then old(Att()) else old(Att())[t := data]
      ensures tx < |txns| && txns[tx].tid == t && t in txt
      ensures txt[t] == tx <==> lookup || t !in old(txt)
      ensures txns[tx].data == if lookup && t in old(txt) then old(Att())[t] else data
    {
      tx := |txns|;
      txns := txns + [Txn(t, data)];
      if t !in txt {
        txt := txt[t := tx];
      }
      if lookup {
        tx := txt[t];
      }
    }

    /** Removes a transaction from the table. */
    method RemoveTxn(t: nat)
      requires Valid() && t in txt
      modifies `txt
      ensures Valid() && Att() == old(Att()) - {t} && txt == old(txt) - {t}
    {
      txt := txt - {t};
    }

    /** The greatest undoNext over the entries still to be undone, or -1. */
    method MaxUndoLsn() returns (max: int)
      requires Valid()
      ensures -1 <= max
      ensures forall t :: t in Att() && Att()[t].state == CandidateForUndo ==> Att()[t].undoNext <= max
      ensures max >= 0 ==> exists t :: t in Att() && Att()[t].state == CandidateForUndo && Att()[t].undoNext == max
    {
      max := -1;
      var todo := txt.Keys;
      while todo != {}
        invariant todo <= txt.Keys && -1 <= max
        invariant forall t :: t in Att() && t !in todo && Att()[t].state == CandidateForUndo ==> Att()[t].undoNext <= max
        invariant max >= 0 ==> exists t :: t in Att() && Att()[t].state == CandidateForUndo && Att()[t].undoNext == max
        decreases todo
      {
        var t :| t in todo;
        var d := txns[txt[t]].data;
        if d.state == CandidateForUndo && d.undoNext > max {
          max := d.undoNext;
          assert t in Att() && Att()[t].undoNext == max;
        }
        todo := todo - {t};
      }
    }

    /** The least recLSN of the dirty page table, or -1 for the source's (lsn)-1. */
    method MinRecLsn() returns (min: int)
      ensures min >= 0 ==> exists pg :: pg in dpt && dpt[pg] == min
      ensures forall pg :: pg in dpt ==> 0 <= min <= dpt[pg]
      ensures min == -1 <==> dpt == map[]
    {
      min := -1;
      var todo := dpt.Keys;
      while todo != {}
        invariant todo <= dpt.Keys && -1 <= min
        invariant forall pg :: pg in dpt && pg !in todo ==> 0 <= min <= dpt[pg]
        invariant min >= 0 ==> exists pg :: pg in dpt && dpt[pg] == min
        decreases todo
      {
        var pg :| pg in todo;
        if min == -1 || dpt[pg] < min {
          min := dpt[pg];
        }
        todo := todo - {pg};
      }
      if min == -1 {
        assert dpt.Keys == {};
      }
    }
  }

  /** The table after one record, by way of the entry that was entered first. */
  lemma Updated(old_: map<nat, TxnData>, was: map<nat, TxnData>, now: map<nat, TxnData>, r: Rec, i: nat, lookup: bool)
    requires var e := TxnData(i, r.PrevLsn(), CandidateForUndo);
             && was == (if r.tid in old_ then old_ else old_[r.tid := e])
             && now == (if r.End? then was - {r.tid}
                        else if lookup || r.tid !in old_ then was[r.tid := Apply(was[r.tid], r, i)]
                        else was)
    ensures now == AttStep(old_, r, i, lookup)
  {}

  /** Appending a write, flushing it and applying it keeps the stores within the log. */
  lemma StoresAfterWrite(log: Log, n: nat, k: nat, r: Rec, m: Store, disk: Store)
    requires n <= |log| && k <= |log| && StoreOk(log, k, m) && StoreOk(log, n, disk) && m.Keys == disk.Keys
    requires (r.Update? || r.Clr?) && r.pg in m
    ensures StoreOk(log + [r], |log| + 1, m[r.pg := Page(|log|, r.redo)])
    ensures StoreOk(log + [r], |log| + 1, disk)
  {}

  lemma RedoneStore(log: Log, n: nat, i: nat, pg: nat, redo: Image, m: Store)
    requires i < n <= |log| && StoreOk(log, n, m) && Writes(log[i], pg) && log[i].redo == redo
    ensures StoreOk(log, n, m[pg := Page(i, redo)])
    ensures pg in m && m[pg := Page(i, redo)].Keys == m.Keys
  {}

  lemma UpdateTwice(m: map<nat, TxnData>, t: nat, a: TxnData, b: TxnData)
    ensures m[t := a][t := b] == m[t := b]
  {}

  lemma SaveFacts(log: Log, t: nat, d: TxnData, pg: nat, redo: Image, m: Store, n: nat, disk: Store, tab: map<nat, TxnData>)
    requires Legal(log) && UpToDate(log, m) && RunningTable(log, tab) && t in tab && tab[t] == d
    requires Isolated(log, t, pg) && pg in m
    requires n <= |log| && StoreOk(log, |log|, m) && StoreOk(log, n, disk) && m.Keys == disk.Keys
    ensures |log| > 0
    ensures var r := Update(t, d.last, pg, m[pg].image, redo);
            && Legal(log + [r])
            && UpToDate(log + [r], m[pg := Page(|log|, redo)])
            && RunningTable(log + [r], tab[t := d.(last := |log|, undoNext := |log|)])
            && StoreOk(log + [r], |log| + 1, m[pg := Page(|log|, redo)])
            && StoreOk(log + [r], n, disk)
  {
    var r := Update(t, d.last, pg, m[pg].image, redo);
    assert RunningEntry(log, t, d);
    AppendUpdate(log, t, d, pg, m[pg].image, redo);
    ApplyNewest(log, r, m);
    RunningTableAfter(log, r, t, tab, tab[t := d.(last := |log|, undoNext := |log|)]);
    StoresAfterWrite(log, |log|, |log|, r, m, m);
  }

  lemma StoreOkEnd(log: Log, r: Rec, n: nat, m: Store)
    requires n <= |log| && StoreOk(log, n, m) && !r.Update? && !r.Clr?
    ensures StoreOk(log + [r], n, m)
  {}

  lemma CommitFacts(log: Log, t: nat, tab: map<nat, TxnData>, m: Store)
    requires Legal(log) && UpToDate(log, m) && RunningTable(log, tab) && t in tab
    ensures |log| > 0
    ensures var log' := log + [Commit(t, tab[t].last)];
            && Legal(log') && UpToDate(log', m) && RunningTable(log', tab - {t})
            && LastOf(log', |log'|, t) >= 0 && Committed(log', |log'|, t) && !Ended(log', |log'|, t)
  {
    var r := Commit(t, tab[t].last);
    assert RunningEntry(log, t, tab[t]);
    AppendCommit(log, t, tab[t]);
    hide CanAppend;
    RunningTableAfter(log, r, t, tab, tab - {t});
    ApplyNone(log, r, m);
  }

  lemma AllRunning(log: Log, tab: map<nat, TxnData>)
    requires RunningTable(log, tab)
    ensures forall t :: t in tab ==> tab[t].state == Running
  {
    forall t | t in tab
      ensures tab[t].state == Running
    {
      assert RunningEntry(log, t, tab[t]);
    }
  }

  /** Everything the pager keeps, across the two records of a commit. */
  lemma CommitEffect(log: Log, t: nat, tab: map<nat, TxnData>, m: Store, n: nat, disk: Store, bound: nat)
    requires Legal(log) && UpToDate(log, m) && RunningTable(log, tab) && t in tab
    requires n <= |log| && StoreOk(log, |log|, m) && StoreOk(log, n, disk)
    requires forall k :: 0 <= k < |log| ==> log[k].tid < bound
    ensures |log| > 0
    ensures var log' := log + [Commit(t, tab[t].last)] + [End(t, |log|)];
            && Legal(log') && UpToDate(log', m) && RunningTable(log', tab - {t})
            && StoreOk(log', |log'|, m) && StoreOk(log', n, disk)
            && forall k :: 0 <= k < |log'| ==> log'[k].tid < bound
  {
    assert RunningEntry(log, t, tab[t]);
    assert t < bound;
    hide CanAppend, UpToDate, RunningTable, StoreOk, Legal;
    var c, e := Commit(t, tab[t].last), End(t, |log|);
    CommitFacts(log, t, tab, m);
    EndFacts(log + [c], t, |log|, tab - {t}, m);
    StoreOkEnd(log, c, n, disk);
    StoreOkEnd(log + [c], e, n, disk);
    StoreOkEnd(log, c, |log|, m);
    StoreOkEnd(log + [c], e, |log|, m);
    StoreOkLater(log + [c] + [e], |log|, |log| + 2, m);
  }

  lemma CommitKeepsDpt(log: Log, c: Rec, e: Rec, m: Store, disk: Store, dpt: map<nat, nat>)
    requires c.Commit? && e.End?
    ensures DptSound(log, m, disk, dpt) ==> DptSound(log + [c] + [e], m, disk, dpt)
  {
    if DptSound(log, m, disk, dpt) {
      OtherKeepsDpt(log, c, m, disk, dpt);
      OtherKeepsDpt(log + [c], e, m, disk, dpt);
    }
  }

  lemma RollbackStores(log: Log, n: nat, r: Rec, m: Store, disk: Store)
    requires n <= |log| && StoreOk(log, |log|, m) && StoreOk(log, n, disk) && r.Clr? && r.pg in m && m.Keys == disk.Keys
    ensures StoreOk(log + [r], |log| + 1, m[r.pg := Page(|log|, r.redo)]) && StoreOk(log + [r], n, disk)
  {}

  /** One round of a rollback, for everything the pager keeps. */
  lemma RollbackFacts(log0: Log, log: Log, t: nat, save: nat, tab: map<nat, TxnData>, m: Store, bound: nat)
    requires RollingBack(log0, log, t, save) && RunningTable(log, tab) && t in tab && save < tab[t].undoNext
    requires UpToDate(log, m) && StoreOk(log, |log|, m)
    requires forall k :: 0 <= k < |log| ==> log[k].tid < bound
    ensures tab[t].undoNext < |log|
    ensures var r := log[tab[t].undoNext];
            (r.Begin? || r.Update? || r.Clr?) && (r.Update? ==> r.tid == t && r.pg in m)
    ensures var (log', d', m') := RollbackRound(log, tab[t], m);
            && RollingBack(log0, log', t, save) && Legal(log') && log <= log'
            && RunningTable(log', tab[t := d'])
            && UpToDate(log', m')
            && d'.undoNext < tab[t].undoNext
            && forall k :: 0 <= k < |log'| ==> log'[k].tid < bound
  {
    assert RunningEntry(log, t, tab[t]);
    PointerFacts(log, t, tab[t].undoNext);
    RoundKeeps(log0, log, t, save, tab[t], m);
    var (log', d', m') := RollbackRound(log, tab[t], m);
    assert RunningEntry(log', t, d');
    RollbackTable(log, t, tab, d', m);
  }

  lemma RollbackTable(log: Log, t: nat, tab: map<nat, TxnData>, d': TxnData, m: Store)
    requires RunningTable(log, tab) && t in tab && tab[t].undoNext < |log| && Legal(log) && UpToDate(log, m)
    requires Legal(RollbackRound(log, tab[t], m).0) && d' == RollbackRound(log, tab[t], m).1
    requires RunningEntry(RollbackRound(log, tab[t], m).0, t, d')
    requires log[tab[t].undoNext].Update? ==> log[tab[t].undoNext].tid == t
    ensures RunningTable(RollbackRound(log, tab[t], m).0, tab[t := d'])
    ensures UpToDate(RollbackRound(log, tab[t], m).0, RollbackRound(log, tab[t], m).2)
  {
    if log[tab[t].undoNext].Update? {
      var r := ClrFor(log, tab[t].undoNext, tab[t].last);
      RunningTableAfter(log, r, t, tab, tab[t := d']);
      ApplyNewest(log, r, m);
    }
  }

  lemma RollbackEffect(log0: Log, log: Log, t: nat, save: nat, tab0: map<nat, TxnData>, m0: Store, m: Store)
    requires Legal(log0) && RollingBack(log0, log, t, save) && RunningTable(log0, tab0) && t in tab0
    requires forall j :: Live(log, |log|, j) <==> Live(log0, |log0|, j) && !(log0[j].tid == t && j > save)
    requires UpToDate(log0, m0) && UpToDate(log, m) && m.Keys == m0.Keys
    requires forall pg :: pg in m && m[pg] != m0[pg] ==> LastWrite(log0, |log0|, pg) >= 0
    ensures RolledBackPages(log0, t, save, m0, m)
  {
    RunningTracks(log0, tab0, t);
    hide UpToDate, RunningTable, Legal, RolledBackPages;
    PagesRolledBack(log0, log, t, save, m0, m);
  }

  lemma RunningTracks(log: Log, tab: map<nat, TxnData>, t: nat)
    requires RunningTable(log, tab) && t in tab
    ensures Tracks(log, t, tab[t])
  {
    assert RunningEntry(log, t, tab[t]);
  }

  lemma CommitFlushed(log: Log, c: Rec, e: Rec, n: nat)
    requires c.Commit? && |log| < n <= |log| + 2
    ensures Committed(log + [c] + [e], n, c.tid)
  {
    assert (log + [c] + [e])[|log|] == c;
  }

  lemma EndFacts(log: Log, t: nat, prev: nat, tab: map<nat, TxnData>, m: Store)
    requires Legal(log) && UpToDate(log, m) && RunningTable(log, tab) && t !in tab
    requires LastOf(log, |log|, t) >= 0 && Committed(log, |log|, t) && !Ended(log, |log|, t)
    ensures var log' := log + [End(t, prev)];
            Legal(log') && UpToDate(log', m) && RunningTable(log', tab)
  {
    AppendEndCommitted(log, t, prev);
    hide CanAppend;
    RunningTableAfter(log, End(t, prev), t, tab, tab);
    ApplyNone(log, End(t, prev), m);
  }

  lemma AllCandidates(log: Log, att: map<nat, TxnData>)
    requires UndoTable(log, att)
    ensures forall t :: t in att ==> att[t].state == CandidateForUndo
  {
    forall t | t in att
      ensures att[t].state == CandidateForUndo
    {
      assert UndoEntry(log, t, att[t]);
    }
  }

  lemma NoPointersLeft(att: map<nat, TxnData>)
    requires forall t :: t in att ==> att[t].undoNext <= -1
    ensures att == map[]
  {
    assert att.Keys == {};
  }

  /** The pages of the records a rollback has added to the first n. */
  function TakenBack(log: Log, n: nat): (pgs: seq<nat>)
    requires n <= |log|
    ensures |pgs| == |log| - n
  {
    seq(|log| - n, i requires 0 <= i < |log| - n => var r := log[n + i]; if r.Update? || r.Clr? then r.pg else 0)
  }

  lemma TakenBackMore(log: Log, r: Rec, n: nat)
    requires n <= |log| && r.Clr?
    ensures TakenBack(log + [r], n) == TakenBack(log, n) + [r.pg]
  {}

  lemma NoneStale(log: Log, pages: Store, disk: Store, dpt: map<nat, nat>)
    requires DptSound(log, pages, disk, dpt)
    ensures DptSoundBut(log, pages, disk, dpt, Stale(dpt, TakenBack(log, |log|), []))
  {
    assert TakenBack(log, |log|) == [];
    SoundButNone(log, pages, disk, dpt, {});
  }

  lemma RoundShape(log: Log, d: TxnData, pages: Store)
    requires d.undoNext < |log| && log[d.undoNext].Update?
    ensures var r := ClrFor(log, d.undoNext, d.last);
            && r.Clr? && r.pg == log[d.undoNext].pg
            && RollbackRound(log, d, pages).0 == log + [r]
            && RollbackRound(log, d, pages).2 == pages[r.pg := Page(|log|, r.redo)]
  {}

  /** What a round of rollback that takes an update back, after writing victims out, does to
      the dirty page table. */
  lemma RoundDpt(log: Log, d: TxnData, pages: Store, disk: Store, dpt: map<nat, nat>, victims: set<nat>, stale: set<nat>)
    requires DptSoundBut(log, pages, disk, dpt, stale) && UpToDate(log, pages)
    requires StoreOk(log, |log|, pages) && StoreOk(log, |log|, disk)
    requires d.undoNext < |log| && log[d.undoNext].Update? && log[d.undoNext].pg in pages
    ensures var (log', d', pages') := RollbackRound(log, d, pages);
            DptSoundBut(log', pages', WrittenOut(pages, disk, victims), dpt - victims,
                        (stale - victims) + if log[d.undoNext].pg in dpt - victims then {} else {log[d.undoNext].pg})
  {
    var r := ClrFor(log, d.undoNext, d.last);
    var stale', pg := stale - victims, r.pg;
    hide *;
    RoundShape(log, d, pages);
    WritingHeals(log, pages, disk, dpt, stale, victims);
    WrittenOutOk(log, |log|, pages, disk, victims);
    ClrMakesStale(log, r, pages, WrittenOut(pages, disk, victims), dpt - victims, stale');
    assert stale' + (if pg in dpt - victims then {} else {pg}) == if pg in dpt - victims then stale' else stale' + {pg};
  }

  lemma RoundDptIff(log: Log, d: TxnData, pages: Store, disk: Store, dpt: map<nat, nat>, victims: set<nat>)
    requires DptSound(log, pages, disk, dpt) && UpToDate(log, pages)
    requires StoreOk(log, |log|, pages) && StoreOk(log, |log|, disk)
    requires d.undoNext < |log| && log[d.undoNext].Update? && log[d.undoNext].pg in pages
    ensures var (log', d', pages') := RollbackRound(log, d, pages);
            DptSound(log', pages', WrittenOut(pages, disk, victims), dpt - victims) <==> log[d.undoNext].pg in dpt - victims
  {
    var (log', d', pages') := RollbackRound(log, d, pages);
    var none: set<nat> := {};
    var pg := log[d.undoNext].pg;
    SoundButNone(log, pages, disk, dpt, none);
    RoundDpt(log, d, pages, disk, dpt, victims, none);
    hide DptSound, DptSoundBut, WrittenOut;
    var stale := (none - victims) + if pg in dpt - victims then {} else {pg};
    assert pg in dpt - victims ==> stale == {};
    assert pg !in dpt - victims ==> pg in stale;
    SoundButNone(log', pages', WrittenOut(pages, disk, victims), dpt - victims, stale);
  }

  lemma StaleRound(n: nat, log: Log, d: TxnData, pages: Store, disk: Store, dpt0: map<nat, nat>,
                   written: seq<set<nat>>, victims: set<nat>)
    requires n <= |log| && |written| == |log| - n
    requires DptSoundBut(log, pages, disk, TableAfter(dpt0, written), Stale(dpt0, TakenBack(log, n), written))
    requires UpToDate(log, pages) && StoreOk(log, |log|, pages) && StoreOk(log, |log|, disk)
    requires d.undoNext < |log| && log[d.undoNext].Update? && log[d.undoNext].pg in pages
    ensures var (log', d', pages') := RollbackRound(log, d, pages);
            var written' := written + [victims];
            && |log'| == |log| + 1
            && TableAfter(dpt0, written') == TableAfter(dpt0, written) - victims
            && DptSoundBut(log', pages', WrittenOut(pages, disk, victims), TableAfter(dpt0, written'),
                           Stale(dpt0, TakenBack(log', n), written'))
  {
    var (log', d', pages') := RollbackRound(log, d, pages);
    var pg := log[d.undoNext].pg;
    TakenBackMore(log, ClrFor(log, d.undoNext, d.last), n);
    hide DptSoundBut, WrittenOut, UpToDate, StoreOk, TakenBack, Stale, TableAfter;
    RoundDpt(log, d, pages, disk, TableAfter(dpt0, written), victims, Stale(dpt0, TakenBack(log, n), written));
    StaleMore(dpt0, TakenBack(log, n), written, pg, victims);
  }

  /** The dirty page table after a rollback has added to the first n records: written tells
      which pages were written out before each compensation record. */
  ghost predicate TableRolled(log: Log, n: nat, pages: Store, disk: Store, dpt: map<nat, nat>,
                              table: map<nat, nat>, written: seq<set<nat>>, sound: bool)
  {
    && n <= |log| && |written| == |log| - n && dpt == TableAfter(table, written)
    && (sound ==> DptSoundBut(log, pages, disk, dpt, Stale(table, TakenBack(log, n), written)))
  }

  lemma TableStart(log: Log, pages: Store, disk: Store, dpt: map<nat, nat>, sound: bool)
    requires sound ==> DptSound(log, pages, disk, dpt)
    ensures TableRolled(log, |log|, pages, disk, dpt, dpt, [], sound)
  {
    if sound { NoneStale(log, pages, disk, dpt); }
  }

  lemma TableTurn(log: Log, n: nat, d: TxnData, pages: Store, disk: Store, dpt: map<nat, nat>,
                  table: map<nat, nat>, written: seq<set<nat>>, victims: set<nat>, sound: bool)
    requires TableRolled(log, n, pages, disk, dpt, table, written, sound)
    requires UpToDate(log, pages) && StoreOk(log, |log|, pages) && StoreOk(log, |log|, disk)
    requires d.undoNext < |log| && log[d.undoNext].Update? && log[d.undoNext].pg in pages
    ensures var (log', d', pages') := RollbackRound(log, d, pages);
            TableRolled(log', n, pages', WrittenOut(pages, disk, victims), dpt - victims, table, written + [victims], sound)
  {
    hide DptSoundBut, WrittenOut, UpToDate, StoreOk, TakenBack, Stale, TableAfter;
    StaleMore(table, TakenBack(log, n), written, 0, victims);
    if sound {
      StaleRound(n, log, d, pages, disk, table, written, victims);
    }
  }

  lemma TableEnd(log: Log, n: nat, pages: Store, disk: Store, dpt: map<nat, nat>,
                 table: map<nat, nat>, written: seq<set<nat>>, sound: bool)
    requires TableRolled(log, n, pages, disk, dpt, table, written, sound)
    ensures n <= |log| && |written| == |log| - n && dpt == TableAfter(table, written)
    ensures sound ==> (DptSound(log, pages, disk, dpt) <==> Stale(table, TakenBack(log, n), written) == {})
  {
    SoundButNone(log, pages, disk, dpt, if sound then Stale(table, TakenBack(log, n), written) else {});
  }

  /** The images of a pool as pages; the page LSN is part of a pool's image. */
  function AsPages(contents: map<nat, Image>, page: Image -> Page): Store {
    map pg | pg in contents :: page(contents[pg])
  }

  /** Reading through the buffer pool is what Fetch says: the contents stay, and the file changes
      only by writing some pages out as they are. */
  lemma PoolFetches(contents: map<nat, Image>, file: map<nat, Image>, file': map<nat, Image>, page: Image -> Page)
    requires BufferPool.WrittenBack(file, file', contents)
    ensures exists victims :: AsPages(file', page) == WrittenOut(AsPages(contents, page), AsPages(file, page), victims)
  {
    var victims := set pg | pg in file && file'[pg] != file[pg];
    var now, due := AsPages(file', page), WrittenOut(AsPages(contents, page), AsPages(file, page), victims);
    assert now.Keys == due.Keys;
    assert forall pg :: pg in now ==> now[pg] == due[pg];
  }

  class Pager {
    var log: Log
    var flushed: nat
    var pages: Store
    var disk: Store
    var restarting: bool
    var tnxt: map<nat, TxnData>
    var dpt: map<nat, nat>
    var nextTid: nat

    /** Pages and disk are within reach of the log, and the disk within reach of what is on
        stable storage. */
    ghost predicate Valid()
      reads this
    {
      && flushed <= |log|
      && pages.Keys == disk.Keys
      && StoreOk(log, if restarting then flushed else |log|, pages)
      && StoreOk(log, flushed, disk)
      && (|log| > 0 ==> log[0].Begin?)
    }

    // -------------------------------------------------------------- log and pool primitives

    method FlushAll()
      requires flushed <= |log|
      modifies `flushed
      ensures flushed == |log|
    {
      flushed := |log|;
    }

    /** Appends a record and returns its LSN; the log buffer may spill on the way. */
    method Append(r: Rec) returns (l: nat)
      requires flushed <= |log|
      modifies `log, `flushed
      ensures log == old(log) + [r] && l == |old(log)|
      ensures old(flushed) <= flushed <= |log|
    {
      l := |log|;
      log := log + [r];
      var spill: nat :| flushed <= spill <= |log|;
      flushed := spill;
    }

    /** Reads a page through the pool.  Making room may evict any other pages: an eviction
        flushes the log, except while restarting, writes the page out, and drops it from the
        dirty page table. */
    method Fetch(pg: nat) returns (p: Page, ghost victims: set<nat>)
      requires Valid() && pg in pages
      modifies `disk, `flushed, `dpt
      ensures Valid() && p == pages[pg]
      ensures old(flushed) <= flushed
      ensures restarting ==> flushed == old(flushed)
      ensures disk.Keys == old(disk.Keys)
      ensures disk == WrittenOut(pages, old(disk), victims) && dpt == old(dpt) - victims
      ensures DptSound(log, pages, old(disk), old(dpt)) ==> DptSound(log, pages, disk, dpt)
    {
      hide DptSound, WrittenOut, StoreOk;
      var evicted: set<nat> := {};
      if * {
        evicted :| evicted <= pages.Keys;
        if !restarting { FlushAll(); }
        StoreOkLater(log, old(flushed), flushed, disk);
      }
      WrittenOutOk(log, flushed, pages, disk, evicted);
      if DptSound(log, pages, disk, dpt) { EvictKeepsDpt(log, pages, disk, dpt, evicted); }
      disk := WrittenOut(pages, disk, evicted);
      dpt := dpt - evicted;
      p := pages[pg];
      victims := evicted;
    }

    // -------------------------------------------------------------- normal work

    /** The pager at work: its pages follow the log, and its transaction table holds exactly
        the unfinished transactions as the log has them. */
    ghost predicate Working()
      reads this
    {
      && Valid() && !restarting
      && Legal(log)
      && UpToDate(log, pages)
      && RunningTable(log, tnxt)
      && (forall k :: 0 <= k < |log| ==> log[k].tid < nextTid)
    }

    method BeginTxn() returns (t: nat)
      requires Working()
      modifies `log, `flushed, `tnxt, `nextTid
      ensures Working() && flushed >= old(flushed)
      ensures log == old(log) + [Begin(t)] && LastOf(old(log), |old(log)|, t) == -1
      ensures tnxt == old(tnxt)[t := TxnData(|old(log)|, 0, Running)]
      ensures DptSound(old(log), pages, disk, dpt) ==> DptSound(log, pages, disk, dpt)
    {
      hide UpToDate, DptSound, RunningTable, StoreOk;
      t := nextTid;
      StoreOkEnd(log, Begin(t), flushed, disk);
      StoreOkEnd(log, Begin(t), |log|, pages);
      AppendBegin(log, t);
      ApplyNone(log, Begin(t), pages);
      ghost var tab := tnxt[t := TxnData(|log|, 0, Running)];
      RunningTableAfter(log, Begin(t), t, tnxt, tab);
      if DptSound(log, pages, disk, dpt) { OtherKeepsDpt(log, Begin(t), pages, disk, dpt); }
      nextTid := nextTid + 1;
      var l := Append(Begin(t));
      StoreOkLater(log, old(flushed), flushed, disk);
      StoreOkLater(log, |old(log)|, |log|, pages);
      tnxt := tnxt[t := TxnData(l, 0, Running)];
    }

    /** Logs and applies a new image of a page the transaction holds for writing.  The undo
        image is the page as it is; page-level isolation is the caller's. */
    method Save(t: nat, pg: nat, redo: Image) returns (l: nat)
      requires Working() && t in tnxt && pg in pages && Isolated(log, t, pg)
      modifies `log, `flushed, `tnxt, `pages, `dpt
      ensures Working() && flushed >= old(flushed)
      ensures log == old(log) + [Update(t, old(tnxt)[t].last, pg, old(pages)[pg].image, redo)] && l == |old(log)|
      ensures pages == old(pages)[pg := Page(l, redo)]
      ensures tnxt == old(tnxt)[t := old(tnxt)[t].(last := l, undoNext := l)]
      ensures dpt == if pg in old(dpt) then old(dpt) else old(dpt)[pg := l]
      ensures DptSound(old(log), old(pages), disk, old(dpt)) ==> DptSound(log, pages, disk, dpt)
    {
      hide StoreOk, UpToDate, CanAppend, DptSound;
      var d := tnxt[t];
      var r := Update(t, d.last, pg, pages[pg].image, redo);
      assert RunningEntry(log, t, d);
      assert t < nextTid;
      hide RunningTable, Legal, Isolated, RunningEntry;
      SaveFacts(log, t, d, pg, redo, pages, flushed, disk, tnxt);
      if DptSound(log, pages, disk, dpt) { SaveKeepsDpt(log, r, pages, disk, dpt); }
      l := Append(r);
      tnxt := tnxt[t := d.(last := l, undoNext := l)];
      if pg !in dpt {
        dpt := dpt[pg := l];
      }
      StoreOkLater(log, old(flushed), flushed, disk);
      pages := pages[pg := Page(l, redo)];
    }

    /** The records of a commit: the commit record is flushed before the end record. */
    method LogCommit(t: nat, last: nat)
      requires flushed <= |log|
      modifies `log, `flushed
      ensures log == old(log) + [Commit(t, last)] + [End(t, |old(log)|)]
      ensures |old(log)| < flushed <= |log|
    {
      var l := Append(Commit(t, last));
      FlushAll();
      var _ := Append(End(t, l));
    }

    /** Commits a running transaction: when it returns, the commit record is on stable
        storage.  Anything else is refused. */
    method CommitTxn(t: nat) returns (ok: bool)
      requires Working()
      modifies `log, `flushed, `tnxt
      ensures Working() && flushed >= old(flushed)
      ensures ok <==> t in old(tnxt)
      ensures !ok ==> log == old(log) && tnxt == old(tnxt)
      ensures ok ==> log == old(log) + [Commit(t, old(tnxt)[t].last)] + [End(t, |old(log)|)]
                     && tnxt == old(tnxt) - {t} && |old(log)| < flushed && Committed(log, flushed, t)
      ensures DptSound(old(log), pages, disk, dpt) ==> DptSound(log, pages, disk, dpt)
    {
      hide StoreOk, UpToDate, RunningTable, Legal, DptSound;
      AllRunning(log, tnxt);
      if t !in tnxt || tnxt[t].state != Running {
        return false;
      }
      CommitEffect(log, t, tnxt, pages, flushed, disk, nextTid);
      CommitKeepsDpt(log, Commit(t, tnxt[t].last), End(t, |log|), pages, disk, dpt);
      LogCommit(t, tnxt[t].last);
      CommitFlushed(old(log), Commit(t, tnxt[t].last), End(t, |old(log)|), flushed);
      hide Committed;
      StoreOkLater(log, old(flushed), flushed, disk);
      tnxt := tnxt - {t};
      return true;
    }

    /** One update taken back: its undo image becomes the page under a compensation record. */
    method RollbackImage(t: nat, undoNxt: nat) returns (ghost victims: set<nat>)
      requires Valid() && !restarting && t in tnxt && undoNxt < |log| && log[undoNxt].Update?
      requires log[undoNxt].tid == t && log[undoNxt].pg in pages
      modifies `log, `flushed, `tnxt, `pages, `disk, `dpt
      ensures Valid() && flushed >= old(flushed) && disk.Keys == old(disk.Keys)
      ensures log == old(log) + [ClrFor(old(log), undoNxt, old(tnxt)[t].last)]
      ensures pages == old(pages)[old(log)[undoNxt].pg := Page(|old(log)|, old(log)[undoNxt].undo)]
      ensures tnxt == old(tnxt)[t := old(tnxt)[t].(last := |old(log)|)]
      ensures disk == WrittenOut(old(pages), old(disk), victims) && dpt == old(dpt) - victims
    {
      hide StoreOk, DptSound, WrittenOut;
      var r := log[undoNxt];
      var _, evicted := Fetch(r.pg);
      victims := evicted;
      var clr := Clr(r.tid, tnxt[t].last, r.pg, r.prev, r.undo);
      RollbackStores(log, flushed, clr, pages, disk);
      ghost var before := flushed;
      var l := Append(clr);
      StoreOkLater(log, before, flushed, disk);
      pages := pages[r.pg := Page(l, r.undo)];
      tnxt := tnxt[t := tnxt[t].(last := l)];
    }

    /** One round of the rollback loop. */
    method RollbackOne(t: nat, undoNxt: nat) returns (next: nat, ghost victims: set<nat>)
      requires Valid() && !restarting && t in tnxt && tnxt[t].undoNext == undoNxt < |log|
      requires log[undoNxt].Begin? || log[undoNxt].Update? || log[undoNxt].Clr?
      requires log[undoNxt].Update? ==> log[undoNxt].tid == t && log[undoNxt].pg in pages
      modifies `log, `flushed, `tnxt, `pages, `disk, `dpt
      ensures Valid() && flushed >= old(flushed) && disk.Keys == old(disk.Keys)
      ensures log == RollbackRound(old(log), old(tnxt)[t], old(pages)).0
      ensures tnxt == old(tnxt)[t := RollbackRound(old(log), old(tnxt)[t], old(pages)).1]
      ensures pages == RollbackRound(old(log), old(tnxt)[t], old(pages)).2
      ensures next == tnxt[t].undoNext
      ensures if old(log)[undoNxt].Update?
              then disk == WrittenOut(old(pages), old(disk), victims) && dpt == old(dpt) - victims
              else disk == old(disk) && dpt == old(dpt)
      ensures UpToDate(old(log), old(pages)) && DptSound(old(log), old(pages), old(disk), old(dpt)) ==>
                (DptSound(log, pages, disk, dpt) <==> (old(log)[undoNxt].Update? ==> old(log)[undoNxt].pg in dpt))
    {
      hide StoreOk, UpToDate, DptSound, WrittenOut;
      ghost var d, was, stored, table := tnxt[t], pages, disk, dpt;
      victims := {};
      next := undoNxt;
      match log[undoNxt] {
        case Update(_, prev, _, _, _) =>
          victims := RollbackImage(t, undoNxt);
          next := prev;
        case Clr(_, _, _, undoNext, _) =>
          next := undoNext;
        case Begin(_) =>
          next := 0;
        case _ =>
      }
      tnxt := tnxt[t := tnxt[t].(undoNext := next)];
      if old(log)[undoNxt].Update? && UpToDate(old(log), was) && DptSound(old(log), was, stored, table) {
        StoreOkLater(old(log), old(flushed), |old(log)|, stored);
        RoundDptIff(old(log), d, was, stored, table, victims);
      }
    }

    /** The body of the rollback loop: a round, with what the pager keeps. */
    method RollbackTurn(t: nat, save: nat, undoNxt: nat, ghost log0: Log, ghost table: map<nat, nat>,
                        ghost written: seq<set<nat>>, ghost sound: bool)
      returns (next: nat, ghost written': seq<set<nat>>)
      requires Working() && t in tnxt && save < undoNxt == tnxt[t].undoNext
      requires RollingBack(log0, log, t, save) && TableRolled(log, |log0|, pages, disk, dpt, table, written, sound)
      modifies `log, `flushed, `tnxt, `pages, `disk, `dpt
      ensures Working() && flushed >= old(flushed) && old(log) <= log && pages.Keys == old(pages.Keys)
      ensures RollingBack(log0, log, t, save) && TableRolled(log, |log0|, pages, disk, dpt, table, written', sound)
      ensures tnxt.Keys == old(tnxt.Keys) && next == tnxt[t].undoNext < undoNxt
      ensures forall u :: u in tnxt && u != t ==> tnxt[u] == old(tnxt)[u]
      ensures forall pg :: pg in pages && pages[pg] != old(pages)[pg] ==> LastWrite(log0, |log0|, pg) >= 0
    {
      hide RollingBack, UpToDate, RunningTable, StoreOk, Legal, DptSound, DptSoundBut, Stale, TakenBack, TableAfter, WrittenOut, TableRolled;
      RollbackFacts(log0, log, t, save, tnxt, pages, nextTid);
      RoundWrites(log0, log, t, save, tnxt[t], pages);
      StoreOkLater(log, flushed, |log|, disk);
      ghost var victims;
      next, victims := RollbackOne(t, undoNxt);
      written' := written;
      if old(log)[undoNxt].Update? {
        TableTurn(old(log), |log0|, old(tnxt)[t], old(pages), old(disk), old(dpt), table, written, victims, sound);
        written' := written + [victims];
      }
    }

    lemma RollbackBegins(t: nat, save: nat)
      requires Working() && t in tnxt
      ensures tnxt[t].undoNext < |log| && RollingBack(log, log, t, save)
      ensures Legal(log) && RunningTable(log, tnxt) && UpToDate(log, pages)
    {
      RunningTracks(log, tnxt, t);
      RollbackStarts(log, t, save);
    }

    /** What a rollback that has come to its end has done to the pages. */
    lemma RollbackEnds(log0: Log, t: nat, save: nat, tab0: map<nat, TxnData>, pages0: Store, found: bool)
      requires Working() && t in tnxt && RollingBack(log0, log, t, save)
      requires Legal(log0) && RunningTable(log0, tab0) && t in tab0 && UpToDate(log0, pages0)
      requires pages.Keys == pages0.Keys
      requires forall pg :: pg in pages && pages[pg] != pages0[pg] ==> LastWrite(log0, |log0|, pg) >= 0
      requires found ==> tnxt[t].undoNext <= save
      requires !found ==> log == log0 && tnxt[t].undoNext > save
      ensures found ==> RolledBackPages(log0, t, save, pages0, pages)
      ensures Head(log, |log|, t) <= save <==> found || Head(log0, |log0|, t) <= save
    {
      hide RollingBack, UpToDate, RunningTable, StoreOk, Legal, RolledBackPages;
      RunningTracks(log, tnxt, t);
      RollbackVerdict(log0, log, t, save, tnxt[t], found);
      if found {
        RollbackEffect(log0, log, t, save, tab0, pages0, pages);
      }
    }

    /** Rolls t back to save.  The records are read from the log file, so an undo pointer that
        has not reached stable storage reads as the end of the log, and the rollback then
        stops where it is and still reports success.  written tells which pages were written
        out before each compensation record; the dirty page table stays sound exactly if each
        page compensated was in it at its turn, or has been written out since. */
    method RollbackTo(t: nat, save: nat) returns (ghost written: seq<set<nat>>)
      requires Working() && t in tnxt
      modifies `log, `flushed, `tnxt, `pages, `disk, `dpt
      ensures Working() && flushed >= old(flushed) && old(log) <= log && tnxt.Keys == old(tnxt.Keys)
      ensures RollingBack(old(log), log, t, save)
      ensures var found := old(tnxt)[t].undoNext < old(flushed) || old(tnxt)[t].undoNext <= save;
              if found then tnxt[t].undoNext <= save && RolledBackPages(old(log), t, save, old(pages), pages)
              else log == old(log) && pages == old(pages) && tnxt == old(tnxt)
      ensures Head(log, |log|, t) <= save <==>
                old(tnxt)[t].undoNext < old(flushed) || old(tnxt)[t].undoNext <= save || Head(old(log), |old(log)|, t) <= save
      ensures forall u :: u in tnxt && u != t ==> tnxt[u] == old(tnxt)[u]
      ensures |written| == |log| - |old(log)| && dpt == TableAfter(old(dpt), written)
      ensures DptSound(old(log), old(pages), old(disk), old(dpt)) ==>
                (DptSound(log, pages, disk, dpt) <==> Stale(old(dpt), TakenBack(log, |old(log)|), written) == {})
    {
      hide RollingBack, UpToDate, RunningTable, StoreOk, Legal, RolledBackPages, DptSound, DptSoundBut, Stale, TakenBack;
      hide TableAfter, TableRolled, Working;
      ghost var sound := DptSound(log, pages, disk, dpt);
      ghost var found := tnxt[t].undoNext < flushed || tnxt[t].undoNext <= save;
      written := [];
      TableStart(log, pages, disk, dpt, sound);
      RollbackBegins(t, save);
      var undoNxt := tnxt[t].undoNext;
      while save < undoNxt
        invariant Working() && flushed >= old(flushed) && old(log) <= log && tnxt.Keys == old(tnxt.Keys)
        invariant RollingBack(old(log), log, t, save)
        invariant TableRolled(log, |old(log)|, pages, disk, dpt, old(dpt), written, sound)
        invariant undoNxt == tnxt[t].undoNext
        invariant found && save < undoNxt ==> undoNxt < flushed
        invariant !found ==> log == old(log) && pages == old(pages) && tnxt == old(tnxt) && flushed == old(flushed)
        invariant forall u :: u in tnxt && u != t ==> tnxt[u] == old(tnxt)[u]
        invariant pages.Keys == old(pages.Keys)
        invariant forall pg :: pg in pages && pages[pg] != old(pages)[pg] ==> LastWrite(old(log), |old(log)|, pg) >= 0
        decreases undoNxt
      {
        if undoNxt >= flushed {
          break;
        }
        undoNxt, written := RollbackTurn(t, save, undoNxt, old(log), old(dpt), written, sound);
      }
      TableEnd(log, |old(log)|, pages, disk, dpt, old(dpt), written, sound);
      RollbackEnds(old(log), t, save, old(tnxt), old(pages), found);
    }

    // -------------------------------------------------------------- analysis

    /** The transaction-table half of one record of the scan. */
    method AnalyzeTxn(ctx: AriesCtx, r: Rec, i: nat, lookup: bool)
      requires ctx.Valid() && NoneDone(ctx.txns)
      modifies ctx`txns, ctx`txt
      ensures ctx.Valid() && NoneDone(ctx.txns)
      ensures ctx.Att() == AttStep(old(ctx.Att()), r, i, lookup)
    {
      var tx := ctx.Enter(r.tid, TxnData(i, r.PrevLsn(), CandidateForUndo), lookup);
      var d := ctx.txns[tx].data;
      ghost var was := ctx.Att();
      match r {
        case Update(_, _, _, _, _) =>
          ctx.TxnUpdate(tx, d.(last := i, undoNext := i));
        case Clr(_, _, _, undoNext, _) =>
          ctx.TxnUpdate(tx, d.(last := i, undoNext := undoNext));
        case Commit(_, _) =>
          ctx.TxnUpdate(tx, d.(last := i, state := TxCommitted));
        case Begin(_) =>
        case End(_, _) =>
          ctx.RemoveTxn(r.tid);
      }
      Updated(old(ctx.Att()), was, ctx.Att(), r, i, lookup);
    }

    /** One record of the scan.  With lookup false this is the code: the entry it goes on to
        update is always the freshly appended one.  With lookup true it is the entry the
        table holds for the transaction, which is what the comments in the code say. */
    method AnalyzeRecord(ctx: AriesCtx, r: Rec, i: nat, lookup: bool)
      requires ctx.Valid() && NoneDone(ctx.txns)
      modifies ctx
      ensures ctx.Valid() && NoneDone(ctx.txns)
      ensures ctx.Att() == AttStep(old(ctx.Att()), r, i, lookup)
      ensures ctx.dpt == if r.Update? && r.pg !in old(ctx.dpt) then old(ctx.dpt)[r.pg := i] else old(ctx.dpt)
      ensures ctx.maxTid == if r.tid > old(ctx.maxTid) then r.tid else old(ctx.maxTid)
    {
      if r.tid > ctx.maxTid {
        ctx.maxTid := r.tid;
      }
      AnalyzeTxn(ctx, r, i, lookup);
      if r.Update? && r.pg !in ctx.dpt {
        ctx.dpt := ctx.dpt[r.pg := i];
      }
    }

    /** One entry's turn in the walk that closes analysis. */
    method CloseEntry(ctx: AriesCtx, t: nat)
      requires flushed <= |log| && ctx.Valid() && t in ctx.txt
      modifies `log, `flushed, ctx`txns
      ensures old(flushed) <= flushed <= |log|
      ensures ctx.Valid() && (DoneInTable(old(ctx.txns), ctx.txt) ==> DoneInTable(ctx.txns, ctx.txt))
      ensures var d := old(ctx.Att())[t];
              if Finished(d) then log == old(log) + [End(t, d.last)] && ctx.Att() == old(ctx.Att())[t := d.(state := Done)]
              else log == old(log) && ctx.Att() == old(ctx.Att())
    {
      var d := ctx.txns[ctx.txt[t]].data;
      if (d.state == CandidateForUndo && d.undoNext == 0) || d.state == TxCommitted {
        var _ := Append(End(t, d.last));
        ctx.TxnUpdate(ctx.txt[t], d.(state := Done));
      }
    }

    /** The same, with the account of the end records written so far. */
    method CloseNext(ctx: AriesCtx, t: nat, ghost ends: seq<Rec>, ghost was: map<nat, TxnData>, ghost todo: set<nat>)
      returns (ghost ends': seq<Rec>)
      requires flushed <= |log| && ctx.Valid() && DoneInTable(ctx.txns, ctx.txt) && t in todo && t in ctx.txt
      requires EndsOf(ends, was, todo) && ClosedIn(ctx.Att(), was, todo)
      modifies `log, `flushed, ctx`txns
      ensures old(flushed) <= flushed <= |log| && ctx.Valid() && DoneInTable(ctx.txns, ctx.txt)
      ensures forall log0: Log :: old(log) == log0 + ends ==> log == log0 + ends'
      ensures EndsOf(ends', was, todo - {t}) && ClosedIn(ctx.Att(), was, todo - {t})
    {
      hide DoneInTable, EndsOf, Finished;
      ClosedStep(ctx.Att(), was, todo, t);
      hide ClosedIn;
      EndsOfStep(ends, was, todo, t);
      ends' := if Finished(was[t]) then ends + [End(t, was[t].last)] else ends;
      CloseEntry(ctx, t);
    }

    /** The end records that close analysis: one for each finished entry, in table order. */
    method FlushEnds(ctx: AriesCtx) returns (ghost ends: seq<Rec>)
      requires flushed <= |log| && ctx.Valid() && NoneDone(ctx.txns)
      modifies `log, `flushed, ctx`txns
      ensures old(flushed) <= flushed <= |log|
      ensures log == old(log) + ends && EndsOf(ends, old(ctx.Att()), {})
      ensures ctx.Valid() && ClosedIn(ctx.Att(), old(ctx.Att()), {})
      ensures DoneInTable(ctx.txns, ctx.txt)
    {
      var todo := ctx.txt.Keys;
      ends := [];
      ghost var was := ctx.Att();
      assert was.Keys == todo;
      NoneClosed(was, ctx.txns, ctx.txt);
      hide *;
      while todo != {}
        invariant todo <= ctx.txt.Keys && ctx.Valid()
        invariant old(flushed) <= flushed <= |log| && log == old(log) + ends
        invariant EndsOf(ends, was, todo)
        invariant ClosedIn(ctx.Att(), was, todo)
        invariant DoneInTable(ctx.txns, ctx.txt)
        decreases todo
      {
        var t :| t in todo;
        ends := CloseNext(ctx, t, ends, was, todo);
        todo := todo - {t};
      }
    }

    /** Drops every descriptor that has been closed from the table. */
    method RemoveDone(ctx: AriesCtx)
      requires ctx.Valid() && DoneInTable(ctx.txns, ctx.txt)
      modifies ctx`txt
      ensures ctx.Valid()
      ensures ctx.Att() == map t | t in old(ctx.Att()) && old(ctx.Att())[t].state != Done :: old(ctx.Att())[t]
    {
      ghost var was := ctx.txt;
      for i := 0 to |ctx.txns|
        invariant ctx.Valid() && ctx.txt.Keys <= was.Keys
        invariant forall t :: t in ctx.txt ==> ctx.txt[t] == was[t]
        invariant forall t :: t in was && t !in ctx.txt ==> ctx.txns[was[t]].data.state == Done
        invariant forall t :: t in ctx.txt && was[t] < i ==> ctx.txns[was[t]].data.state != Done
        invariant forall t :: t in was && was[t] >= i ==> t in ctx.txt
      {
        if ctx.txns[i].data.state == Done {
          ctx.RemoveTxn(ctx.txns[i].tid);
        }
      }
    }

    /** The scan of analysis. */
    method ScanLog(ctx: AriesCtx, lookup: bool)
      requires flushed == |log|
      requires ctx.Valid() && ctx.txns == [] && ctx.txt == map[] && ctx.dpt == map[]
      modifies ctx
      ensures ctx.Valid() && NoneDone(ctx.txns)
      ensures ctx.Att() == AttAt(log, |log|, lookup) && ctx.dpt == DptAt(log, |log|)
      ensures forall k :: 0 <= k < |log| ==> log[k].tid <= ctx.maxTid
      ensures |log| > 0 && old(ctx.maxTid) == 0 ==> IsTid(log, ctx.maxTid)
    {
      var i := 0;
      while i < flushed
        invariant 0 <= i <= |log| && ctx.Valid() && NoneDone(ctx.txns)
        invariant ctx.Att() == AttAt(log, i, lookup) && ctx.dpt == DptAt(log, i)
        invariant forall k :: 0 <= k < i ==> log[k].tid <= ctx.maxTid
        invariant IsTid(log, ctx.maxTid) || ctx.maxTid == old(ctx.maxTid)
      {
        AnalyzeRecord(ctx, log[i], i, lookup);
        assert IsTid(log, log[i].tid);
        i := i + 1;
      }
      if |log| > 0 && ctx.maxTid == 0 { assert log[0].tid == 0; }
    }

    /** Writes the end records and drops their transactions from the table. */
    method CloseAnalysis(ctx: AriesCtx) returns (ghost ends: seq<Rec>)
      requires Valid() && ctx.Valid() && NoneDone(ctx.txns)
      requires |log| == 0 ==> ctx.Att() == map[]
      modifies `log, `flushed, ctx`txns, ctx`txt
      ensures Valid() && old(flushed) <= flushed && log == old(log) + ends
      ensures EndsOf(ends, old(ctx.Att()), {})
      ensures ctx.Valid() && ctx.Att() == Unfinished(old(ctx.Att()))
    {
      ghost var was := ctx.Att();
      assert forall t :: t in was ==> was[t].state != Done;
      ends := FlushEnds(ctx);
      EndsKeepStores(old(log), ends, old(flushed), flushed, disk);
      EndsKeepStores(old(log), ends, if restarting then old(flushed) else |old(log)|,
                     if restarting then flushed else |log|, pages);
      ghost var closed := ctx.Att();
      RemoveDone(ctx);
      DroppedDone(closed, was);
    }

    /** Analysis (no checkpoint): scans the whole log, closes the finished transactions, and
        answers where redo starts. */
    method RestartAnalysis(ctx: AriesCtx, lookup: bool) returns (redoLsn: int, ghost ends: seq<Rec>)
      requires Valid() && flushed == |log|
      requires ctx.Valid() && ctx.txns == [] && ctx.txt == map[] && ctx.dpt == map[]
      modifies `log, `flushed, ctx
      ensures Valid() && old(flushed) <= flushed && log == old(log) + ends
      ensures ctx.Valid() && ctx.Att() == Unfinished(AttAt(old(log), |old(log)|, lookup))
      ensures EndsOf(ends, AttAt(old(log), |old(log)|, lookup), {})
      ensures ctx.dpt == DptAt(old(log), |old(log)|)
      ensures forall k :: 0 <= k < |old(log)| ==> old(log)[k].tid <= ctx.maxTid
      ensures |old(log)| > 0 && old(ctx.maxTid) == 0 ==> IsTid(old(log), ctx.maxTid)
      ensures redoLsn == -1 <==> ctx.dpt == map[]
      ensures redoLsn >= 0 ==> exists pg :: pg in ctx.dpt && ctx.dpt[pg] == redoLsn
      ensures forall pg :: pg in ctx.dpt ==> 0 <= redoLsn <= ctx.dpt[pg]
    {
      ScanLog(ctx, lookup);
      ends := CloseAnalysis(ctx);
      redoLsn := ctx.MinRecLsn();
    }

    /** Redo: repeats history from redoLsn to the end of the log file.  It fails exactly when
        the table is empty: the least recLSN is then (lsn)-1, to which the log cannot seek. */
    method RestartRedo(ctx: AriesCtx, redoLsn: int) returns (ok: bool)
      requires Valid() && restarting
      requires redoLsn == -1 <==> ctx.dpt == map[]
      requires forall pg :: pg in ctx.dpt ==> 0 < redoLsn <= ctx.dpt[pg]
      requires redoLsn <= flushed && Covers(log, flushed, ctx.dpt, pages)
      modifies `pages, `disk, `flushed, `dpt, ctx`dpt
      ensures Valid() && disk.Keys == old(disk.Keys) && flushed == old(flushed)
      ensures ok <==> old(ctx.dpt) != map[]
      ensures ok ==> pages == Replay(log, flushed, old(pages))
      ensures !ok ==> pages == old(pages)
    {
      if redoLsn == -1 {
        return false;
      }
      if redoLsn == 0 {
        return true;
      }
      ghost var start := pages;
      var i: nat := redoLsn;
      while i < flushed
        invariant redoLsn <= i <= flushed && Valid()
        invariant RedoneTo(log, flushed, i, ctx.dpt, pages, start)
        invariant disk.Keys == old(disk.Keys) && flushed == old(flushed)
      {
        RedoOne(ctx, i, start);
        i := i + 1;
      }
      RedoneAll(log, flushed, ctx.dpt, pages, start);
      return true;
    }

    /** One record of the redo scan. */
    method RedoOne(ctx: AriesCtx, i: nat, ghost start: Store)
      requires Valid() && restarting && i < flushed
      requires RedoneTo(log, flushed, i, ctx.dpt, pages, start)
      modifies `pages, `disk, `flushed, `dpt, ctx`dpt
      ensures Valid() && disk.Keys == old(disk.Keys) && flushed == old(flushed)
      ensures RedoneTo(log, flushed, i + 1, ctx.dpt, pages, start)
    {
      RedoneStep(log, flushed, i, ctx.dpt, pages, start);
      match log[i] {
        case Update(_, _, pg, _, redo) => RedoImage(ctx, pg, i, redo);
        case Clr(_, _, pg, _, redo) => RedoImage(ctx, pg, i, redo);
        case _ =>
      }
    }

    /** The redo of one page image. */
    method RedoImage(ctx: AriesCtx, pg: nat, i: nat, redo: Image)
      requires Valid() && restarting && i < flushed && Writes(log[i], pg) && log[i].redo == redo && pg in pages
      modifies `pages, `disk, `flushed, `dpt, ctx`dpt
      ensures Valid() && disk.Keys == old(disk.Keys) && flushed == old(flushed)
      ensures ctx.dpt == RedoRecord(log[i], i, old(ctx.dpt), old(pages)).0
      ensures pages == RedoRecord(log[i], i, old(ctx.dpt), old(pages)).1
      ensures pg in old(ctx.dpt) && old(ctx.dpt)[pg] <= i <= old(pages)[pg].lsn ==>
                pages == old(pages) && ctx.dpt == old(ctx.dpt)[pg := old(pages)[pg].lsn + 1]
    {
      hide DptSound, WrittenOut, StoreOk;
      if pg in ctx.dpt && i >= ctx.dpt[pg] {
        var page, _ := Fetch(pg);
        if page.lsn < i {
          RedoneStore(log, flushed, i, pg, redo, pages);
          pages := pages[pg := Page(i, redo)];
        } else {
          ctx.dpt := ctx.dpt[pg := page.lsn + 1];
        }
      }
    }

    /** Undoes the update at undoLsn: its undo image becomes the page, under a compensation
        record that is flushed before the page can carry its LSN. */
    method UndoImage(ctx: AriesCtx, undoLsn: nat)
      requires Valid() && restarting && undoLsn < |log| && log[undoLsn].Update? && log[undoLsn].pg in pages
      requires ctx.Valid() && log[undoLsn].tid in ctx.txt
      modifies `log, `flushed, `pages, `disk, `dpt, ctx`txns
      ensures Valid() && flushed >= old(flushed) && disk.Keys == old(disk.Keys) && ctx.Valid()
      ensures var r := old(log)[undoLsn];
              var d := old(ctx.Att())[r.tid];
              && log == old(log) + [ClrFor(old(log), undoLsn, d.last)]
              && pages == old(pages)[r.pg := Page(|old(log)|, r.undo)]
              && ctx.Att() == old(ctx.Att())[r.tid := d.(last := |old(log)|, undoNext := r.prev)]
    {
      hide StoreOk, DptSound, WrittenOut;
      var r := log[undoLsn];
      var _, _ := Fetch(r.pg);
      var tx := ctx.txt[r.tid];
      var d := ctx.txns[tx].data;
      var clr := Clr(r.tid, d.last, r.pg, r.prev, r.undo);
      StoresAfterWrite(log, flushed, flushed, clr, pages, disk);
      var l := Append(clr);
      FlushAll();
      pages := pages[r.pg := Page(l, r.undo)];
      UpdateTwice(ctx.Att(), r.tid, d.(last := l), d.(last := l, undoNext := r.prev));
      ctx.TxnUpdate(tx, d.(last := l));
      ctx.TxnUpdate(tx, d.(last := l, undoNext := r.prev));
    }

    /** One round of undo, for the record at undoLsn of the loser t. */
    method UndoRecord(ctx: AriesCtx, undoLsn: nat, ghost t: nat)
      requires Valid() && restarting && ctx.Valid()
      requires t in ctx.Att() && ctx.Att()[t].undoNext == undoLsn < |log| && log[undoLsn].tid == t
      requires log[undoLsn].Begin? || log[undoLsn].Update? || log[undoLsn].Clr?
      requires log[undoLsn].Update? ==> log[undoLsn].pg in pages
      modifies `log, `flushed, `pages, `disk, `dpt, ctx`txns, ctx`txt
      ensures Valid() && flushed >= old(flushed) && disk.Keys == old(disk.Keys) && ctx.Valid()
      ensures old(log) <= log && log == UndoRound(old(log), t, old(ctx.Att()), old(pages)).0
      ensures ctx.Att() == UndoRound(old(log), t, old(ctx.Att()), old(pages)).1
      ensures pages == UndoRound(old(log), t, old(ctx.Att()), old(pages)).2
      ensures old(log)[undoLsn].Clr? ==> log == old(log) && pages == old(pages)
      ensures old(log)[undoLsn].Begin? ==> log == old(log) + [End(t, undoLsn)] && pages == old(pages) && t !in ctx.Att()
    {
      match log[undoLsn] {
        case Update(_, _, _, _, _) =>
          UndoImage(ctx, undoLsn);
        case Clr(tid, _, _, undoNext, _) =>
          var tx := ctx.txt[tid];
          ctx.TxnUpdate(tx, ctx.txns[tx].data.(undoNext := undoNext));
        case Begin(tid) =>
          EndsKeepStores(log, [End(tid, undoLsn)], flushed, flushed, pages);
          var _ := Append(End(tid, undoLsn));
          ctx.RemoveTxn(tid);
        case _ =>
      }
    }

    /** The body of the undo loop, for the loser t that has the greatest undo pointer. */
    method UndoMax(ctx: AriesCtx, undoLsn: nat, ghost t: nat, ghost n0: nat, ghost start: Store)
      requires Valid() && restarting && ctx.Valid() && Undoing(log, n0, ctx.Att(), pages, start)
      requires t in ctx.Att() && ctx.Att()[t].undoNext == undoLsn
      requires forall u :: u in ctx.Att() ==> ctx.Att()[u].undoNext <= undoLsn
      modifies `log, `flushed, `pages, `disk, `dpt, ctx`txns, ctx`txt
      ensures Valid() && flushed >= old(flushed) && disk.Keys == old(disk.Keys) && ctx.Valid()
      ensures old(log) <= log && Undoing(log, n0, ctx.Att(), pages, start)
      ensures forall u :: u in ctx.Att() ==> ctx.Att()[u].undoNext < undoLsn && ctx.Att()[u].state == CandidateForUndo
    {
      hide UndoTable, UndoPages, UndoRound, StoreOk, CanAppend;
      NextToUndo(log, flushed, t, ctx.Att(), pages);
      RoundFalls(log, n0, t, ctx.Att(), pages, start);
      UndoRecord(ctx, undoLsn, t);
      AllCandidates(log, ctx.Att());
    }

    /** Undo: one round for the greatest undo pointer of any loser, until no loser is left. */
    method RestartUndo(ctx: AriesCtx)
      requires Valid() && restarting && ctx.Valid()
      requires ctx.Att() == map[] || Undoing(log, |log|, ctx.Att(), pages, pages)
      modifies `log, `flushed, `pages, `disk, `dpt, ctx`txns, ctx`txt
      ensures Valid() && flushed >= old(flushed) && disk.Keys == old(disk.Keys)
      ensures ctx.Valid() && ctx.Att() == map[]
      ensures old(ctx.Att()) == map[] ==> log == old(log) && pages == old(pages)
      ensures old(ctx.Att()) != map[] ==> old(log) <= log && Undoing(log, |old(log)|, map[], pages, old(pages))
    {
      ghost var n0, start, idle := |log|, pages, ctx.Att() == map[];
      if !idle { AllCandidates(log, ctx.Att()); }
      hide Undoing, StoreOk;
      var undoLsn := ctx.MaxUndoLsn();
      while undoLsn >= 0
        invariant Valid() && restarting && flushed >= old(flushed) && disk.Keys == old(disk.Keys)
        invariant ctx.Valid() && old(log) <= log
        invariant if idle then ctx.Att() == map[] && log == old(log) && pages == start
                  else Undoing(log, n0, ctx.Att(), pages, start)
        invariant undoLsn >= 0 ==> exists t :: t in ctx.Att() && ctx.Att()[t].undoNext == undoLsn
        invariant forall t :: t in ctx.Att() ==> ctx.Att()[t].undoNext <= undoLsn
        decreases undoLsn
      {
        ghost var t :| t in ctx.Att() && ctx.Att()[t].undoNext == undoLsn;
        UndoMax(ctx, undoLsn, t, n0, start);
        undoLsn := ctx.MaxUndoLsn();
      }
      NoPointersLeft(ctx.Att());
    }

    /** The three phases, with what they achieve together. */
    method Recover(ctx: AriesCtx, lookup: bool) returns (ok: bool, ghost ends: seq<Rec>)
      requires Valid() && restarting && Legal(log) && flushed == |log| && pages == disk
      requires ctx.Valid() && ctx.txns == [] && ctx.txt == map[] && ctx.dpt == map[]
      modifies `log, `flushed, `pages, `disk, `dpt, ctx
      ensures Valid() && disk.Keys == old(disk.Keys)
      ensures ok <==> exists k :: 0 <= k < |old(log)| && old(log)[k].Update?
      ensures old(log) + ends <= log && EndsOf(ends, AttAt(old(log), |old(log)|, lookup), {})
      ensures forall k :: 0 <= k < |old(log)| ==> old(log)[k].tid <= ctx.maxTid
      ensures |old(log)| > 0 && old(ctx.maxTid) == 0 ==> IsTid(old(log), ctx.maxTid)
      ensures !ok ==> log == old(log) + ends && pages == old(pages)
      ensures ok && !lookup ==> log == old(log) + ends && pages == Replay(old(log), |old(log)|, old(disk))
      ensures ok && lookup ==> Recovered(old(log), ends, log, pages, Replay(old(log), |old(log)|, old(disk)))
    {
      hide StoreOk, EndsOf, Undoing, UndoLog, UndoTable, UndoPages, Covers, UpToDate, Replay, Legal, Recovered, DptSound;
      var redoLsn: int;
      redoLsn, ends := RestartAnalysis(ctx, lookup);
      EndsOnly(ends, AttAt(old(log), |old(log)|, lookup));
      ghost var n0, att := |old(log)|, ctx.Att();
      CoverPastEnds(old(log), ends, flushed, pages);
      DptNonEmpty(old(log), n0);
      ok := RestartRedo(ctx, redoLsn);
      if ok {
        ReplayPastEnds(old(log), ends, flushed, old(disk));
        AnalysisOutcome(old(log), ends, lookup, att, pages);
        RestartUndo(ctx);
        UndoOutcome(old(log), ends, log, pages, Replay(old(log), n0, old(disk)), lookup, att);
      }
    }

    /** Restart of a pager that has just been opened: its pages are the disk's, and its log is
        what reached stable storage.  It fails exactly when the log holds no update at all. */
    method RestartWith(lookup: bool) returns (ok: bool, ghost ends: seq<Rec>)
      requires Valid() && Legal(log) && flushed == |log| && pages == disk && !restarting
      modifies `log, `flushed, `pages, `disk, `dpt, `restarting, `nextTid
      ensures Valid() && !restarting && disk.Keys == old(disk.Keys)
      ensures ok <==> exists k :: 0 <= k < |old(log)| && old(log)[k].Update?
      ensures old(log) + ends <= log && EndsOf(ends, AttAt(old(log), |old(log)|, lookup), {})
      ensures ok ==> forall k :: 0 <= k < |old(log)| ==> old(log)[k].tid < nextTid
      ensures ok ==> nextTid > 0 && IsTid(old(log), nextTid - 1)
      ensures !ok ==> log == old(log) + ends && pages == old(pages)
      ensures ok && !lookup ==> log == old(log) + ends && pages == Replay(old(log), |old(log)|, old(disk))
      ensures ok && !lookup ==>
                forall pg :: pg in pages && LastWrite(old(log), |old(log)|, pg) >= 0 ==>
                  (pages[pg].image == CommittedImage(old(log), |old(log)|, pg) <==> LosersCancelOut(old(log), |old(log)|, pg))
      ensures ok && lookup ==> Recovered(old(log), ends, log, pages, Replay(old(log), |old(log)|, old(disk)))
    {
      hide StoreOk, EndsOf, Legal, Replay, Recovered, DptSound;
      restarting := true;
      var ctx := new AriesCtx();
      AsCodedPages(log, disk);
      ok, ends := Recover(ctx, lookup);
      StoreOkLater(log, flushed, |log|, pages);
      restarting := false;
      if ok {
        nextTid := ctx.maxTid + 1;
      }
    }
  }

  /** What restart owes.  Here log0 is the log that was found and m0 the pages after redo: the
      log now legally extends log0 by end and compensation records only, every transaction of
      log0 has its end record, every page log0 wrote shows what log0 owes for it, and a page
      without a live update of an unfinished transaction is as redo left it. */
  ghost predicate Recovered(log0: Log, ends: seq<Rec>, log: Log, m: Store, m0: Store) {
    && UndoLog(log, |log0 + ends|) && UpToDate(log, m)
    && (forall t :: LastOf(log0, |log0|, t) >= 0 ==> Ended(log, |log|, t))
    && (forall pg :: pg in m && LastWrite(log0, |log0|, pg) >= 0 ==>
          m[pg].image == CommittedImage(log0, |log0|, pg))
    && (forall pg :: pg in m && !HasLoser(log0, |log0|, pg) ==> pg in m0 && m[pg] == m0[pg])
  }

  lemma EndsOnly(ends: seq<Rec>, att: map<nat, TxnData>)
    requires EndsOf(ends, att, {})
    ensures forall k :: 0 <= k < |ends| ==> ends[k].End?
  {}

  /** After analysis and redo, undo can start: with the table as the comments have it, on
      every loser; as coded, on none. */
  lemma AnalysisOutcome(log: Log, ends: seq<Rec>, lookup: bool, att: map<nat, TxnData>, m: Store)
    requires Legal(log) && att == Unfinished(AttAt(log, |log|, lookup))
    requires EndsOf(ends, AttAt(log, |log|, lookup), {}) && UpToDate(log + ends, m)
    ensures lookup ==> Undoing(log + ends, |log + ends|, att, m, m)
    ensures !lookup ==> att == map[]
  {
    if lookup {
      AnalysisLeavesUndoTable(log, ends, AttAt(log, |log|, true));
    } else {
      AsCodedUndoesNothing(log);
    }
  }

  /** What an undo that has run to its end has achieved. */
  lemma UndoOutcome(log0: Log, ends: seq<Rec>, log: Log, m: Store, m0: Store, lookup: bool, att: map<nat, TxnData>)
    requires Legal(log0) && EndsOf(ends, AttAt(log0, |log0|, lookup), {})
    requires lookup ==> Undoing(log0 + ends, |log0 + ends|, att, m0, m0)
    requires att == map[] ==> log == log0 + ends && m == m0
    requires att != map[] ==> log0 + ends <= log && Undoing(log, |log0 + ends|, map[], m, m0)
    ensures lookup ==> Recovered(log0, ends, log, m, m0)
  {
    if lookup {
      assert Undoing(log, |log0 + ends|, map[], m, m0);
      OthersUntouched(log0, ends, log, m, m0);
      NothingOwed(log0, ends, log, m);
    }
  }

  lemma OthersUntouched(log0: Log, ends: seq<Rec>, log: Log, m: Store, m0: Store)
    requires forall k :: 0 <= k < |ends| ==> ends[k].End?
    requires log0 + ends <= log && UndoPages(log, |log0 + ends|, m, m0)
    ensures forall pg :: pg in m && !HasLoser(log0, |log0|, pg) ==> pg in m0 && m[pg] == m0[pg]
  {
    forall pg | pg in m && m[pg] != m0[pg]
      ensures HasLoser(log0, |log0|, pg)
    {
      LoserPages(log, log0 + ends, |log0 + ends|);
      LosersPastEnds(log0, ends, pg);
    }
  }

  lemma NothingOwed(log0: Log, ends: seq<Rec>, log: Log, m: Store)
    requires Legal(log0) && EndsOf(ends, AttAt(log0, |log0|, true), {})
    requires log0 + ends <= log && UndoLog(log, |log0 + ends|) && UpToDate(log, m) && UndoTable(log, map[])
    ensures forall t :: LastOf(log0, |log0|, t) >= 0 ==> Ended(log, |log|, t)
    ensures forall pg :: pg in m && LastWrite(log0, |log0|, pg) >= 0 ==>
              m[pg].image == CommittedImage(log0, |log0|, pg)
  {
    PrefixStable(log0, log, |log0|);
    assert forall t :: !Active(log, |log|, t);
    forall k | |log0| <= k < |log|
      ensures !log[k].Commit?
    {
      if k < |log0 + ends| { assert log[k] == (log0 + ends)[k] == ends[k - |log0|]; }
    }
    forall t | LastOf(log0, |log0|, t) >= 0
      ensures Ended(log, |log|, t)
    {
      EveryoneEnded(log0, ends, log, t);
    }
    AllFinished(log, |log0|, m);
    forall pg
      ensures CommittedImage(log, |log0|, pg) == CommittedImage(log0, |log0|, pg)
    {
      OwedStable(log, log0, |log0|, pg);
    }
  }
}
