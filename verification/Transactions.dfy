/** Normal work: how begin, save and commit extend the log, and what the running transaction
    table and the dirty page table then say. */
module Transactions {
  import opened Wal
  import opened LogFacts
  import opened Recovery

  // ---------------------------------------------------------------- the transaction table

  ghost predicate RunningEntry(log: Log, t: nat, d: TxnData) {
    d.state == Running && Tracks(log, t, d)
  }

  /** The running table holds exactly the unfinished transactions. */
  ghost predicate RunningTable(log: Log, tab: map<nat, TxnData>) {
    && (forall t :: t in tab ==> RunningEntry(log, t, tab[t]))
    && (forall t :: Active(log, |log|, t) ==> t in tab)
  }

  /** A record of t leaves the entries of every other transaction in agreement. */
  lemma RunningTableAfter(log: Log, r: Rec, t: nat, tab: map<nat, TxnData>, tab': map<nat, TxnData>)
    requires Legal(log) && Legal(log + [r]) && r.tid == t && RunningTable(log, tab)
    requires forall u :: u != t ==> (u in tab <==> u in tab') && (u in tab ==> tab'[u] == tab[u])
    requires t in tab' ==> RunningEntry(log + [r], t, tab'[t])
    requires t !in tab' ==> !Active(log + [r], |log| + 1, t)
    ensures RunningTable(log + [r], tab')
  {
    var log' := log + [r];
    forall u | u in tab'
      ensures RunningEntry(log', u, tab'[u])
    {
      if u != t {
        assert RunningEntry(log, u, tab[u]);
        TracksOther(log, r, u, tab[u]);
      }
    }
    forall u | Active(log', |log'|, u)
      ensures u in tab'
    {
      if u != t {
        AppendStable(log, r);
        ActiveAfter(log', |log|, u);
      }
    }
  }

  lemma AppendBegin(log: Log, t: nat)
    requires Legal(log) && forall k :: 0 <= k < |log| ==> log[k].tid < t
    ensures LastOf(log, |log|, t) == -1
    ensures Legal(log + [Begin(t)]) && RunningEntry(log + [Begin(t)], t, TxnData(|log|, 0, Running))
  {
    var log' := log + [Begin(t)];
    assert forall k :: 0 <= k < |log| ==> log'[k].tid != t;
    assert LastOf(log', |log|, t) == -1;
    assert CanAppend(log', |log|);
    LegalAppend(log, Begin(t));
    FirstIsBegin(log');
    NothingLive(log', |log'|, t);
    hide Legal, Head;
    assert !Committed(log', |log'|, t) && !Ended(log', |log'|, t);
  }

  /** The isolation a save needs: no other unfinished transaction has a live update there. */
  ghost predicate Isolated(log: Log, t: nat, pg: nat) {
    forall j :: LiveOn(log, |log|, pg, j) ==> log[j].tid == t || Committed(log, |log|, log[j].tid)
  }

  lemma AppendUpdate(log: Log, t: nat, d: TxnData, pg: nat, undo: Image, redo: Image)
    requires Legal(log) && RunningEntry(log, t, d) && Isolated(log, t, pg)
    requires LastWrite(log, |log|, pg) >= 0 ==> undo == log[LastWrite(log, |log|, pg)].redo
    ensures var r := Update(t, d.last, pg, undo, redo);
            && Legal(log + [r])
            && RunningEntry(log + [r], t, d.(last := |log|, undoNext := |log|))
  {
    var r := Update(t, d.last, pg, undo, redo);
    var log' := log + [r];
    AppendStable(log, r);
    assert forall j :: LiveOn(log', |log|, pg, j) ==> LiveOn(log, |log|, pg, j);
    assert CanAppend(log', |log|);
    LegalAppend(log, r);
    OthersKeepLive(log', |log|);
    ActiveAfter(log', |log|, t);
    assert Live(log', |log'|, |log|);
  }

  lemma AppendCommit(log: Log, t: nat, d: TxnData)
    requires Legal(log) && RunningEntry(log, t, d)
    ensures var log' := log + [Commit(t, d.last)];
            && Legal(log') && Committed(log', |log'|, t) && !Active(log', |log'|, t) && !Ended(log', |log'|, t)
  {
    var r := Commit(t, d.last);
    var log' := log + [r];
    AppendStable(log, r);
    assert CanAppend(log', |log|);
    LegalAppend(log, r);
    assert log'[|log|].Commit? && log'[|log|].tid == t;
    assert Ended(log', |log'|, t) <==> Ended(log', |log|, t);
  }

  lemma AppendEndCommitted(log: Log, t: nat, prev: nat)
    requires Legal(log) && LastOf(log, |log|, t) >= 0 && Committed(log, |log|, t) && !Ended(log, |log|, t)
    ensures var log' := log + [End(t, prev)]; Legal(log') && !Active(log', |log'|, t)
  {
    var r := End(t, prev);
    AppendStable(log, r);
    assert CanAppend(log + [r], |log|);
    LegalAppend(log, r);
    ActiveAfter(log + [r], |log|, t);
  }

  // ---------------------------------------------------------------- the dirty page table

  /** Record k writes page pg and is not in the copy p of it. */
  predicate Missing(log: Log, pg: nat, p: Page, k: int) {
    0 <= k < |log| && Writes(log[k], pg) && p.lsn < k
  }

  /** What the table says of one page: absent, it is current on disk; present, its recLSN is
      the oldest update missing from disk. */
  ghost predicate EntrySound(log: Log, pg: nat, cached: Page, written: Page, dpt: map<nat, nat>) {
    if pg in dpt then Missing(log, pg, written, dpt[pg]) && forall k :: Missing(log, pg, written, k) ==> dpt[pg] <= k
    else cached == written
  }

  ghost predicate DptSound(log: Log, pages: Store, disk: Store, dpt: map<nat, nat>) {
    && pages.Keys == disk.Keys
    && dpt.Keys <= disk.Keys
    && (forall pg :: pg in disk ==> EntrySound(log, pg, pages[pg], disk[pg], dpt))
  }

  /** A save keeps the table sound: the first save since the page was last written out enters
      it, later ones leave its entry alone. */
  lemma SaveKeepsDpt(log: Log, r: Rec, pages: Store, disk: Store, dpt: map<nat, nat>)
    requires DptSound(log, pages, disk, dpt) && UpToDate(log, pages) && StoreOk(log, |log|, pages)
    requires r.Update? && r.pg in pages && |log| > 0
    ensures DptSound(log + [r], pages[r.pg := Page(|log|, r.redo)], disk,
                     if r.pg in dpt then dpt else dpt[r.pg := |log|])
  {
    var log', dpt' := log + [r], if r.pg in dpt then dpt else dpt[r.pg := |log|];
    forall pg | pg in disk
      ensures EntrySound(log', pg, pages[r.pg := Page(|log|, r.redo)][pg], disk[pg], dpt')
    {
      assert EntrySound(log, pg, pages[pg], disk[pg], dpt);
      if pg == r.pg {
        SavedEntry(log, r, pages[pg], disk[pg], dpt);
      } else {
        OtherEntry(log, r, pg, pages[pg], disk[pg], dpt, dpt');
      }
    }
  }

  lemma SavedEntry(log: Log, r: Rec, cached: Page, written: Page, dpt: map<nat, nat>)
    requires r.Update? || (r.Clr? && r.pg in dpt)
    requires EntrySound(log, r.pg, cached, written, dpt) && |log| > 0
    requires PageOk(log, |log|, r.pg, cached)
    requires LastWrite(log, |log|, r.pg) >= 0 ==> cached.lsn == LastWrite(log, |log|, r.pg)
    ensures EntrySound(log + [r], r.pg, Page(|log|, r.redo), written,
                       if r.pg in dpt then dpt else dpt[r.pg := |log|])
  {
    var log' := log + [r];
    forall k | 0 <= k < |log|
      ensures Missing(log', r.pg, written, k) <==> Missing(log, r.pg, written, k)
    {}
    if r.pg in dpt {
      assert Missing(log', r.pg, written, dpt[r.pg]);
    } else {
      forall k
        ensures !Missing(log, r.pg, written, k)
      {
        assert 0 <= k < |log| && Writes(log[k], r.pg) ==> LastWrite(log, |log|, r.pg) >= k;
      }
    }
  }

  lemma OtherEntry(log: Log, r: Rec, pg: nat, cached: Page, written: Page, dpt: map<nat, nat>, dpt': map<nat, nat>)
    requires EntrySound(log, pg, cached, written, dpt) && !Writes(r, pg)
    requires (pg in dpt <==> pg in dpt') && (pg in dpt ==> dpt'[pg] == dpt[pg])
    ensures EntrySound(log + [r], pg, cached, written, dpt')
  {
    forall k
      ensures Missing(log + [r], pg, written, k) <==> Missing(log, pg, written, k)
    {}
  }

  lemma OtherKeepsDpt(log: Log, r: Rec, pages: Store, disk: Store, dpt: map<nat, nat>)
    requires DptSound(log, pages, disk, dpt) && !r.Update? && !r.Clr?
    ensures DptSound(log + [r], pages, disk, dpt)
  {
    forall pg | pg in disk
      ensures EntrySound(log + [r], pg, pages[pg], disk[pg], dpt)
    {
      OtherEntry(log, r, pg, pages[pg], disk[pg], dpt, dpt);
    }
  }

  /** Writing pages out makes them current on disk. */
  function WrittenOut(pages: Store, disk: Store, victims: set<nat>): Store {
    map pg | pg in disk :: if pg in victims && pg in pages then pages[pg] else disk[pg]
  }

  lemma WrittenOutOk(log: Log, n: nat, pages: Store, disk: Store, victims: set<nat>)
    requires n <= |log| && StoreOk(log, n, disk)
    requires victims != {} ==> StoreOk(log, n, pages)
    ensures StoreOk(log, n, WrittenOut(pages, disk, victims))
    ensures WrittenOut(pages, disk, victims).Keys == disk.Keys
  {}

  lemma EvictKeepsDpt(log: Log, pages: Store, disk: Store, dpt: map<nat, nat>, victims: set<nat>)
    requires DptSound(log, pages, disk, dpt)
    ensures DptSound(log, pages, WrittenOut(pages, disk, victims), dpt - victims)
  {
    forall pg | pg in disk && pg !in victims
      ensures EntrySound(log, pg, pages[pg], disk[pg], dpt - victims)
    {
      assert EntrySound(log, pg, pages[pg], disk[pg], dpt);
    }
  }

  /** With the table sound, every update missing from disk is at or above the recLSN of its
      page, so redo from the table finds it. */
  lemma SoundTableCovers(log: Log, pages: Store, disk: Store, dpt: map<nat, nat>, pg: nat, k: nat)
    requires DptSound(log, pages, disk, dpt) && UpToDate(log, pages)
    requires pg in disk && Missing(log, pg, disk[pg], k)
    ensures pg in dpt && dpt[pg] <= k
  {
    assert EntrySound(log, pg, pages[pg], disk[pg], dpt);
    assert LastWrite(log, |log|, pg) >= k;
  }

  // ---------------------------------------------------------------- the table across a rollback

  /** The table is sound but for the stale pages, which are absent from it and not current on
      disk. */
  ghost predicate DptSoundBut(log: Log, pages: Store, disk: Store, dpt: map<nat, nat>, stale: set<nat>) {
    && pages.Keys == disk.Keys
    && dpt.Keys <= disk.Keys
    && stale <= disk.Keys
    && (forall pg :: pg in disk && pg !in stale ==> EntrySound(log, pg, pages[pg], disk[pg], dpt))
    && (forall pg :: pg in stale ==> pg !in dpt && pages[pg] != disk[pg])
  }

  lemma SoundButNone(log: Log, pages: Store, disk: Store, dpt: map<nat, nat>, stale: set<nat>)
    ensures DptSound(log, pages, disk, dpt) <==> DptSoundBut(log, pages, disk, dpt, {})
    ensures DptSoundBut(log, pages, disk, dpt, stale) ==> (DptSound(log, pages, disk, dpt) <==> stale == {})
  {
    if DptSoundBut(log, pages, disk, dpt, stale) && stale != {} {
      var pg :| pg in stale;
      assert !EntrySound(log, pg, pages[pg], disk[pg], dpt);
    }
  }

  lemma WritingHeals(log: Log, pages: Store, disk: Store, dpt: map<nat, nat>, stale: set<nat>, victims: set<nat>)
    requires DptSoundBut(log, pages, disk, dpt, stale)
    ensures DptSoundBut(log, pages, WrittenOut(pages, disk, victims), dpt - victims, stale - victims)
  {
    forall pg | pg in disk && pg !in stale - victims
      ensures EntrySound(log, pg, pages[pg], WrittenOut(pages, disk, victims)[pg], dpt - victims)
    {
      if pg !in victims {
        assert EntrySound(log, pg, pages[pg], disk[pg], dpt);
      }
    }
  }

  /** A compensation record makes its page stale exactly if the table does not hold it. */
  lemma ClrMakesStale(log: Log, r: Rec, pages: Store, disk: Store, dpt: map<nat, nat>, stale: set<nat>)
    requires DptSoundBut(log, pages, disk, dpt, stale) && UpToDate(log, pages)
    requires StoreOk(log, |log|, pages) && StoreOk(log, |log|, disk)
    requires r.Clr? && r.pg in pages && |log| > 0
    ensures DptSoundBut(log + [r], pages[r.pg := Page(|log|, r.redo)], disk, dpt,
                        if r.pg in dpt then stale else stale + {r.pg})
  {
    var log', pages' := log + [r], pages[r.pg := Page(|log|, r.redo)];
    assert pages[r.pg].lsn <= |log| && disk[r.pg].lsn < |log|;
    hide UpToDate, StoreOk, EntrySound;
    forall pg | pg in disk && pg !in stale && (pg == r.pg ==> pg in dpt)
      ensures EntrySound(log', pg, pages'[pg], disk[pg], dpt)
    {
      ClrEntry(log, r, pg, pages, disk, dpt);
    }
  }

  lemma ClrEntry(log: Log, r: Rec, pg: nat, pages: Store, disk: Store, dpt: map<nat, nat>)
    requires UpToDate(log, pages) && StoreOk(log, |log|, pages) && r.Clr? && r.pg in pages && |log| > 0
    requires pg in pages && pg in disk && EntrySound(log, pg, pages[pg], disk[pg], dpt) && (pg == r.pg ==> pg in dpt)
    ensures EntrySound(log + [r], pg, pages[r.pg := Page(|log|, r.redo)][pg], disk[pg], dpt)
  {
    if pg == r.pg {
      SavedEntry(log, r, pages[pg], disk[pg], dpt);
    } else {
      OtherEntry(log, r, pg, pages[pg], disk[pg], dpt, dpt);
    }
  }

  /** So a compensation record keeps the table sound if and only if the table holds its page. */
  lemma ClrKeepsDptIff(log: Log, r: Rec, pages: Store, disk: Store, dpt: map<nat, nat>)
    requires DptSound(log, pages, disk, dpt) && UpToDate(log, pages)
    requires StoreOk(log, |log|, pages) && StoreOk(log, |log|, disk)
    requires r.Clr? && r.pg in pages && |log| > 0
    ensures DptSound(log + [r], pages[r.pg := Page(|log|, r.redo)], disk, dpt) <==> r.pg in dpt
  {
    SoundButNone(log, pages, disk, dpt, {});
    ClrMakesStale(log, r, pages, disk, dpt, {});
    var none: set<nat> := {};
    var stale := if r.pg in dpt then none else none + {r.pg};
    SoundButNone(log + [r], pages[r.pg := Page(|log|, r.redo)], disk, dpt, stale);
  }

  /** The table after pages were written out, once before each compensation record. */
  ghost function TableAfter(dpt: map<nat, nat>, written: seq<set<nat>>): map<nat, nat> {
    if written == [] then dpt else TableAfter(dpt, written[..|written| - 1]) - written[|written| - 1]
  }

  /** The pages a rollback leaves stale: those it compensated when the table did not hold them
      and that have not been written out since. */
  ghost function Stale(dpt: map<nat, nat>, pgs: seq<nat>, written: seq<set<nat>>): set<nat>
    requires |pgs| == |written|
  {
    if pgs == [] then {}
    else
      var n := |pgs| - 1;
      (Stale(dpt, pgs[..n], written[..n]) - written[n]) + if pgs[n] in TableAfter(dpt, written) then {} else {pgs[n]}
  }

  /** When nothing is written out on the way, that is simply: every page it compensates is in
      the table to begin with. */
  lemma {:induction false} NothingWritten(dpt: map<nat, nat>, pgs: seq<nat>, written: seq<set<nat>>)
    requires |pgs| == |written| && forall i :: 0 <= i < |written| ==> written[i] == {}
    ensures TableAfter(dpt, written) == dpt
    ensures Stale(dpt, pgs, written) == {} <==> forall i :: 0 <= i < |pgs| ==> pgs[i] in dpt
  {
    if pgs != [] {
      var n := |pgs| - 1;
      NothingWritten(dpt, pgs[..n], written[..n]);
      assert dpt - written[n] == dpt;
      assert Stale(dpt, pgs[..n], written[..n]) - written[n] == Stale(dpt, pgs[..n], written[..n]);
      assert forall i :: 0 <= i < n ==> pgs[..n][i] == pgs[i];
    }
  }

  lemma StaleMore(dpt: map<nat, nat>, pgs: seq<nat>, written: seq<set<nat>>, pg: nat, victims: set<nat>)
    requires |pgs| == |written|
    ensures TableAfter(dpt, written + [victims]) == TableAfter(dpt, written) - victims
    ensures Stale(dpt, pgs + [pg], written + [victims])
         == (Stale(dpt, pgs, written) - victims) + if pg in TableAfter(dpt, written) - victims then {} else {pg}
  {
    assert (written + [victims])[..|written|] == written;
    assert (pgs + [pg])[..|pgs|] == pgs;
  }

  /** A table that lacks a page being compensated: after the rollback the page is absent from it
      and not current on disk. */
  lemma RollbackBreaksDpt()
    ensures var pages := map[0 := Page(5, [1])];
            && Legal(SAMPLE) && Legal(SAMPLE + [SAMPLE_CLR])
            && DptSound(SAMPLE, pages, pages, map[])
            && !DptSound(SAMPLE + [SAMPLE_CLR], pages[0 := Page(6, [0])], pages, map[])
  {
    SampleRecords();
    SampleTakenBack();
    var pages := map[0 := Page(5, [1])];
    ClrKeepsDptIff(SAMPLE, SAMPLE_CLR, pages, pages, map[]);
  }
}
