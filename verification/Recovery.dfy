/** The vocabulary of recovery: what a page store may hold at a given log, what the
    transaction table must say, which images recovery owes its caller, and how one appended
    record changes each of them. */
module Recovery {
  import opened Wal
  import opened LogFacts

  datatype TxnState = Running | CandidateForUndo | TxCommitted | Done

  datatype TxnData = TxnData(last: nat, undoNext: nat, state: TxnState)

  type Store = map<nat, Page>

  // ---------------------------------------------------------------- page stores

  /** A page whose LSN is a record below n holds the image of that record; LSN 0 marks a page
      that no record has been applied to. */
  predicate PageOk(log: Log, n: nat, pg: nat, p: Page)
    requires n <= |log|
  {
    p.lsn == 0 || (p.lsn < n && Writes(log[p.lsn], pg) && p.image == log[p.lsn].redo)
  }

  /** Every page the log writes exists, and no page is ahead of record n. */
  ghost predicate StoreOk(log: Log, n: nat, m: Store)
    requires n <= |log|
  {
    && (forall k :: 0 <= k < |log| && (log[k].Update? || log[k].Clr?) ==> log[k].pg in m)
    && (forall pg :: pg in m ==> PageOk(log, n, pg, m[pg]))
  }

  lemma StoreOkLater(log: Log, n: nat, k: nat, m: Store)
    requires n <= k <= |log| && StoreOk(log, n, m)
    ensures StoreOk(log, k, m)
  {}

  /** History repeated: each page as the last of the first n records left it. */
  function Replay(log: Log, n: nat, m: Store): Store
    requires n <= |log|
  {
    map pg | pg in m ::
      var w := LastWrite(log, n, pg);
      if w >= 0 then Page(w, log[w].redo) else m[pg]
  }

  /** Every page is as the whole log left it. */
  ghost predicate UpToDate(log: Log, m: Store) {
    forall pg :: pg in m && LastWrite(log, |log|, pg) >= 0 ==>
      m[pg] == Page(LastWrite(log, |log|, pg), log[LastWrite(log, |log|, pg)].redo)
  }

  // ---------------------------------------------------------------- what is owed

  /** The newest live update below m of page pg whose transaction has committed, or -1. */
  ghost function SurvivorBelow(log: Log, n: nat, pg: nat, m: nat): (j: int)
    requires m <= n <= |log|
    ensures -1 <= j < m
    ensures j >= 0 ==> LiveOn(log, n, pg, j) && Committed(log, n, log[j].tid)
    ensures forall k :: j < k < m && LiveOn(log, n, pg, k) ==> !Committed(log, n, log[k].tid)
  {
    if m == 0 then -1
    else if LiveOn(log, n, pg, m - 1) && Committed(log, n, log[m - 1].tid) then m - 1
    else SurvivorBelow(log, n, pg, m - 1)
  }

  /** The image recovery owes for page pg: that of the newest update which was not taken back
      and whose transaction committed; if there is none, the page as the log found it. */
  ghost function CommittedImage(log: Log, n: nat, pg: nat): Image
    requires n <= |log|
  {
    var j := SurvivorBelow(log, n, pg, n);
    if j >= 0 then log[j].redo else Base(log, n, pg)
  }

  /** Once no unfinished transaction has a live update on a page, the last image logged for
      it is the one that is owed. */
  lemma NothingLeftToUndo(log: Log, n: nat, pg: nat)
    requires Legal(log) && n <= |log| && LastWrite(log, n, pg) >= 0
    requires forall j :: LiveOn(log, n, pg, j) ==> Committed(log, n, log[j].tid)
    ensures log[LastWrite(log, n, pg)].redo == CommittedImage(log, n, pg)
  {
    LastImage(log, n, pg);
    var i, j := TopBelow(log, n, pg, n), SurvivorBelow(log, n, pg, n);
  }

  lemma SurvivorUnchanged(log: Log, k: nat, pg: nat)
    requires k < |log|
    requires forall j | 0 <= j < k && LiveOn(log, k, pg, j) ::
      Committed(log, k, log[j].tid) <==> Committed(log, k + 1, log[j].tid)
    requires forall j | 0 <= j < k && LiveOn(log, k + 1, pg, j) :: LiveOn(log, k, pg, j)
    requires forall j | 0 <= j < k && LiveOn(log, k, pg, j) ::
      LiveOn(log, k + 1, pg, j) || !Committed(log, k, log[j].tid)
    requires LiveOn(log, k + 1, pg, k) ==> !Committed(log, k + 1, log[k].tid)
    ensures SurvivorBelow(log, k + 1, pg, k + 1) == SurvivorBelow(log, k, pg, k)
  {
    var a, b := SurvivorBelow(log, k + 1, pg, k + 1), SurvivorBelow(log, k, pg, k);
    if a >= 0 { assert LiveOn(log, k + 1, pg, a); }
    if b >= 0 { assert LiveOn(log, k, pg, b); }
  }

  /** Only a commit record changes what is owed. */
  lemma OnlyCommitMatters(log: Log, k: nat, pg: nat)
    requires Legal(log) && k < |log| && !log[k].Commit? && LastWrite(log, k, pg) >= 0
    ensures CommittedImage(log, k + 1, pg) == CommittedImage(log, k, pg)
  {
    assert CanAppend(log, k);
    if log[k].Clr? { ClrTakesBackOne(log, k); } else { OthersKeepLive(log, k); }
    forall t
      ensures Committed(log, k, t) <==> Committed(log, k + 1, t)
    {}
    SurvivorUnchanged(log, k, pg);
  }

  lemma {:induction false} OwedUnchanged(log: Log, n: nat, m: nat, pg: nat)
    requires Legal(log) && n <= m <= |log| && LastWrite(log, n, pg) >= 0
    requires forall k :: n <= k < m ==> !log[k].Commit?
    ensures CommittedImage(log, m, pg) == CommittedImage(log, n, pg)
    decreases m
  {
    hide *;
    if n < m {
      var k := m - 1;
      WritesAccumulate(log, n, k, pg);
      OwedUnchanged(log, n, k, pg);
      OnlyCommitMatters(log, k, pg);
    }
  }

  lemma WritesAccumulate(log: Log, n: nat, m: nat, pg: nat)
    requires n <= m <= |log|
    ensures LastWrite(log, n, pg) <= LastWrite(log, m, pg)
  {}

  /** A commit makes visible exactly what its transaction wrote: each page it has a live
      update on is now owed as it stands, every other page is owed as before. */
  lemma CommitIsAtomic(log: Log, k: nat, pg: nat)
    requires Legal(log) && k < |log| && log[k].Commit? && LastWrite(log, k, pg) >= 0
    ensures (exists j :: LiveOn(log, k, pg, j) && log[j].tid == log[k].tid) ==>
              CommittedImage(log, k + 1, pg) == log[LastWrite(log, k, pg)].redo
    ensures !(exists j :: LiveOn(log, k, pg, j) && log[j].tid == log[k].tid) ==>
              CommittedImage(log, k + 1, pg) == CommittedImage(log, k, pg)
  {
    if j :| LiveOn(log, k, pg, j) && log[j].tid == log[k].tid {
      CommitShows(log, k, pg, j);
    } else {
      CommitLeaves(log, k, pg);
    }
  }

  lemma CommitShows(log: Log, k: nat, pg: nat, j: nat)
    requires Legal(log) && k < |log| && log[k].Commit? && LiveOn(log, k, pg, j) && log[j].tid == log[k].tid
    requires LastWrite(log, k, pg) >= 0
    ensures CommittedImage(log, k + 1, pg) == log[LastWrite(log, k, pg)].redo
  {
    assert CanAppend(log, k);
    OthersKeepLive(log, k);
    CommitsOne(log, k);
    forall i | LiveOn(log, k + 1, pg, i)
      ensures Committed(log, k + 1, log[i].tid)
    {
      assert LiveOn(log, k, pg, i);
      AboveIsSame(log, k, pg, j, i);
    }
    assert LastWrite(log, k + 1, pg) == LastWrite(log, k, pg);
    NothingLeftToUndo(log, k + 1, pg);
  }

  lemma CommitLeaves(log: Log, k: nat, pg: nat)
    requires Legal(log) && k < |log| && log[k].Commit? && LastWrite(log, k, pg) >= 0
    requires !exists j :: LiveOn(log, k, pg, j) && log[j].tid == log[k].tid
    ensures CommittedImage(log, k + 1, pg) == CommittedImage(log, k, pg)
  {
    OthersKeepLive(log, k);
    CommitsOne(log, k);
    hide Legal;
    SurvivorUnchanged(log, k, pg);
  }

  lemma CommitsOne(log: Log, k: nat)
    requires k < |log| && log[k].Commit?
    ensures forall u :: Committed(log, k + 1, u) <==> Committed(log, k, u) || u == log[k].tid
  {
    forall u
      ensures Committed(log, k + 1, u) <==> Committed(log, k, u) || u == log[k].tid
    {
      if u == log[k].tid {
        assert 0 <= k < k + 1 && log[k].Commit? && log[k].tid == u;
      } else if Committed(log, k + 1, u) {
        var i :| 0 <= i < k + 1 && log[i].Commit? && log[i].tid == u;
        assert 0 <= i < k;
      }
    }
  }

  /** On a page holding a live update of the unfinished transaction of j, every other live
      update is of that transaction or of a committed one. */
  lemma AboveIsSame(log: Log, k: nat, pg: nat, j: nat, i: nat)
    requires Legal(log) && k < |log| && CanAppend(log, k) && log[k].Commit?
    requires LiveOn(log, k, pg, j) && log[j].tid == log[k].tid && LiveOn(log, k, pg, i)
    ensures log[i].tid == log[k].tid || Committed(log, k, log[i].tid)
  {
    if i < j { IsolatedOn(log, k, pg, i, j); }
    if j < i { IsolatedOn(log, k, pg, j, i); }
  }

  /** What is owed by a log prefix does not depend on what follows it. */
  lemma OwedStable(a: Log, b: Log, n: nat, pg: nat)
    requires SamePrefix(a, b, n)
    ensures CommittedImage(a, n, pg) == CommittedImage(b, n, pg)
  {
    PrefixStable(a, b, n);
    var i, j := SurvivorBelow(a, n, pg, n), SurvivorBelow(b, n, pg, n);
    if i >= 0 { assert LiveOn(b, n, pg, i) && Committed(b, n, b[i].tid); }
    if j >= 0 { assert LiveOn(a, n, pg, j) && Committed(a, n, a[j].tid); }
  }

  // ---------------------------------------------------------------- the transaction table

  /** The table entry d of an unfinished transaction t agrees with the log. */
  ghost predicate Tracks(log: Log, t: nat, d: TxnData) {
    && Active(log, |log|, t)
    && d.last == LastOf(log, |log|, t)
    && d.undoNext < |log|
    && (d.undoNext == 0 || log[d.undoNext].tid == t)
    && Resolve(log, d.undoNext) == Head(log, |log|, t)
  }

  /** Where an undo pointer of an unfinished transaction may lead. */
  lemma PointerFacts(log: Log, t: nat, u: nat)
    requires Legal(log) && Active(log, |log|, t) && u < |log| && log[u].tid == t
    ensures log[u].Begin? || log[u].Update? || log[u].Clr?
    ensures log[u].Update? ==> log[u].prev < u && log[log[u].prev].tid == t
    ensures log[u].Clr? ==> log[u].undoNext < u && log[log[u].undoNext].tid == t
  {
    assert CanAppend(log, u);
    if log[u].Clr? {
      assert CanAppend(log, Head(log, u, t));
    }
  }

  /** The first record of a log begins a transaction. */
  lemma FirstIsBegin(log: Log)
    requires Legal(log) && |log| > 0
    ensures log[0].Begin?
  {
    assert CanAppend(log, 0);
    assert LastOf(log, 0, log[0].tid) == -1;
  }

  /** What a prefix says survives an append. */
  lemma AppendStable(log: Log, r: Rec)
    ensures var log' := log + [r];
            && SamePrefix(log, log', |log|)
            && (forall t :: LastOf(log', |log|, t) == LastOf(log, |log|, t))
            && (forall t :: Committed(log', |log|, t) == Committed(log, |log|, t))
            && (forall t :: Ended(log', |log|, t) == Ended(log, |log|, t))
            && (forall t :: Head(log', |log|, t) == Head(log, |log|, t))
            && (forall pg :: LastWrite(log', |log|, pg) == LastWrite(log, |log|, pg))
            && (forall j :: Live(log', |log|, j) == Live(log, |log|, j))
            && (forall t :: Active(log', |log|, t) == Active(log, |log|, t))
  {
    PrefixStable(log, log + [r], |log|);
  }

  lemma ActiveAfter(log: Log, n: nat, t: nat)
    requires n < |log|
    ensures Active(log, n, t) && !(log[n].tid == t && (log[n].Commit? || log[n].End?)) ==>
              Active(log, n + 1, t)
    ensures Active(log, n + 1, t) && log[n].tid != t ==> Active(log, n, t)
    ensures Active(log, n + 1, t) ==> !(log[n].tid == t && (log[n].Commit? || log[n].End?))
  {
    if log[n].tid == t && log[n].Commit? { assert Committed(log, n + 1, t); }
    if log[n].tid == t && log[n].End? { assert Ended(log, n + 1, t); }
  }

  /** A record of another transaction leaves an entry in agreement. */
  lemma TracksOther(log: Log, r: Rec, t: nat, d: TxnData)
    requires Legal(log + [r]) && Legal(log) && r.tid != t && Tracks(log, t, d)
    ensures Tracks(log + [r], t, d)
  {
    var log' := log + [r];
    AppendStable(log, r);
    ActiveAfter(log', |log|, t);
    HeadOfOther(log', |log|, t);
    ResolveStable(log, log', |log|, d.undoNext);
  }

  // ---------------------------------------------------------------- the records of undo

  /** The compensation record for the update at u of an unfinished transaction. */
  function ClrFor(log: Log, u: nat, last: nat): Rec
    requires u < |log| && log[u].Update?
  {
    Clr(log[u].tid, last, log[u].pg, log[u].prev, log[u].undo)
  }

  lemma ClrMayFollow(log: Log, t: nat, d: TxnData)
    requires Legal(log) && Tracks(log, t, d) && log[d.undoNext].Update?
    ensures log[d.undoNext].tid == t && log[d.undoNext].prev < d.undoNext
    ensures log[log[d.undoNext].prev].tid == t
    ensures var r := ClrFor(log, d.undoNext, d.last);
            && CanAppend(log + [r], |log|) && Legal(log + [r])
            && Head(log, |log|, t) == d.undoNext
            && Active(log + [r], |log| + 1, t)
  {
    FirstIsBegin(log);
    PointerFacts(log, t, d.undoNext);
    var r := ClrFor(log, d.undoNext, d.last);
    AppendStable(log, r);
    assert Head(log, |log|, t) == d.undoNext;
    assert CanAppend(log + [r], |log|);
    LegalAppend(log, r);
    ActiveAfter(log + [r], |log|, t);
  }

  lemma AppendClr(log: Log, t: nat, d: TxnData)
    requires Legal(log) && Tracks(log, t, d) && log[d.undoNext].Update?
    ensures log[d.undoNext].tid == t && log[d.undoNext].prev < d.undoNext
    ensures log[log[d.undoNext].prev].tid == t
    ensures var r := ClrFor(log, d.undoNext, d.last);
            && Legal(log + [r])
            && Tracks(log + [r], t, d.(last := |log|, undoNext := log[d.undoNext].prev))
            && (forall j :: Live(log + [r], |log| + 1, j) <==> Live(log, |log|, j) && j != d.undoNext)
  {
    ClrMayFollow(log, t, d);
    var u, n := d.undoNext, |log|;
    var r := ClrFor(log, u, d.last);
    var log' := log + [r];
    AppendStable(log, r);
    assert Live(log, n, u);
    ClrTakesBackOne(log', n);
    NextHead(log', n, t);
    ClrResolves(log', u, t);
    hide CanAppend, Legal, Live, Active;
  }

  lemma ClrResolves(log: Log, u: nat, t: nat)
    requires Legal(log) && u < |log| && log[u].Update? && log[u].tid == t && Active(log, |log|, t)
    ensures Resolve(log, log[u].prev) == Head(log, u, t)
  {
    assert CanAppend(log, u);
    assert !Committed(log, u, t) && !Ended(log, u, t);
    ResolveLast(log, u, t);
  }

  lemma AppendEnd(log: Log, t: nat, prev: nat)
    requires Legal(log) && Active(log, |log|, t) && Head(log, |log|, t) == -1
    ensures var log' := log + [End(t, prev)];
            && Legal(log')
            && !Active(log', |log'|, t)
            && (forall j :: Live(log', |log'|, j) <==> Live(log, |log|, j))
  {
    var r := End(t, prev);
    AppendStable(log, r);
    assert CanAppend(log + [r], |log|);
    LegalAppend(log, r);
    ActiveAfter(log + [r], |log|, t);
    OthersKeepLive(log + [r], |log|);
  }

  /** Following a compensation record does not change what an entry stands for. */
  lemma SkipClr(log: Log, t: nat, d: TxnData)
    requires Legal(log) && Tracks(log, t, d) && log[d.undoNext].Clr?
    ensures log[d.undoNext].tid == t && log[d.undoNext].undoNext < d.undoNext
    ensures log[log[d.undoNext].undoNext].tid == t
    ensures Tracks(log, t, d.(undoNext := log[d.undoNext].undoNext))
  {
    FirstIsBegin(log);
    PointerFacts(log, t, d.undoNext);
  }

  /** Applying the newest record of a page to an up-to-date store. */
  lemma ApplyNewest(log: Log, r: Rec, m: Store)
    requires UpToDate(log, m) && (r.Update? || r.Clr?)
    ensures UpToDate(log + [r], m[r.pg := Page(|log|, r.redo)])
  {
    PrefixStable(log, log + [r], |log|);
  }

  lemma ApplyNone(log: Log, r: Rec, m: Store)
    requires UpToDate(log, m) && !r.Update? && !r.Clr?
    ensures UpToDate(log + [r], m)
  {
    PrefixStable(log, log + [r], |log|);
  }

  // ---------------------------------------------------------------- a log to point at

  /** The first transaction makes the root page, page 0, and commits; the second has written
      the page and goes on. */
  const SAMPLE: Log := [Begin(1), Update(1, 0, 0, [], [0]), Commit(1, 1), End(1, 2), Begin(2), Update(2, 4, 0, [0], [1])]

  /** The record that takes the second write back. */
  const SAMPLE_CLR: Rec := Clr(2, 5, 0, 4, [0])

  lemma SampleFirst()
    ensures CanAppend(SAMPLE, 0) && CanAppend(SAMPLE, 1) && CanAppend(SAMPLE, 2) && CanAppend(SAMPLE, 3)
    ensures LastOf(SAMPLE, 4, 1) == 3 && LastOf(SAMPLE, 4, 2) == -1 && Committed(SAMPLE, 5, 1)
  {
    var log := SAMPLE;
    assert LastOf(log, 0, 1) == -1 && LastOf(log, 1, 1) == 0 && LastOf(log, 2, 1) == 1 && LastOf(log, 3, 1) == 2;
    assert LastOf(log, 0, 2) == -1 && LastOf(log, 1, 2) == -1 && LastOf(log, 2, 2) == -1 && LastOf(log, 3, 2) == -1;
    assert LastWrite(log, 1, 0) == -1 by { assert LastWrite(log, 0, 0) == -1; }
    assert CanAppend(log, 0);
    assert CanAppend(log, 1);
    assert CanAppend(log, 2);
    assert log[2].Commit?;
    assert Committed(log, 3, 1);
    assert CanAppend(log, 3);
  }

  lemma SampleSecond()
    ensures CanAppend(SAMPLE, 4) && CanAppend(SAMPLE, 5)
    ensures LastWrite(SAMPLE, 5, 0) == 1
  {
    SampleFirst();
    var log := SAMPLE;
    assert LastOf(log, 5, 2) == 4;
    assert forall k :: 2 <= k < 5 ==> !Writes(log[k], 0);
    assert Writes(log[1], 0);
    assert CanAppend(log, 4);
    assert forall j :: LiveOn(log, 5, 0, j) ==> j == 1;
    assert CanAppend(log, 5);
  }

  lemma SampleLive()
    ensures Committed(SAMPLE, 6, 1) && !Committed(SAMPLE, 6, 2) && !Ended(SAMPLE, 6, 2)
    ensures forall j :: Live(SAMPLE, 6, j) <==> j == 1 || j == 5
  {
    assert SAMPLE[2].Commit?;
    assert !Compensated(SAMPLE, 6, 1) && !Compensated(SAMPLE, 6, 5);
  }

  lemma SampleRecords()
    ensures Legal(SAMPLE)
    ensures LastOf(SAMPLE, 6, 2) == 5 && LastWrite(SAMPLE, 5, 0) == 1 && LastWrite(SAMPLE, 6, 0) == 5
    ensures Committed(SAMPLE, 6, 1) && !Committed(SAMPLE, 6, 2) && !Ended(SAMPLE, 6, 2)
    ensures forall j :: Live(SAMPLE, 6, j) <==> j == 1 || j == 5
    ensures Head(SAMPLE, 6, 2) == 5
  {
    SampleFirst();
    SampleSecond();
    SampleLive();
    assert Writes(SAMPLE[5], 0);
    hide CanAppend, Live, Committed, Ended;
  }

  lemma SampleTakenBack()
    ensures Legal(SAMPLE + [SAMPLE_CLR])
    ensures forall j :: Live(SAMPLE + [SAMPLE_CLR], 7, j) <==> j == 1
    ensures Head(SAMPLE + [SAMPLE_CLR], 7, 2) == -1
    ensures LastWrite(SAMPLE + [SAMPLE_CLR], 6, 0) == 5 && LastWrite(SAMPLE + [SAMPLE_CLR], 7, 0) == 6
  {
    SampleRecords();
    AppendStable(SAMPLE, SAMPLE_CLR);
    var log := SAMPLE + [SAMPLE_CLR];
    assert CanAppend(log, 6);
    LegalAppend(SAMPLE, SAMPLE_CLR);
    ClrTakesBackOne(log, 6);
  }
}
