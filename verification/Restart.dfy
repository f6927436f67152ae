/** Restart recovery: analysis, redo and undo over the log, the pages and the disk. */
module Restart {
  import opened Wal
  import opened LogFacts
  import opened Recovery

  /** A transaction descriptor; the analysis bank owns them and the table refers to them by
      their position in the bank. */
  datatype Txn = Txn(tid: nat, data: TxnData)

  // ---------------------------------------------------------------- the dirty page table

  /** The table lets redo skip only what the pages already hold. */
  ghost predicate Covers(log: Log, n: nat, dpt: map<nat, nat>, m: Store)
    requires n <= |log|
  {
    forall k :: 0 <= k < n && (log[k].Update? || log[k].Clr?) ==>
      log[k].pg in m && (m[log[k].pg].lsn < k ==> log[k].pg in dpt && dpt[log[k].pg] <= k)
  }

  /** The table analysis builds from the start of the log: each page with its first update. */
  ghost predicate FirstUpdates(log: Log, n: nat, dpt: map<nat, nat>)
    requires n <= |log|
  {
    && (forall pg :: pg in dpt ==> dpt[pg] == FirstWrite(log, n, pg) && dpt[pg] < n)
    && (forall pg :: FirstWrite(log, n, pg) < n ==> pg in dpt)
  }

  lemma FirstUpdatesCover(log: Log, n: nat, dpt: map<nat, nat>, m: Store)
    requires n <= |log| && FirstUpdates(log, n, dpt) && StoreOk(log, n, m)
    ensures Covers(log, n, dpt, m)
  {
    forall k | 0 <= k < n && (log[k].Update? || log[k].Clr?)
      ensures log[k].pg in m && log[k].pg in dpt && dpt[log[k].pg] <= k
    {
      assert Writes(log[k], log[k].pg);
    }
  }

  /** Redo has reached record i: what lies before is in the pages, what lies ahead is either
      in the pages or covered by the table. */
  ghost predicate RedoneTo(log: Log, n: nat, i: nat, dpt: map<nat, nat>, m: Store, m0: Store)
    requires i <= n <= |log|
  {
    && m.Keys == m0.Keys
    && StoreOk(log, n, m)
    && Covers(log, n, dpt, m)
    && (forall k :: 0 <= k < i && (log[k].Update? || log[k].Clr?) ==> m[log[k].pg].lsn >= k)
    && (forall pg :: pg in m && m[pg] != m0[pg] ==> LastWrite(log, n, pg) >= 0)
  }

  /** The redo decision for one record, on the tables as the source holds them. */
  function RedoRecord(r: Rec, i: nat, dpt: map<nat, nat>, m: Store): (map<nat, nat>, Store)
    requires (r.Update? || r.Clr?) ==> r.pg in m
  {
    if (r.Update? || r.Clr?) && r.pg in dpt && i >= dpt[r.pg] then
      if m[r.pg].lsn < i then (dpt, m[r.pg := Page(i, r.redo)])
      else (dpt[r.pg := m[r.pg].lsn + 1], m)
    else (dpt, m)
  }

  lemma RedoneStep(log: Log, n: nat, i: nat, dpt: map<nat, nat>, m: Store, m0: Store)
    requires i < n <= |log| && RedoneTo(log, n, i, dpt, m, m0)
    ensures var (dpt', m') := RedoRecord(log[i], i, dpt, m); RedoneTo(log, n, i + 1, dpt', m', m0)
  {
    var r := log[i];
    if (r.Update? || r.Clr?) && r.pg in dpt && i >= dpt[r.pg] && m[r.pg].lsn < i {
      StepApplies(log, n, i, dpt, m, m0);
    } else if (r.Update? || r.Clr?) && r.pg in dpt && i >= dpt[r.pg] {
      StepRaises(log, n, i, dpt, m, m0);
    }
  }

  lemma StepApplies(log: Log, n: nat, i: nat, dpt: map<nat, nat>, m: Store, m0: Store)
    requires i < n <= |log| && RedoneTo(log, n, i, dpt, m, m0) && (log[i].Update? || log[i].Clr?)
    requires log[i].pg in m && m[log[i].pg].lsn < i
    ensures RedoneTo(log, n, i + 1, dpt, m[log[i].pg := Page(i, log[i].redo)], m0)
  {
    assert Writes(log[i], log[i].pg);
    assert LastWrite(log, n, log[i].pg) >= 0;
  }

  lemma StepRaises(log: Log, n: nat, i: nat, dpt: map<nat, nat>, m: Store, m0: Store)
    requires i < n <= |log| && RedoneTo(log, n, i, dpt, m, m0) && (log[i].Update? || log[i].Clr?)
    requires log[i].pg in m && m[log[i].pg].lsn >= i
    ensures RedoneTo(log, n, i + 1, dpt[log[i].pg := m[log[i].pg].lsn + 1], m, m0)
  {}

  lemma RedoneAll(log: Log, n: nat, dpt: map<nat, nat>, m: Store, m0: Store)
    requires n <= |log| && RedoneTo(log, n, n, dpt, m, m0) && (n > 0 ==> log[0].Begin?)
    ensures m == Replay(log, n, m0)
  {
    var all := Replay(log, n, m0);
    forall pg | pg in m
      ensures m[pg] == all[pg]
    {
      RedonePage(log, n, dpt, m, m0, pg);
    }
    assert m.Keys == m0.Keys == all.Keys;
    hide RedoneTo;
  }

  lemma RedonePage(log: Log, n: nat, dpt: map<nat, nat>, m: Store, m0: Store, pg: nat)
    requires n <= |log| && RedoneTo(log, n, n, dpt, m, m0) && (n > 0 ==> log[0].Begin?) && pg in m
    ensures m.Keys == m0.Keys
    ensures var w := LastWrite(log, n, pg); m[pg] == if w >= 0 then Page(w, log[w].redo) else m0[pg]
  {
    assert PageOk(log, n, pg, m[pg]);
  }

  /** Repeating history once is enough. */
  lemma ReplayIdempotent(log: Log, n: nat, m: Store)
    requires n <= |log|
    ensures Replay(log, n, Replay(log, n, m)) == Replay(log, n, m)
  {}

  /** The dirty page table after the records below n. */
  function DptAt(log: Log, n: nat): map<nat, nat>
    requires n <= |log|
  {
    if n == 0 then map[]
    else
      var m := DptAt(log, n - 1);
      if log[n - 1].Update? && log[n - 1].pg !in m then m[log[n - 1].pg := n - 1] else m
  }

  /** Scanning a legal log from its start records the first write of every page, although
      compensation records never enter the table. */
  lemma {:induction false} DptAtFirst(log: Log, n: nat)
    requires Legal(log) && n <= |log|
    ensures FirstUpdates(log, n, DptAt(log, n))
  {
    if n > 0 {
      DptAtFirst(log, n - 1);
      if log[n - 1].Clr? { ClrPageWritten(log, n - 1); }
      hide Legal, FirstUpdates;
      FirstUpdatesNext(log, n - 1, DptAt(log, n - 1));
    }
  }

  lemma FirstUpdatesNext(log: Log, k: nat, dpt: map<nat, nat>)
    requires k < |log| && FirstUpdates(log, k, dpt)
    requires log[k].Clr? ==> FirstWrite(log, k, log[k].pg) < k
    ensures FirstUpdates(log, k + 1, if log[k].Update? && log[k].pg !in dpt then dpt[log[k].pg := k] else dpt)
  {
    forall pg
      ensures FirstWrite(log, k + 1, pg)
           == var i := FirstWrite(log, k, pg); if i < k then i else if Writes(log[k], pg) then k else k + 1
    {}
  }

  /** The table is empty exactly when the log holds no update. */
  lemma {:induction false} DptNonEmpty(log: Log, n: nat)
    requires n <= |log|
    ensures DptAt(log, n) != map[] <==> exists k :: 0 <= k < n && log[k].Update?
  {
    if n > 0 {
      DptNonEmpty(log, n - 1);
      if DptAt(log, n - 1) != map[] {
        var k :| 0 <= k < n - 1 && log[k].Update?;
        var pg :| pg in DptAt(log, n - 1);
        assert pg in DptAt(log, n);
      } else if log[n - 1].Update? {
        assert log[n - 1].pg in DptAt(log, n);
      }
    }
  }

  lemma ClrPageWritten(log: Log, k: nat)
    requires Legal(log) && k < |log| && log[k].Clr?
    ensures FirstWrite(log, k, log[k].pg) < k
  {
    assert CanAppend(log, k);
    assert Writes(log[Head(log, k, log[k].tid)], log[k].pg);
  }

  // ---------------------------------------------------------------- the transaction table

  /** What a record does to the entry of its transaction. */
  function Apply(d: TxnData, r: Rec, i: nat): TxnData {
    match r
    case Update(_, _, _, _, _) => d.(last := i, undoNext := i)
    case Clr(_, _, _, next, _) => d.(last := i, undoNext := next)
    case Commit(_, _) => d.(last := i, state := TxCommitted)
    case _ => d
  }

  /** The table after one more record.  The code inserts a fresh entry only for a transaction
      it has not met, yet always updates the fresh one (lookup false); the comments beside it
      say the table's entry is updated (lookup true). */
  function AttStep(att: map<nat, TxnData>, r: Rec, i: nat, lookup: bool): map<nat, TxnData> {
    if r.End? then att - {r.tid}
    else if r.tid !in att then att[r.tid := Apply(TxnData(i, r.PrevLsn(), CandidateForUndo), r, i)]
    else if lookup then att[r.tid := Apply(att[r.tid], r, i)]
    else att
  }

  function AttAt(log: Log, n: nat, lookup: bool): map<nat, TxnData>
    requires n <= |log|
  {
    if n == 0 then map[] else AttStep(AttAt(log, n - 1, lookup), log[n - 1], n - 1, lookup)
  }

  /** Either way the table holds the transactions that have begun and not ended. */
  lemma {:induction false} AttDomain(log: Log, n: nat, lookup: bool)
    requires Legal(log) && n <= |log|
    ensures forall t :: t in AttAt(log, n, lookup) <==> LastOf(log, n, t) >= 0 && !Ended(log, n, t)
  {
    if n > 0 {
      var k := n - 1;
      AttDomain(log, k, lookup);
      assert CanAppend(log, k);
      forall t
        ensures t in AttAt(log, n, lookup) <==> LastOf(log, n, t) >= 0 && !Ended(log, n, t)
      {
        assert Ended(log, n, t) <==> Ended(log, k, t) || (log[k].End? && log[k].tid == t);
      }
    }
  }

  /** Updated in the table, an entry says what the log says of its transaction. */
  lemma {:induction false} AttScanned(log: Log, n: nat)
    requires Legal(log) && n <= |log|
    ensures forall t :: t in AttAt(log, n, true) ==> Scanned(log, n, t, AttAt(log, n, true)[t])
  {
    if n > 0 {
      var k := n - 1;
      AttScanned(log, k);
      AttDomain(log, k, true);
      assert CanAppend(log, k);
      hide Legal, CanAppend, Scanned, AttStep, Ended;
      forall t | t in AttAt(log, n, true)
        ensures Scanned(log, n, t, AttAt(log, n, true)[t])
      {
        ScannedStep(log, k, AttAt(log, k, true), t);
      }
    }
  }

  lemma ScannedStep(log: Log, k: nat, att: map<nat, TxnData>, t: nat)
    requires k < |log| && CanAppend(log, k)
    requires t in att <==> LastOf(log, k, t) >= 0 && !Ended(log, k, t)
    requires t in att ==> Scanned(log, k, t, att[t])
    ensures var att' := AttStep(att, log[k], k, true); t in att' ==> Scanned(log, k + 1, t, att'[t])
  {
    if log[k].tid == t {
      if t in att {
        EntryApplied(log, k, t, att[t]);
      } else if !log[k].End? {
        assert log[k].Begin?;
        assert !Committed(log, k + 1, t);
      }
    } else {
      assert Committed(log, k + 1, t) <==> Committed(log, k, t);
    }
  }

  lemma EntryApplied(log: Log, k: nat, t: nat, d: TxnData)
    requires k < |log| && CanAppend(log, k) && log[k].tid == t && Scanned(log, k, t, d)
    ensures !log[k].End? ==> Scanned(log, k + 1, t, Apply(d, log[k], k))
  {
    assert Committed(log, k + 1, t) <==> Committed(log, k, t) || log[k].Commit?;
  }

  /** As coded, every entry still reads as its transaction's begin record left it. */
  lemma {:induction false} AttCoded(log: Log, n: nat)
    requires Legal(log) && n <= |log|
    ensures forall t :: t in AttAt(log, n, false) ==>
              AttAt(log, n, false)[t].state == CandidateForUndo && AttAt(log, n, false)[t].undoNext == 0
  {
    if n > 0 {
      AttCoded(log, n - 1);
      AttDomain(log, n - 1, false);
      assert CanAppend(log, n - 1);
    }
  }

  /** The entry of t after the records below n, when it is updated in the table. */
  ghost predicate Scanned(log: Log, n: nat, t: nat, d: TxnData)
    requires n <= |log|
  {
    var l := LastOf(log, n, t);
    && l >= 0
    && d.last == l
    && (d.state == TxCommitted <==> Committed(log, n, t))
    && (d.state == TxCommitted || d.state == CandidateForUndo)
    && (d.state == CandidateForUndo ==>
          d.undoNext == match log[l]
                        case Update(_, _, _, _, _) => l
                        case Clr(_, _, _, next, _) => next
                        case _ => 0)
  }

  lemma ScannedTracks(log: Log, t: nat, d: TxnData)
    requires Legal(log) && Scanned(log, |log|, t, d) && d.state == CandidateForUndo
    requires !Ended(log, |log|, t)
    ensures Tracks(log, t, d)
    ensures d.undoNext > 0 ==> log[d.undoNext].tid == t
    ensures d.undoNext == 0 ==> Head(log, |log|, t) == -1
  {
    FirstIsBegin(log);
    ResolveLast(log, |log|, t);
    PointerFacts(log, t, LastOf(log, |log|, t));
  }

  // ---------------------------------------------------------------- the end of analysis

  /** Entries that analysis closes with an end record of its own. */
  predicate Finished(d: TxnData) {
    (d.state == CandidateForUndo && d.undoNext == 0) || d.state == TxCommitted
  }

  function Unfinished(att: map<nat, TxnData>): map<nat, TxnData> {
    map t | t in att && !Finished(att[t]) :: att[t]
  }

  /** ends holds one end record for each finished entry of att that is not in todo. */
  ghost predicate EndsOf(ends: seq<Rec>, att: map<nat, TxnData>, todo: set<nat>) {
    && (forall k :: 0 <= k < |ends| ==>
          ends[k].End? && ends[k].tid in att && ends[k].tid !in todo
          && Finished(att[ends[k].tid]) && ends[k].prev == att[ends[k].tid].last)
    && (forall k, l :: 0 <= k < l < |ends| ==> ends[k].tid != ends[l].tid)
    && (forall t :: t in att && t !in todo && Finished(att[t]) ==> exists k :: 0 <= k < |ends| && ends[k].tid == t)
  }

  lemma EndsOfStep(ends: seq<Rec>, att: map<nat, TxnData>, todo: set<nat>, t: nat)
    requires EndsOf(ends, att, todo) && t in todo && t in att
    ensures EndsOf(if Finished(att[t]) then ends + [End(t, att[t].last)] else ends, att, todo - {t})
  {
    var more := if Finished(att[t]) then ends + [End(t, att[t].last)] else ends;
    forall u | u in att && u !in todo - {t} && Finished(att[u])
      ensures exists k :: 0 <= k < |more| && more[k].tid == u
    {
      if u == t {
        assert more[|ends|].tid == u;
      } else {
        var k :| 0 <= k < |ends| && ends[k].tid == u;
        assert more[k].tid == u;
      }
    }
  }

  /** End records of other transactions leave an entry in agreement with the log. */
  lemma {:induction false} TracksPastEnds(log: Log, ends: seq<Rec>, t: nat, d: TxnData)
    requires Legal(log) && Legal(log + ends) && Tracks(log, t, d)
    requires forall k :: 0 <= k < |ends| ==> ends[k].tid != t
    ensures Tracks(log + ends, t, d)
    decreases |ends|
  {
    if ends == [] {
      assert log + ends == log;
    } else {
      var m := |ends| - 1;
      assert log + ends == (log + ends[..m]) + [ends[m]];
      LegalPrefix(log + ends, log + ends[..m], |log| + m);
      TracksPastEnds(log, ends[..m], t, d);
      TracksOther(log + ends[..m], ends[m], t, d);
    }
  }

  /** End records take nothing back. */
  lemma HeadPastEnds(log: Log, ends: seq<Rec>, t: nat)
    requires forall k :: 0 <= k < |ends| ==> ends[k].End?
    ensures Head(log + ends, |log + ends|, t) == Head(log, |log|, t)
  {
    var all := log + ends;
    forall i | |log| <= i < |all|
      ensures all[i].End?
    {
      assert all[i] == ends[i - |log|];
    }
    PrefixStable(log, all, |log|);
    forall j
      ensures Live(all, |all|, j) <==> Live(all, |log|, j)
    {
      if 0 <= j < |log| { assert Compensated(all, |all|, j) <==> Compensated(all, |log|, j); }
    }
    var a, b := Head(all, |all|, t), Head(log, |log|, t);
  }

  /** End records may follow a legal log if each is the first of its transaction, which has
      committed or has nothing left to undo. */
  lemma {:induction false} EndsMayFollow(log: Log, ends: seq<Rec>)
    requires Legal(log)
    requires forall k :: 0 <= k < |ends| ==> ends[k].End? && MayEnd(log, ends[k].tid)
    requires forall k, l :: 0 <= k < l < |ends| ==> ends[k].tid != ends[l].tid
    ensures Legal(log + ends)
    decreases |ends|
  {
    if ends == [] {
      assert log + ends == log;
    } else {
      var m := |ends| - 1;
      var r, before := ends[m], log + ends[..m];
      EndsMayFollow(log, ends[..m]);
      assert log + ends == before + [r];
      AppendStable(before, r);
      NotEndedIn(log, ends[..m], r.tid);
      HeadPastEnds(log, ends[..m], r.tid);
      EndsCommitNone(log, ends[..m], r.tid);
      hide Legal, Head, Committed, Ended;
      assert CanAppend(before + [r], |before|);
      LegalAppend(before, r);
    }
  }

  ghost predicate MayEnd(log: Log, t: nat) {
    && LastOf(log, |log|, t) >= 0 && !Ended(log, |log|, t)
    && (Committed(log, |log|, t) || Head(log, |log|, t) == -1)
  }

  lemma EndsCommitNone(log: Log, ends: seq<Rec>, t: nat)
    requires forall k :: 0 <= k < |ends| ==> ends[k].End?
    ensures Committed(log + ends, |log + ends|, t) <==> Committed(log, |log|, t)
  {
    var all := log + ends;
    forall i | |log| <= i < |all|
      ensures !all[i].Commit?
    {
      assert all[i] == ends[i - |log|];
    }
    assert forall i :: 0 <= i < |log| ==> all[i] == log[i];
  }

  /** The end records of analysis may follow a legal log, when the table says what the log
      says. */
  lemma EndsAreLegal(log: Log, ends: seq<Rec>, att: map<nat, TxnData>, todo: set<nat>)
    requires Legal(log)
    requires forall t :: t in att ==> Scanned(log, |log|, t, att[t]) && !Ended(log, |log|, t)
    requires forall k :: 0 <= k < |ends| ==> ends[k].End? && ends[k].tid in att && Finished(att[ends[k].tid])
    requires forall k, l :: 0 <= k < l < |ends| ==> ends[k].tid != ends[l].tid
    ensures Legal(log + ends)
  {
    forall k | 0 <= k < |ends|
      ensures MayEnd(log, ends[k].tid)
    {
      var t := ends[k].tid;
      assert Scanned(log, |log|, t, att[t]);
      if att[t].state == CandidateForUndo { ScannedTracks(log, t, att[t]); }
    }
    EndsMayFollow(log, ends);
  }

  lemma EndedBy(log: Log, ends: seq<Rec>, t: nat)
    ensures Ended(log + ends, |log + ends|, t) <==>
              Ended(log, |log|, t) || exists k :: 0 <= k < |ends| && ends[k].End? && ends[k].tid == t
  {
    var all := log + ends;
    assert forall i :: 0 <= i < |log| ==> all[i] == log[i];
    assert forall k :: 0 <= k < |ends| ==> all[|log| + k] == ends[k];
    if i :| 0 <= i < |all| && all[i].End? && all[i].tid == t && |log| <= i {
      assert ends[i - |log|].End?;
    }
  }

  lemma NotEndedIn(log: Log, ends: seq<Rec>, t: nat)
    requires !Ended(log, |log|, t) && forall k :: 0 <= k < |ends| ==> ends[k].tid != t
    ensures !Ended(log + ends, |log + ends|, t)
    ensures LastOf(log + ends, |log + ends|, t) == LastOf(log, |log|, t)
  {
    forall i | |log| <= i < |log + ends|
      ensures (log + ends)[i].tid != t
    {
      assert (log + ends)[i] == ends[i - |log|];
    }
    PrefixStable(log, log + ends, |log|);
    var a, b := LastOf(log + ends, |log + ends|, t), LastOf(log, |log|, t);
  }

  /** The entry of a transaction still to be undone: it is unfinished, and its undo pointer is
      one of its own records. */
  ghost predicate UndoEntry(log: Log, t: nat, d: TxnData) {
    d.state == CandidateForUndo && Tracks(log, t, d) && log[d.undoNext].tid == t
  }

  /** The undo table holds exactly the unfinished transactions. */
  ghost predicate UndoTable(log: Log, att: map<nat, TxnData>) {
    && (forall t :: t in att ==> UndoEntry(log, t, att[t]))
    && (forall t :: Active(log, |log|, t) ==> t in att)
  }

  /** The lemma that lets undo start: with every finished entry closed and dropped, what
      analysis leaves in the table is an undo table. */
  lemma AnalysisLeavesUndoTable(log: Log, ends: seq<Rec>, att: map<nat, TxnData>)
    requires Legal(log) && att == AttAt(log, |log|, true) && EndsOf(ends, att, {})
    ensures Legal(log + ends) && UndoTable(log + ends, Unfinished(att))
  {
    AttScanned(log, |log|);
    AttDomain(log, |log|, true);
    EndsAreLegal(log, ends, att, {});
    var log' := log + ends;
    forall t | t in Unfinished(att)
      ensures UndoEntry(log', t, Unfinished(att)[t])
    {
      ScannedTracks(log, t, att[t]);
      TracksPastEnds(log, ends, t, att[t]);
    }
    forall t | Active(log', |log'|, t)
      ensures t in Unfinished(att)
    {
      EndedBy(log, ends, t);
      if t !in att {
        NotEndedIn(log, ends, t);
      }
    }
  }

  /** A page on which an unfinished transaction has a live update. */
  ghost predicate HasLoser(log: Log, n: nat, pg: nat)
    requires n <= |log|
  {
    exists j :: LiveOn(log, n, pg, j) && !Committed(log, n, log[j].tid)
  }

  // ---------------------------------------------------------------- undo

  /** The log of an undo in progress since record n0: only compensation and end records have
      been added and no update has come to life. */
  ghost predicate UndoLog(log: Log, n0: nat) {
    && n0 <= |log|
    && Legal(log)
    && (forall k :: n0 <= k < |log| ==> log[k].Clr? || log[k].End?)
    && (forall j :: Live(log, |log|, j) ==> Live(log, n0, j))
  }

  /** The pages follow the log, and only pages holding a live update of an unfinished
      transaction have changed. */
  ghost predicate UndoPages(log: Log, n0: nat, m: Store, m0: Store)
    requires n0 <= |log|
  {
    && m.Keys == m0.Keys
    && UpToDate(log, m)
    && (forall pg :: pg in m && m[pg] != m0[pg] ==> HasLoser(log, n0, pg))
  }

  ghost predicate Undoing(log: Log, n0: nat, att: map<nat, TxnData>, m: Store, m0: Store) {
    UndoLog(log, n0) && UndoTable(log, att) && UndoPages(log, n0, m, m0)
  }

  /** One round of undo for the unfinished transaction t. */
  function UndoRound(log: Log, t: nat, att: map<nat, TxnData>, m: Store): (Log, map<nat, TxnData>, Store)
    requires t in att && att[t].undoNext < |log|
  {
    var d := att[t];
    var u := d.undoNext;
    match log[u]
    case Update(_, prev, pg, undo, _) =>
      (log + [ClrFor(log, u, d.last)],
       att[t := d.(last := |log|, undoNext := prev)],
       m[pg := Page(|log|, undo)])
    case Clr(_, _, _, next, _) =>
      (log, att[t := d.(undoNext := next)], m)
    case _ =>
      (log + [End(t, u)], att - {t}, m)
  }

  /** A round keeps undo going and moves only its own transaction, down or out. */
  lemma UndoRoundKeeps(log: Log, n0: nat, t: nat, att: map<nat, TxnData>, m: Store, m0: Store)
    requires Undoing(log, n0, att, m, m0) && t in att
    requires log[att[t].undoNext].Update? ==> log[att[t].undoNext].pg in m
    ensures var (log', att', m') := UndoRound(log, t, att, m);
            && Undoing(log', n0, att', m', m0)
            && (forall u :: u in att' && u != t ==> u in att && att'[u] == att[u])
            && (t in att' ==> att'[t].undoNext < att[t].undoNext)
  {
    assert UndoEntry(log, t, att[t]);
    PointerFacts(log, t, att[t].undoNext);
    RoundMovesOne(log, t, att, m);
    hide UndoLog, UndoTable, UndoPages, UndoEntry, PageOk, Legal, UndoRound;
    match log[att[t].undoNext]
    case Update(_, _, _, _, _) => RoundUpdate(log, n0, t, att, m, m0);
    case Clr(_, _, _, _, _) => RoundClr(log, n0, t, att, m, m0);
    case _ => RoundBegin(log, n0, t, att, m, m0);
  }

  /** Every undo pointer is to a record of its own transaction, so no two are equal. */
  lemma OwnPointers(log: Log, att: map<nat, TxnData>)
    requires UndoTable(log, att)
    ensures forall t :: t in att ==> att[t].undoNext < |log| && log[att[t].undoNext].tid == t
  {
    forall t | t in att
      ensures att[t].undoNext < |log| && log[att[t].undoNext].tid == t
    {
      assert UndoEntry(log, t, att[t]);
    }
  }

  /** A round for the greatest undo pointer leaves only lesser ones. */
  lemma RoundFalls(log: Log, n0: nat, t: nat, att: map<nat, TxnData>, m: Store, m0: Store)
    requires Undoing(log, n0, att, m, m0) && t in att && att[t].undoNext < |log|
    requires log[att[t].undoNext].Update? ==> log[att[t].undoNext].pg in m
    requires forall u :: u in att ==> att[u].undoNext <= att[t].undoNext
    ensures var (log', att', m') := UndoRound(log, t, att, m);
            && Undoing(log', n0, att', m', m0)
            && forall u :: u in att' ==> att'[u].undoNext < att[t].undoNext
  {
    hide UndoLog, UndoTable, UndoPages;
    OwnPointers(log, att);
    UndoRoundKeeps(log, n0, t, att, m, m0);
  }

  /** What the greatest undo pointer may lead to. */
  lemma NextToUndo(log: Log, n: nat, t: nat, att: map<nat, TxnData>, m: Store)
    requires Legal(log) && UndoTable(log, att) && t in att && n <= |log| && StoreOk(log, n, m)
    ensures att[t].undoNext < |log| && log[att[t].undoNext].tid == t
    ensures var r := log[att[t].undoNext]; (r.Begin? || r.Update? || r.Clr?) && (r.Update? ==> r.pg in m)
  {
    assert UndoEntry(log, t, att[t]);
    PointerFacts(log, t, att[t].undoNext);
  }

  /** The same of a table that undo may start from. */
  lemma UndoFalls(log: Log, t: nat, att: map<nat, TxnData>, m: Store)
    requires Legal(log) && UpToDate(log, m) && UndoTable(log, att) && t in att && att[t].undoNext < |log|
    requires log[att[t].undoNext].Update? ==> log[att[t].undoNext].pg in m
    requires forall u :: u in att ==> att[u].undoNext <= att[t].undoNext
    ensures forall u :: u in UndoRound(log, t, att, m).1 ==> UndoRound(log, t, att, m).1[u].undoNext < att[t].undoNext
  {
    hide UndoRound, UpToDate, UndoTable;
    RoundFalls(log, |log|, t, att, m, m);
  }

  lemma RoundMovesOne(log: Log, t: nat, att: map<nat, TxnData>, m: Store)
    requires t in att && att[t].undoNext < |log|
    ensures var (log', att', m') := UndoRound(log, t, att, m);
            && (forall u :: u in att' && u != t ==> u in att && att'[u] == att[u])
            && (!log[att[t].undoNext].Update? && !log[att[t].undoNext].Clr? ==> t !in att')
  {}

  lemma RoundUpdate(log: Log, n0: nat, t: nat, att: map<nat, TxnData>, m: Store, m0: Store)
    requires Undoing(log, n0, att, m, m0) && t in att && UndoEntry(log, t, att[t])
    requires log[att[t].undoNext].Update? && log[att[t].undoNext].pg in m
    ensures var (log', att', m') := UndoRound(log, t, att, m);
            Undoing(log', n0, att', m', m0) && att'[t].undoNext < att[t].undoNext
  {
    var d := att[t];
    var r := ClrFor(log, d.undoNext, d.last);
    var (log', att', m') := UndoRound(log, t, att, m);
    AppendClr(log, t, d);
    UndoLogAfter(log, n0, r);
    assert UndoEntry(log', t, att'[t]);
    UndoTableAfter(log, r, t, att, att');
    assert LiveOn(log, |log|, r.pg, d.undoNext);
    LoserAtStart(log, n0, r.pg, d.undoNext);
    PagesAfterClr(log, n0, r, m, m0);
  }

  lemma RoundClr(log: Log, n0: nat, t: nat, att: map<nat, TxnData>, m: Store, m0: Store)
    requires Undoing(log, n0, att, m, m0) && t in att && UndoEntry(log, t, att[t])
    requires log[att[t].undoNext].Clr?
    ensures var (log', att', m') := UndoRound(log, t, att, m);
            Undoing(log', n0, att', m', m0) && att'[t].undoNext < att[t].undoNext
  {
    var (log', att', m') := UndoRound(log, t, att, m);
    SkipClr(log, t, att[t]);
    assert UndoEntry(log, t, att'[t]);
  }

  lemma RoundBegin(log: Log, n0: nat, t: nat, att: map<nat, TxnData>, m: Store, m0: Store)
    requires Undoing(log, n0, att, m, m0) && t in att && UndoEntry(log, t, att[t])
    requires log[att[t].undoNext].Begin?
    ensures var (log', att', m') := UndoRound(log, t, att, m); Undoing(log', n0, att', m', m0)
  {
    var r := End(t, att[t].undoNext);
    var (log', att', m') := UndoRound(log, t, att, m);
    AppendEnd(log, t, att[t].undoNext);
    UndoLogAfter(log, n0, r);
    UndoTableAfter(log, r, t, att, att');
    PagesAfterEnd(log, n0, r, m, m0);
  }

  lemma UndoLogAfter(log: Log, n0: nat, r: Rec)
    requires UndoLog(log, n0) && Legal(log + [r]) && (r.Clr? || r.End?)
    ensures UndoLog(log + [r], n0)
  {
    var log' := log + [r];
    PrefixStable(log, log', n0);
    PrefixStable(log, log', |log|);
    if r.Clr? { ClrTakesBackOne(log', |log|); } else { OthersKeepLive(log', |log|); }
  }

  /** A live update of an unfinished transaction was one when undo started. */
  lemma LoserAtStart(log: Log, n0: nat, pg: nat, j: nat)
    requires UndoLog(log, n0) && LiveOn(log, |log|, pg, j) && !Committed(log, |log|, log[j].tid)
    ensures HasLoser(log, n0, pg)
  {
    assert Live(log, n0, j);
    assert LiveOn(log, n0, pg, j) && !Committed(log, n0, log[j].tid);
  }

  lemma PagesAfterClr(log: Log, n0: nat, r: Rec, m: Store, m0: Store)
    requires n0 <= |log| && UndoPages(log, n0, m, m0) && r.Clr? && r.pg in m && HasLoser(log, n0, r.pg)
    ensures UndoPages(log + [r], n0, m[r.pg := Page(|log|, r.redo)], m0)
  {
    ApplyNewest(log, r, m);
    LoserPages(log, log + [r], n0);
  }

  lemma PagesAfterEnd(log: Log, n0: nat, r: Rec, m: Store, m0: Store)
    requires n0 <= |log| && UndoPages(log, n0, m, m0) && r.End?
    ensures UndoPages(log + [r], n0, m, m0)
  {
    ApplyNone(log, r, m);
    LoserPages(log, log + [r], n0);
  }

  lemma LoserPages(log: Log, log': Log, n: nat)
    requires SamePrefix(log, log', n)
    ensures forall pg :: HasLoser(log, n, pg) ==> HasLoser(log', n, pg)
  {
    PrefixStable(log, log', n);
    forall pg | HasLoser(log, n, pg)
      ensures HasLoser(log', n, pg)
    {
      var j :| LiveOn(log, n, pg, j) && !Committed(log, n, log[j].tid);
      assert LiveOn(log', n, pg, j) && !Committed(log', n, log'[j].tid);
    }
  }

  /** A record of t leaves the entries of every other transaction in agreement. */
  lemma UndoTableAfter(log: Log, r: Rec, t: nat, att: map<nat, TxnData>, att': map<nat, TxnData>)
    requires Legal(log) && Legal(log + [r]) && r.tid == t && UndoTable(log, att)
    requires forall u :: u != t ==> (u in att <==> u in att') && (u in att ==> att'[u] == att[u])
    requires t in att' ==> UndoEntry(log + [r], t, att'[t])
    requires t !in att' ==> !Active(log + [r], |log| + 1, t)
    ensures UndoTable(log + [r], att')
  {
    var log' := log + [r];
    forall u | u in att'
      ensures UndoEntry(log', u, att'[u])
    {
      if u != t {
        assert UndoEntry(log, u, att[u]);
        TracksOther(log, r, u, att[u]);
      }
    }
    forall u | Active(log', |log'|, u)
      ensures u in att'
    {
      if u != t {
        AppendStable(log, r);
        ActiveAfter(log', |log|, u);
      }
    }
  }

  // ---------------------------------------------------------------- after undo

  lemma EndedNotLive(log: Log, n: nat, j: int)
    requires Legal(log) && n <= |log| && Live(log, n, j) && Ended(log, n, log[j].tid)
    ensures Committed(log, n, log[j].tid)
  {
    var t := log[j].tid;
    var i :| 0 <= i < n && log[i].End? && log[i].tid == t;
    assert CanAppend(log, i) && CanAppend(log, j);
    assert j < i by { assert !Ended(log, j, t); }
    assert !Compensated(log, n, j);
    assert Live(log, i, j);
  }

  /** With no unfinished transaction left, an up-to-date store holds what is owed. */
  lemma AllFinished(log: Log, n: nat, m: Store)
    requires Legal(log) && n <= |log| && UpToDate(log, m)
    requires forall t :: !Active(log, |log|, t)
    requires forall k :: n <= k < |log| ==> !log[k].Commit?
    ensures forall pg :: pg in m && LastWrite(log, n, pg) >= 0 ==>
              m[pg].image == CommittedImage(log, n, pg)
  {
    forall pg | pg in m && LastWrite(log, n, pg) >= 0
      ensures m[pg].image == CommittedImage(log, n, pg)
    {
      WritesAccumulate(log, n, |log|, pg);
      forall j | LiveOn(log, |log|, pg, j)
        ensures Committed(log, |log|, log[j].tid)
      {
        assert LastOf(log, |log|, log[j].tid) >= j;
        assert !Active(log, |log|, log[j].tid);
        if Ended(log, |log|, log[j].tid) { EndedNotLive(log, |log|, j); }
      }
      NothingLeftToUndo(log, |log|, pg);
      OwedUnchanged(log, n, |log|, pg);
    }
  }

  // ---------------------------------------------------------------- whole restarts

  /** The end records of analysis hide nothing from redo. */
  lemma CoverPastEnds(log: Log, ends: seq<Rec>, n: nat, m: Store)
    requires Legal(log) && StoreOk(log, |log|, m) && |log| <= n <= |log + ends|
    requires forall k :: 0 <= k < |ends| ==> ends[k].End?
    ensures Covers(log + ends, n, DptAt(log, |log|), m)
    ensures forall pg :: pg in DptAt(log, |log|) ==> 0 < DptAt(log, |log|)[pg] < |log|
  {
    DptAtFirst(log, |log|);
    if |log| > 0 { FirstIsBegin(log); }
    assert forall k :: |log| <= k < |log + ends| ==> (log + ends)[k] == ends[k - |log|];
    FirstUpdatesPastEnds(log, log + ends, n, DptAt(log, |log|), m);
  }

  lemma FirstUpdatesPastEnds(log0: Log, log: Log, n: nat, dpt: map<nat, nat>, m: Store)
    requires |log0| <= n <= |log| && SamePrefix(log0, log, |log0|)
    requires forall k :: |log0| <= k < |log| ==> log[k].End?
    requires FirstUpdates(log0, |log0|, dpt) && (|log0| > 0 ==> log0[0].Begin?)
    requires forall k :: 0 <= k < |log0| && (log0[k].Update? || log0[k].Clr?) ==> log0[k].pg in m
    ensures Covers(log, n, dpt, m)
    ensures forall pg :: pg in dpt ==> 0 < dpt[pg] < |log0|
  {
    forall k | 0 <= k < n && (log[k].Update? || log[k].Clr?)
      ensures log[k].pg in m && log[k].pg in dpt && dpt[log[k].pg] <= k
    {
      assert k < |log0| && Writes(log0[k], log[k].pg);
    }
  }

  lemma ReplayPastEnds(log: Log, ends: seq<Rec>, n: nat, m: Store)
    requires |log| <= n <= |log + ends|
    requires forall k :: 0 <= k < |ends| ==> ends[k].End?
    ensures Replay(log + ends, n, m) == Replay(log, |log|, m)
    ensures UpToDate(log + ends, Replay(log, |log|, m))
  {
    var all := log + ends;
    forall pg
      ensures LastWrite(all, n, pg) == LastWrite(log, |log|, pg) == LastWrite(all, |all|, pg)
    {
      assert forall k :: |log| <= k < |all| ==> all[k] == ends[k - |log|];
      PrefixStable(all, log, |log|);
    }
  }

  /** A legal log ends each transaction at most once. */
  lemma OneEnd(log: Log, i: nat, j: nat)
    requires Legal(log) && i < j < |log| && log[i].End? && log[j].End?
    ensures log[i].tid != log[j].tid
  {
    assert CanAppend(log, j);
  }

  /** When restart has emptied the undo table, every transaction of the log it found has an
      end record. */
  lemma EveryoneEnded(log0: Log, ends: seq<Rec>, log: Log, t: nat)
    requires Legal(log0) && log0 + ends <= log && EndsOf(ends, AttAt(log0, |log0|, true), {})
    requires LastOf(log0, |log0|, t) >= 0 && !Active(log, |log|, t)
    requires forall k :: |log0| <= k < |log| ==> !log[k].Commit?
    ensures Ended(log, |log|, t)
  {
    AttDomain(log0, |log0|, true);
    AttScanned(log0, |log0|);
    PrefixStable(log0, log, |log0|);
    PrefixStable(log0 + ends, log, |log0 + ends|);
    EndedBy(log0, ends, t);
    if !Ended(log0, |log0|, t) {
      var att := AttAt(log0, |log0|, true);
      assert Scanned(log0, |log0|, t, att[t]);
      if Finished(att[t]) {
        var k :| 0 <= k < |ends| && ends[k].tid == t;
        assert Ended(log0 + ends, |log0 + ends|, t);
      }
    }
  }

  lemma LosersPastEnds(log: Log, ends: seq<Rec>, pg: nat)
    requires forall k :: 0 <= k < |ends| ==> ends[k].End?
    requires HasLoser(log + ends, |log + ends|, pg)
    ensures HasLoser(log, |log|, pg)
  {
    var all := log + ends;
    assert forall k :: |log| <= k < |all| ==> all[k] == ends[k - |log|];
    var j :| LiveOn(all, |all|, pg, j) && !Committed(all, |all|, all[j].tid);
    PrefixStable(log, all, |log|);
    assert !Compensated(all, |log|, j);
    assert LiveOn(log, |log|, pg, j) && !Committed(log, |log|, log[j].tid);
  }

  // ---------------------------------------------------------------- restart as coded

  /** The oldest live update of an unfinished transaction on a page. */
  ghost predicate OldestLoser(log: Log, n: nat, pg: nat, o: int)
    requires n <= |log|
  {
    && LiveOn(log, n, pg, o) && !Committed(log, n, log[o].tid)
    && forall i :: LiveOn(log, n, pg, i) && i < o ==> Committed(log, n, log[i].tid)
  }

  /** The undo image of the oldest live update of an unfinished transaction is what recovery
      owes for the page. */
  lemma OwedIsOldestUndo(log: Log, n: nat, pg: nat, o: nat)
    requires Legal(log) && n <= |log| && OldestLoser(log, n, pg, o)
    ensures log[o].undo == CommittedImage(log, n, pg)
  {
    UndoImage(log, n, pg, o);
    var j := SurvivorBelow(log, n, pg, n);
    if j > o {
      IsolatedOn(log, n, pg, o, j);
      assert false;
    }
    var b := TopBelow(log, n, pg, o);
    assert j == b;
  }

  /** When the last image of a page is owed although an unfinished transaction wrote it: its
      live updates, taken together, changed nothing. */
  ghost predicate LosersCancelOut(log: Log, n: nat, pg: nat)
    requires n <= |log|
  {
    LastWrite(log, n, pg) >= 0 ==>
      forall o :: OldestLoser(log, n, pg, o) ==> log[o].undo == log[LastWrite(log, n, pg)].redo
  }

  /** What the analysis as coded costs.  It leaves every page as last logged, which is right
      exactly for the pages on which the unfinished transactions' live updates cancel out. */
  lemma AsCodedIsRightIff(log: Log, n: nat, pg: nat)
    requires Legal(log) && n <= |log| && LastWrite(log, n, pg) >= 0
    ensures log[LastWrite(log, n, pg)].redo == CommittedImage(log, n, pg) <==> LosersCancelOut(log, n, pg)
  {
    if HasLoser(log, n, pg) {
      var o := FindOldest(log, n, pg);
      OwedIsOldestUndo(log, n, pg, o);
      forall p | OldestLoser(log, n, pg, p)
        ensures p == o
      {
        OneOldest(log, n, pg, o, p);
      }
    } else {
      NothingLeftToUndo(log, n, pg);
    }
  }

  lemma OneOldest(log: Log, n: nat, pg: nat, o: nat, p: int)
    requires n <= |log| && OldestLoser(log, n, pg, o) && OldestLoser(log, n, pg, p)
    ensures p == o
  {}

  lemma FindOldest(log: Log, n: nat, pg: nat) returns (o: nat)
    requires n <= |log| && HasLoser(log, n, pg)
    ensures OldestLoser(log, n, pg, o)
  {
    var j :| LiveOn(log, n, pg, j) && !Committed(log, n, log[j].tid);
    o := 0;
    while !(LiveOn(log, n, pg, o) && !Committed(log, n, log[o].tid))
      invariant o <= j
      invariant forall i :: 0 <= i < o && LiveOn(log, n, pg, i) ==> Committed(log, n, log[i].tid)
      decreases j - o
    {
      o := o + 1;
    }
  }

  /** As coded, analysis finds every transaction finished, so undo has nothing to do. */
  lemma AsCodedUndoesNothing(log: Log)
    requires Legal(log)
    ensures Unfinished(AttAt(log, |log|, false)) == map[]
    ensures forall t :: LastOf(log, |log|, t) >= 0 && !Ended(log, |log|, t) ==>
              t in AttAt(log, |log|, false) && Finished(AttAt(log, |log|, false)[t])
  {
    AttCoded(log, |log|);
    AttDomain(log, |log|, false);
    assert Unfinished(AttAt(log, |log|, false)).Keys == {};
  }

  /** So the pages a restart as coded ends with are the owed ones exactly where the losers
      cancel out. */
  lemma AsCodedPages(log: Log, m: Store)
    requires Legal(log)
    ensures forall pg :: pg in m && LastWrite(log, |log|, pg) >= 0 ==>
              (Replay(log, |log|, m)[pg].image == CommittedImage(log, |log|, pg) <==> LosersCancelOut(log, |log|, pg))
  {
    forall pg | pg in m && LastWrite(log, |log|, pg) >= 0
      ensures Replay(log, |log|, m)[pg].image == CommittedImage(log, |log|, pg) <==> LosersCancelOut(log, |log|, pg)
    {
      AsCodedIsRightIff(log, |log|, pg);
    }
  }

  /** Nor may the end records it writes follow the log, unless no unfinished transaction has
      anything left to undo. */
  lemma CodedEndsLegalIff(log: Log, ends: seq<Rec>)
    requires Legal(log) && EndsOf(ends, AttAt(log, |log|, false), {})
    ensures Legal(log + ends) <==> forall t :: Active(log, |log|, t) ==> Head(log, |log|, t) == -1
  {
    CodedEndsOf(log, ends);
    hide Legal, EndsOf, AttAt, Head;
    if t :| Active(log, |log|, t) && Head(log, |log|, t) != -1 {
      var k :| 0 <= k < |ends| && ends[k].tid == t;
      CodedEndRefused(log, ends, k);
    } else {
      EndsMayFollow(log, ends);
    }
  }

  /** As coded, exactly the transactions without an end record are given one. */
  lemma CodedEndsOf(log: Log, ends: seq<Rec>)
    requires Legal(log) && EndsOf(ends, AttAt(log, |log|, false), {})
    ensures forall k :: 0 <= k < |ends| ==>
              ends[k].End? && LastOf(log, |log|, ends[k].tid) >= 0 && !Ended(log, |log|, ends[k].tid)
              && (Active(log, |log|, ends[k].tid) || Committed(log, |log|, ends[k].tid))
    ensures forall i, j :: 0 <= i < j < |ends| ==> ends[i].tid != ends[j].tid
    ensures forall t :: LastOf(log, |log|, t) >= 0 && !Ended(log, |log|, t)
              ==> exists k :: 0 <= k < |ends| && ends[k].tid == t
  {
    AttDomain(log, |log|, false);
    AttCoded(log, |log|);
  }

  lemma CodedEndRefused(log: Log, ends: seq<Rec>, k: nat)
    requires k < |ends| && Active(log, |log|, ends[k].tid) && Head(log, |log|, ends[k].tid) != -1
    requires forall l :: 0 <= l < |ends| ==> ends[l].End?
    requires forall i, j :: 0 <= i < j < |ends| ==> ends[i].tid != ends[j].tid
    ensures !Legal(log + ends)
  {
    var all, before, t := log + ends, log + ends[..k], ends[k].tid;
    assert SamePrefix(all, before, |before|);
    PrefixStable(all, before, |before|);
    HeadPastEnds(log, ends[..k], t);
    EndsCommitNone(log, ends[..k], t);
    assert all[|before|] == ends[k];
    assert !CanAppend(all, |before|);
  }

  /** A log on which the analysis as coded keeps an unfinished transaction's page. */
  lemma AsCodedCounterexample()
    ensures Legal(SAMPLE) && !Committed(SAMPLE, 6, 2)
    ensures Unfinished(AttAt(SAMPLE, 6, false)) == map[]
    ensures Replay(SAMPLE, 6, map[0 := Page(1, [0])]) == map[0 := Page(5, [1])]
    ensures CommittedImage(SAMPLE, 6, 0) == [0]
  {
    SampleRecords();
    AsCodedUndoesNothing(SAMPLE);
    assert LiveOn(SAMPLE, 6, 0, 5) && SAMPLE[1].tid == 1;
    assert OldestLoser(SAMPLE, 6, 0, 5);
    OwedIsOldestUndo(SAMPLE, 6, 0, 5);
  }

  /** A log without any update, as a crash leaves it before the root page is logged: its dirty
      page table is empty, and redo then finds nowhere to start although there is nothing to
      redo. */
  lemma NothingToRedo()
    ensures var log := SAMPLE[..1];
            Legal(log) && DptAt(log, 1) == map[] && forall m :: Replay(log, 1, m) == m
  {
    SampleRecords();
    LegalPrefix(SAMPLE, SAMPLE[..1], 1);
    assert DptAt(SAMPLE[..1], 0) == map[];
    assert forall pg :: LastWrite(SAMPLE[..1], 1, pg) == -1;
  }
}
