/** The write-ahead log of the pager: record types, what it means for a log to have been
    written by the pager, and which update records are still in force.

    A record's LSN is its position in the log.  The source uses byte offsets; only their
    order matters to the pager, and the first record (a begin record) has LSN 0 in both.
    An image is the bytes of a page without the page-LSN field, which the pager overwrites
    with the LSN of the record whenever it applies one. */
module Wal {

  type Image = seq<bv8>

  datatype Page = Page(lsn: nat, image: Image)

  datatype Rec =
    | Begin(tid: nat)
    | Update(tid: nat, prev: nat, pg: nat, undo: Image, redo: Image)
    | Clr(tid: nat, prev: nat, pg: nat, undoNext: nat, redo: Image)
    | Commit(tid: nat, prev: nat)
    | End(tid: nat, prev: nat)
  {
    /** The record's back pointer; a begin record answers 0. */
    function PrevLsn(): nat {
      if Begin? then 0 else prev
    }
  }

  type Log = seq<Rec>

  predicate Writes(r: Rec, pg: nat) {
    (r.Update? || r.Clr?) && r.pg == pg
  }

  // ---------------------------------------------------------------- reading a log prefix
  // Every function below speaks of the first n records of a log.

  /** The last record of transaction t, or -1. */
  function LastOf(log: Log, n: nat, t: nat): (i: int)
    requires n <= |log|
    ensures -1 <= i < n
    ensures i >= 0 ==> log[i].tid == t
    ensures forall k :: i < k < n ==> log[k].tid != t
  {
    if n == 0 then -1 else if log[n - 1].tid == t then n - 1 else LastOf(log, n - 1, t)
  }

  /** The last record that writes page pg, or -1. */
  function LastWrite(log: Log, n: nat, pg: nat): (i: int)
    requires n <= |log|
    ensures -1 <= i < n
    ensures i >= 0 ==> Writes(log[i], pg)
    ensures forall k :: i < k < n ==> !Writes(log[k], pg)
  {
    if n == 0 then -1 else if Writes(log[n - 1], pg) then n - 1 else LastWrite(log, n - 1, pg)
  }

  /** The first record that writes page pg, or n. */
  function FirstWrite(log: Log, n: nat, pg: nat): (i: nat)
    requires n <= |log|
    ensures i <= n
    ensures i < n ==> Writes(log[i], pg)
    ensures forall k :: 0 <= k < i ==> !Writes(log[k], pg)
  {
    if n == 0 then 0
    else
      var i := FirstWrite(log, n - 1, pg);
      if i < n - 1 || Writes(log[n - 1], pg) then i else n
  }

  ghost predicate Committed(log: Log, n: nat, t: nat)
    requires n <= |log|
  {
    exists i :: 0 <= i < n && log[i].Commit? && log[i].tid == t
  }

  ghost predicate Ended(log: Log, n: nat, t: nat)
    requires n <= |log|
  {
    exists i :: 0 <= i < n && log[i].End? && log[i].tid == t
  }

  /** t has begun and has neither committed nor ended. */
  ghost predicate Active(log: Log, n: nat, t: nat)
    requires n <= |log|
  {
    LastOf(log, n, t) >= 0 && !Committed(log, n, t) && !Ended(log, n, t)
  }

  /** A later compensation record of the same transaction resumes undo below j. */
  ghost predicate Compensated(log: Log, n: nat, j: nat)
    requires j < n <= |log|
  {
    exists i :: j < i < n && log[i].Clr? && log[i].tid == log[j].tid && log[i].undoNext < j
  }

  /** Record j is an update that no compensation record has taken back. */
  ghost predicate Live(log: Log, n: nat, j: int)
    requires n <= |log|
  {
    0 <= j < n && log[j].Update? && !Compensated(log, n, j)
  }

  ghost predicate LiveOn(log: Log, n: nat, pg: nat, j: int)
    requires n <= |log|
  {
    Live(log, n, j) && log[j].pg == pg
  }

  /** The newest live update of t with LSN below m, or -1. */
  ghost function HeadBelow(log: Log, n: nat, t: nat, m: nat): (j: int)
    requires m <= n <= |log|
    ensures -1 <= j < m
    ensures j >= 0 ==> Live(log, n, j) && log[j].tid == t
    ensures forall k :: j < k < m && Live(log, n, k) ==> log[k].tid != t
  {
    if m == 0 then -1
    else if Live(log, n, m - 1) && log[m - 1].tid == t then m - 1
    else HeadBelow(log, n, t, m - 1)
  }

  /** The newest live update of t, or -1. */
  ghost function Head(log: Log, n: nat, t: nat): (j: int)
    requires n <= |log|
    ensures -1 <= j < n
    ensures j >= 0 ==> Live(log, n, j) && log[j].tid == t
    ensures forall k :: j < k < n && Live(log, n, k) ==> log[k].tid != t
  {
    HeadBelow(log, n, t, n)
  }

  /** The newest live update of page pg with LSN below m, or -1. */
  ghost function TopBelow(log: Log, n: nat, pg: nat, m: nat): (j: int)
    requires m <= n <= |log|
    ensures -1 <= j < m
    ensures j >= 0 ==> LiveOn(log, n, pg, j)
    ensures forall k :: j < k < m ==> !LiveOn(log, n, pg, k)
  {
    if m == 0 then -1
    else if LiveOn(log, n, pg, m - 1) then m - 1
    else TopBelow(log, n, pg, m - 1)
  }

  // ---------------------------------------------------------------- logs the pager writes

  /** Record k may follow the k records before it.  The two clauses of the update case that
      speak of the page are the pager's own doing (the undo image is the page as it was read)
      and the isolation that page-level undo relies on: a page holding a live update of an
      unfinished transaction is written by no other transaction. */
  ghost predicate CanAppend(log: Log, k: nat)
    requires k < |log|
  {
    var t := log[k].tid;
    match log[k]
    case Begin(_) =>
      LastOf(log, k, t) == -1
    case Update(_, prev, pg, undo, _) =>
      && Active(log, k, t)
      && prev == LastOf(log, k, t)
      && (LastWrite(log, k, pg) >= 0 ==> undo == log[LastWrite(log, k, pg)].redo)
      && forall j :: LiveOn(log, k, pg, j) ==> log[j].tid == t || Committed(log, k, log[j].tid)
    case Clr(_, prev, pg, undoNext, redo) =>
      && Active(log, k, t)
      && prev == LastOf(log, k, t)
      && var j := Head(log, k, t);
      && j >= 0
      && pg == log[j].pg
      && undoNext == log[j].prev
      && redo == log[j].undo
    case Commit(_, prev) =>
      Active(log, k, t) && prev == LastOf(log, k, t)
    case End(_, _) =>
      && LastOf(log, k, t) >= 0
      && !Ended(log, k, t)
      && (Committed(log, k, t) || Head(log, k, t) == -1)
  }

  ghost predicate Legal(log: Log) {
    forall k :: 0 <= k < |log| ==> CanAppend(log, k)
  }

  // ---------------------------------------------------------------- prefixes and appends

  ghost predicate SamePrefix(a: Log, b: Log, n: nat) {
    n <= |a| && n <= |b| && forall i :: 0 <= i < n ==> a[i] == b[i]
  }

  /** What is read of a log prefix does not depend on what follows it. */
  lemma PrefixStable(a: Log, b: Log, n: nat)
    requires SamePrefix(a, b, n)
    ensures forall t :: LastOf(a, n, t) == LastOf(b, n, t)
    ensures forall pg :: LastWrite(a, n, pg) == LastWrite(b, n, pg)
    ensures forall pg :: FirstWrite(a, n, pg) == FirstWrite(b, n, pg)
    ensures forall t :: Committed(a, n, t) == Committed(b, n, t)
    ensures forall t :: Ended(a, n, t) == Ended(b, n, t)
    ensures forall j :: Live(a, n, j) == Live(b, n, j)
    ensures forall t :: Head(a, n, t) == Head(b, n, t)
  {
    forall t
      ensures LastOf(a, n, t) == LastOf(b, n, t) && Committed(a, n, t) == Committed(b, n, t)
      ensures Ended(a, n, t) == Ended(b, n, t)
    {
      var i, j := LastOf(a, n, t), LastOf(b, n, t);
    }
    forall pg
      ensures LastWrite(a, n, pg) == LastWrite(b, n, pg) && FirstWrite(a, n, pg) == FirstWrite(b, n, pg)
    {
      var i, j := LastWrite(a, n, pg), LastWrite(b, n, pg);
      var k, l := FirstWrite(a, n, pg), FirstWrite(b, n, pg);
    }
    forall j: int
      ensures Live(a, n, j) == Live(b, n, j)
    {
      if 0 <= j < n {
        assert Compensated(a, n, j) == Compensated(b, n, j);
      }
    }
    forall t
      ensures Head(a, n, t) == Head(b, n, t)
    {
      var i, j := Head(a, n, t), Head(b, n, t);
    }
  }

  lemma LegalPrefix(a: Log, b: Log, n: nat)
    requires SamePrefix(a, b, n) && |b| == n && Legal(a)
    ensures Legal(b)
  {
    forall k | 0 <= k < n
      ensures CanAppend(b, k)
    {
      assert CanAppend(a, k);
      SameStep(a, b, k);
    }
  }

  lemma SameStep(a: Log, b: Log, k: nat)
    requires k < |a| && k < |b| && SamePrefix(a, b, k + 1)
    ensures CanAppend(a, k) == CanAppend(b, k)
  {
    PrefixStable(a, b, k);
    forall pg, j: int
      ensures LiveOn(a, k, pg, j) == LiveOn(b, k, pg, j)
    {}
  }

  /** Appending a record that may follow keeps the log legal. */
  lemma LegalAppend(log: Log, r: Rec)
    requires Legal(log) && CanAppend(log + [r], |log|)
    ensures Legal(log + [r])
  {
    var b := log + [r];
    forall k | 0 <= k < |b|
      ensures CanAppend(b, k)
    {
      if k < |log| {
        assert CanAppend(log, k);
        SameStep(log, b, k);
      }
    }
  }
}
