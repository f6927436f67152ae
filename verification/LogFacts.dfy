/** What every legal log satisfies: undo chains lead to the live updates, a compensation
    record takes back exactly one of them, and the last image written to a page is always
    the image of its newest live update. */
module LogFacts {
  import opened Wal

  /** Follow an undo pointer to the update it stands for: a compensation record is skipped
      through its undoNext, a begin record ends the chain. */
  function Resolve(log: Log, u: nat): (j: int)
    ensures -1 <= j < |log|
    ensures j >= 0 ==> j <= u && log[j].Update?
    decreases u
  {
    if u >= |log| then -1
    else match log[u]
      case Update(_, _, _, _, _) => u
      case Clr(_, _, _, next, _) => if next < u then Resolve(log, next) else -1
      case _ => -1
  }

  // ---------------------------------------------------------------- the undo chains

  /** Compensating the newest live update of a transaction takes back that update alone. */
  lemma ClrTakesBackOne(log: Log, n: nat)
    requires Legal(log) && n < |log| && log[n].Clr?
    ensures var j := Head(log, n, log[n].tid);
            0 <= j && log[n].undoNext < j
            && forall i :: Live(log, n + 1, i) <==> Live(log, n, i) && i != j
  {
    assert CanAppend(log, n);
    var t := log[n].tid;
    var j := Head(log, n, t);
    assert CanAppend(log, j);
    forall i: int
      ensures Live(log, n + 1, i) <==> Live(log, n, i) && i != j
    {
      if Live(log, n, i) && i != j {
        assert LastOf(log, j, t) == log[n].undoNext;
        assert !Compensated(log, n + 1, i);
      }
      if i == j {
        assert Compensated(log, n + 1, j);
      }
    }
  }

  /** Any other record leaves the live updates of the past alone. */
  lemma OthersKeepLive(log: Log, n: nat)
    requires Legal(log) && n < |log| && !log[n].Clr?
    ensures forall i :: Live(log, n + 1, i) <==> Live(log, n, i) || (i == n && log[n].Update?)
  {
    forall i: int
      ensures Live(log, n + 1, i) <==> Live(log, n, i) || (i == n && log[n].Update?)
    {
      if 0 <= i < n {
        assert Compensated(log, n, i) == Compensated(log, n + 1, i);
      }
    }
  }

  /** Below a live update, being live is what it was when that update was written. */
  lemma LiveBelow(log: Log, n: nat, j: nat, i: int)
    requires j < n <= |log| && Live(log, n, j) && i < j
    requires 0 <= i ==> log[i].tid == log[j].tid
    ensures Live(log, n, i) <==> Live(log, j, i)
  {
    assert !Compensated(log, n, j);
    if 0 <= i && Live(log, j, i) {
      assert !Compensated(log, j, i);
      assert !Compensated(log, n, i);
    }
  }

  /** The last record of an unfinished transaction leads to its newest live update. */
  lemma {:induction false} ResolveLast(log: Log, n: nat, t: nat)
    requires Legal(log) && n <= |log| && LastOf(log, n, t) >= 0
    requires !Committed(log, n, t) && !Ended(log, n, t)
    ensures Resolve(log, LastOf(log, n, t)) == Head(log, n, t)
    decreases n
  {
    var k := n - 1;
    assert CanAppend(log, k);
    assert !Committed(log, k, t) && !Ended(log, k, t);
    if log[k].tid != t {
      ResolveLast(log, k, t);
      HeadOfOther(log, k, t);
    } else {
      match log[k]
      case Begin(_) =>
        NothingLive(log, n, t);
      case Update(_, prev, _, _, _) =>
        OthersKeepLive(log, k);
        assert Live(log, n, k);
      case Clr(_, prev, _, undoNext, _) =>
        var j := Head(log, k, t);
        ClrTakesBackOne(log, k);
        assert CanAppend(log, j);
        assert !Committed(log, j, t) && !Ended(log, j, t);
        ResolveLast(log, j, t);
        NextHead(log, k, t);
      case Commit(_, _) =>
        assert false;
      case End(_, _) =>
        assert false;
    }
  }

  /** A record of another transaction does not move the head. */
  lemma HeadOfOther(log: Log, k: nat, t: nat)
    requires Legal(log) && k < |log| && log[k].tid != t
    ensures Head(log, k + 1, t) == Head(log, k, t)
  {
    var a, b := Head(log, k, t), Head(log, k + 1, t);
    if log[k].Clr? { ClrTakesBackOne(log, k); } else { OthersKeepLive(log, k); }
  }

  lemma NothingLive(log: Log, n: nat, t: nat)
    requires Legal(log) && 0 < n <= |log| && log[n - 1] == Begin(t)
    ensures Head(log, n, t) == -1
  {
    assert CanAppend(log, n - 1);
  }

  /** After a compensation record the head is what it was before the update taken back. */
  lemma NextHead(log: Log, k: nat, t: nat)
    requires Legal(log) && k < |log| && log[k].Clr? && log[k].tid == t
    ensures Head(log, k, t) >= 0
    ensures Head(log, k + 1, t) == Head(log, Head(log, k, t), t)
  {
    var j := Head(log, k, t);
    ClrTakesBackOne(log, k);
    var a, b := Head(log, k + 1, t), Head(log, j, t);
    if b >= 0 { LiveBelow(log, k, j, b); }
    if a >= 0 { LiveBelow(log, k, j, a); }
  }

  /** Resolve looks only at the records it can reach. */
  lemma {:induction false} ResolveStable(a: Log, b: Log, n: nat, u: nat)
    requires SamePrefix(a, b, n) && u < n
    ensures Resolve(a, u) == Resolve(b, u)
    decreases u
  {
    if a[u].Clr? && a[u].undoNext < u {
      ResolveStable(a, b, n, a[u].undoNext);
    }
  }

  // ---------------------------------------------------------------- page contents

  /** The image page pg had before the log first wrote it. */
  function Base(log: Log, n: nat, pg: nat): Image
    requires n <= |log|
  {
    var f := FirstWrite(log, n, pg);
    if f < n && log[f].Update? then log[f].undo else []
  }

  ghost function ImageBelow(log: Log, n: nat, pg: nat, m: nat): Image
    requires m <= n <= |log|
  {
    var j := TopBelow(log, n, pg, m);
    if j >= 0 then log[j].redo else Base(log, n, pg)
  }

  /** Two live updates of one page are of one transaction, or the older one is committed. */
  lemma IsolatedOn(log: Log, n: nat, pg: nat, i: nat, j: nat)
    requires Legal(log) && n <= |log| && i < j && LiveOn(log, n, pg, i) && LiveOn(log, n, pg, j)
    ensures log[i].tid == log[j].tid || Committed(log, j, log[i].tid)
  {
    assert CanAppend(log, j);
    assert !Compensated(log, n, i);
    assert LiveOn(log, j, pg, i);
  }

  lemma SameTop(log: Log, a: nat, b: nat, pg: nat, m: nat)
    requires m <= a <= |log| && m <= b <= |log|
    requires forall j :: 0 <= j < m ==> LiveOn(log, a, pg, j) == LiveOn(log, b, pg, j)
    ensures TopBelow(log, a, pg, m) == TopBelow(log, b, pg, m)
  {
    var i, j := TopBelow(log, a, pg, m), TopBelow(log, b, pg, m);
  }

  /** The newest live update of an unfinished transaction on a page is the newest live update
      of that page. */
  lemma HeadIsTop(log: Log, n: nat, t: nat)
    requires Legal(log) && n <= |log| && Active(log, n, t) && Head(log, n, t) >= 0
    ensures var j := Head(log, n, t); TopBelow(log, n, log[j].pg, n) == j
  {
    var j := Head(log, n, t);
    var pg := log[j].pg;
    var i := TopBelow(log, n, pg, n);
    assert LiveOn(log, n, pg, j);
    if i > j {
      IsolatedOn(log, n, pg, j, i);
    }
  }

  /** The log invariant of page contents: the last image written to a page is the image of its
      newest live update, and every live update's undo image is what lies under it. */
  lemma {:induction false} Contents(log: Log, n: nat, pg: nat)
    requires Legal(log) && n <= |log|
    ensures var w := LastWrite(log, n, pg); w >= 0 ==> log[w].redo == ImageBelow(log, n, pg, n)
    ensures forall j :: LiveOn(log, n, pg, j) ==> log[j].undo == ImageBelow(log, n, pg, j)
    decreases n
  {
    if n > 0 {
      var k := n - 1;
      Contents(log, k, pg);
      if !Writes(log[k], pg) {
        ContentsOther(log, k, pg);
      } else if log[k].Update? {
        ContentsUpdate(log, k, pg);
      } else {
        ContentsClr(log, k, pg);
      }
    }
  }

  /** An image under a live update only depends on the live updates older than it. */
  lemma SameBelow(log: Log, k: nat, pg: nat, m: nat)
    requires m <= k < |log|
    requires forall j :: 0 <= j < m ==> LiveOn(log, k, pg, j) == LiveOn(log, k + 1, pg, j)
    requires FirstWrite(log, k, pg) < k || !Writes(log[k], pg)
    ensures ImageBelow(log, k + 1, pg, m) == ImageBelow(log, k, pg, m)
  {
    SameTop(log, k, k + 1, pg, m);
  }

  lemma ContentsOther(log: Log, k: nat, pg: nat)
    requires Legal(log) && k < |log| && !Writes(log[k], pg)
    requires var w := LastWrite(log, k, pg); w >= 0 ==> log[w].redo == ImageBelow(log, k, pg, k)
    requires forall j :: LiveOn(log, k, pg, j) ==> log[j].undo == ImageBelow(log, k, pg, j)
    ensures var w := LastWrite(log, k + 1, pg);
            w >= 0 ==> log[w].redo == ImageBelow(log, k + 1, pg, k + 1)
    ensures forall j :: LiveOn(log, k + 1, pg, j) ==> log[j].undo == ImageBelow(log, k + 1, pg, j)
  {
    SameLiveOn(log, k, pg);
    SameBelow(log, k, pg, k);
    assert TopBelow(log, k + 1, pg, k + 1) == TopBelow(log, k + 1, pg, k);
    forall j | LiveOn(log, k + 1, pg, j)
      ensures log[j].undo == ImageBelow(log, k + 1, pg, j)
    {
      SameBelow(log, k, pg, j);
    }
  }

  lemma SameLiveOn(log: Log, k: nat, pg: nat)
    requires Legal(log) && k < |log| && !Writes(log[k], pg)
    ensures forall j :: LiveOn(log, k + 1, pg, j) == LiveOn(log, k, pg, j)
  {
    if log[k].Clr? {
      ClrTakesBackOne(log, k);
      assert CanAppend(log, k);
    } else {
      OthersKeepLive(log, k);
    }
  }

  lemma ContentsUpdate(log: Log, k: nat, pg: nat)
    requires Legal(log) && k < |log| && log[k].Update? && log[k].pg == pg
    requires var w := LastWrite(log, k, pg); w >= 0 ==> log[w].redo == ImageBelow(log, k, pg, k)
    requires forall j :: LiveOn(log, k, pg, j) ==> log[j].undo == ImageBelow(log, k, pg, j)
    ensures log[k].redo == ImageBelow(log, k + 1, pg, k + 1)
    ensures forall j :: LiveOn(log, k + 1, pg, j) ==> log[j].undo == ImageBelow(log, k + 1, pg, j)
  {
    assert CanAppend(log, k);
    OthersKeepLive(log, k);
    assert LiveOn(log, k + 1, pg, k);
    if LastWrite(log, k, pg) >= 0 {
      forall j | LiveOn(log, k + 1, pg, j)
        ensures log[j].undo == ImageBelow(log, k + 1, pg, j)
      {
        SameBelow(log, k, pg, j);
      }
    } else {
      assert FirstWrite(log, k + 1, pg) == k;
    }
  }

  lemma ContentsClr(log: Log, k: nat, pg: nat)
    requires Legal(log) && k < |log| && log[k].Clr? && log[k].pg == pg
    requires forall j :: LiveOn(log, k, pg, j) ==> log[j].undo == ImageBelow(log, k, pg, j)
    ensures log[k].redo == ImageBelow(log, k + 1, pg, k + 1)
    ensures forall j :: LiveOn(log, k + 1, pg, j) ==> log[j].undo == ImageBelow(log, k + 1, pg, j)
  {
    assert CanAppend(log, k);
    var j := Head(log, k, log[k].tid);
    HeadIsTop(log, k, log[k].tid);
    ClrTakesBackOne(log, k);
    assert LiveOn(log, k, pg, j) && Writes(log[j], pg);
    SameBelow(log, k, pg, j);
    var a, b := TopBelow(log, k + 1, pg, k + 1), TopBelow(log, k + 1, pg, j);
    assert a >= 0 ==> LiveOn(log, k, pg, a);
    assert a == b;
    forall i | LiveOn(log, k + 1, pg, i)
      ensures log[i].undo == ImageBelow(log, k + 1, pg, i)
    {
      SameBelow(log, k, pg, i);
    }
  }

  /** The last image logged for a page is that of its newest live update. */
  lemma LastImage(log: Log, n: nat, pg: nat)
    requires Legal(log) && n <= |log| && LastWrite(log, n, pg) >= 0
    ensures log[LastWrite(log, n, pg)].redo == ImageBelow(log, n, pg, n)
  {
    Contents(log, n, pg);
  }

  /** The undo image of a live update is the image of the page under it. */
  lemma UndoImage(log: Log, n: nat, pg: nat, j: nat)
    requires Legal(log) && n <= |log| && LiveOn(log, n, pg, j)
    ensures log[j].undo == ImageBelow(log, n, pg, j)
  {
    Contents(log, n, pg);
  }
}
