/** The dual of a scatter: a fixed source is gathered, run by run, into destinations that are
    given in pieces. */
module StridedGather {
  import opened StridedCopy

  /** The access pattern acc of the source, starting at ofst. */
  datatype Jump = Jump(ofst: nat, acc: Acc)

  /** The n source offsets from at on. */
  function Bytes(at: nat, n: nat): (s: seq<nat>)
    ensures |s| == n
  {
    seq(n, i requires 0 <= i < n => at + i)
  }

  /** Where run n of a pattern is in the source. */
  function RunFrom(ofst: nat, acc: Acc, n: nat): nat {
    ofst + n * (acc.read + acc.skip)
  }

  /** The source offsets that a pattern has yet to deliver: from byte lidx of run nread, or of
      the run after it when skipping. */
  function Pending(acc: Acc, ofst: nat, nread: nat, lidx: nat, skipping: bool): seq<nat>
    decreases acc.nreads - nread, if skipping then 0 else 1
  {
    if nread >= acc.nreads then []
    else if skipping then Pending(acc, ofst, nread + 1, 0, false)
    else
      Bytes(RunFrom(ofst, acc, nread) + lidx, if lidx < acc.read then acc.read - lidx else 0)
      + if nread + 1 < acc.nreads then Pending(acc, ofst, nread, 0, true) else []
  }

  /** All that a plan delivers. */
  function Offsets(plan: seq<Jump>): seq<nat> {
    if plan == [] then [] else Pending(plan[0].acc, plan[0].ofst, 0, 0, false) + Offsets(plan[1..])
  }

  ghost function PendingAt(plan: seq<Jump>, o: nat, nread: nat, lidx: nat, skipping: bool): seq<nat>
    requires o < |plan|
  {
    Pending(plan[o].acc, plan[o].ofst, nread, lidx, skipping) + Offsets(plan[o + 1..])
  }

  lemma PatternOver(plan: seq<Jump>, o: nat, lidx: nat, skipping: bool)
    requires o < |plan|
    ensures PendingAt(plan, o, plan[o].acc.nreads, lidx, skipping) == Offsets(plan[o + 1..])
    ensures o + 1 == |plan| ==> Offsets(plan[o + 1..]) == []
  {}

  lemma NextJump(plan: seq<Jump>, o: nat)
    requires o < |plan|
    ensures Offsets(plan[o..]) == PendingAt(plan, o, 0, 0, false)
  {
    assert plan[o..][1..] == plan[o + 1..];
  }

  lemma SkipIsFree(plan: seq<Jump>, o: nat, nread: nat, lidx: nat)
    requires o < |plan| && nread < plan[o].acc.nreads
    ensures PendingAt(plan, o, nread, lidx, true) == PendingAt(plan, o, nread + 1, 0, false)
  {}

  /** What is left after byte lidx of a run, as the state says it. */
  ghost function RunPendingAt(plan: seq<Jump>, o: nat, nread: nat, lidx: nat): seq<nat>
    requires o < |plan| && nread < plan[o].acc.nreads && lidx <= plan[o].acc.read
  {
    if lidx < plan[o].acc.read then PendingAt(plan, o, nread, lidx, false)
    else if nread + 1 < plan[o].acc.nreads then PendingAt(plan, o, nread, 0, true)
    else PendingAt(plan, o, nread + 1, 0, false)
  }

  lemma BytesSplit(at: nat, n: nat, k: nat)
    requires k <= n
    ensures Bytes(at, n) == Bytes(at, k) + Bytes(at + k, n - k)
  {}

  lemma RunPending(plan: seq<Jump>, o: nat, nread: nat, lidx: nat, k: nat)
    requires o < |plan| && nread < plan[o].acc.nreads && lidx + k <= plan[o].acc.read
    ensures PendingAt(plan, o, nread, lidx, false)
         == Bytes(RunFrom(plan[o].ofst, plan[o].acc, nread) + lidx, k) + RunPendingAt(plan, o, nread, lidx + k)
    ensures lidx + k < plan[o].acc.read ==> RunPendingAt(plan, o, nread, lidx + k) != []
  {
    var acc, at := plan[o].acc, RunFrom(plan[o].ofst, plan[o].acc, nread) + lidx;
    var more, tail := RunsAfter(plan, o, nread), Offsets(plan[o + 1..]);
    RunAhead(plan, o, nread, lidx);
    RunAheadLater(plan, o, nread, lidx, k);
    hide *;
    BytesSplit(at, acc.read - lidx, k);
    Grouped(Bytes(at, k), Bytes(at + k, acc.read - lidx - k), more, tail);
  }

  /** What a pattern delivers after run nread. */
  function RunsAfter(plan: seq<Jump>, o: nat, nread: nat): seq<nat>
    requires o < |plan|
  {
    if nread + 1 < plan[o].acc.nreads then Pending(plan[o].acc, plan[o].ofst, nread, 0, true) else []
  }

  lemma RunAhead(plan: seq<Jump>, o: nat, nread: nat, lidx: nat)
    requires o < |plan| && nread < plan[o].acc.nreads && lidx <= plan[o].acc.read
    ensures PendingAt(plan, o, nread, lidx, false)
         == (Bytes(RunFrom(plan[o].ofst, plan[o].acc, nread) + lidx, plan[o].acc.read - lidx) + RunsAfter(plan, o, nread))
            + Offsets(plan[o + 1..])
  {
    hide RunFrom, Bytes, Offsets;
  }

  lemma RunAheadLater(plan: seq<Jump>, o: nat, nread: nat, lidx: nat, k: nat)
    requires o < |plan| && nread < plan[o].acc.nreads && lidx + k <= plan[o].acc.read
    ensures RunPendingAt(plan, o, nread, lidx + k)
         == (Bytes(RunFrom(plan[o].ofst, plan[o].acc, nread) + lidx + k, plan[o].acc.read - lidx - k)
             + RunsAfter(plan, o, nread)) + Offsets(plan[o + 1..])
    ensures lidx + k < plan[o].acc.read ==> RunPendingAt(plan, o, nread, lidx + k) != []
  {
    if lidx + k < plan[o].acc.read {
      RunAhead(plan, o, nread, lidx + k);
      hide PendingAt, RunFrom, Offsets, RunsAfter;
    } else {
      RunOver(plan, o, nread);
      NoBytes(RunFrom(plan[o].ofst, plan[o].acc, nread) + lidx + k, RunsAfter(plan, o, nread));
      hide PendingAt, RunFrom, Bytes, Offsets, RunsAfter;
    }
  }

  lemma RunOver(plan: seq<Jump>, o: nat, nread: nat)
    requires o < |plan| && nread < plan[o].acc.nreads
    ensures RunPendingAt(plan, o, nread, plan[o].acc.read) == RunsAfter(plan, o, nread) + Offsets(plan[o + 1..])
  {
    hide RunFrom, Bytes, Offsets;
    if nread + 1 == plan[o].acc.nreads {
      PatternOver(plan, o, 0, false);
      assert [] + Offsets(plan[o + 1..]) == Offsets(plan[o + 1..]);
    }
  }

  lemma NoBytes(at: nat, s: seq<nat>)
    ensures Bytes(at, 0) + s == s
  {}

  lemma Grouped<T>(a: seq<T>, b: seq<T>, c: seq<T>, d: seq<T>)
    ensures a + b + c + d == a + ((b + c) + d)
  {}

  ghost predicate Within(all: seq<nat>, size: nat) {
    forall i :: 0 <= i < |all| ==> all[i] < size
  }

  /** How far a piece has been filled: its first n bytes with the first n offsets of all, the
      rest of it as it was. */
  ghost predicate Gathered(dest0: seq<bv8>, all: seq<nat>, src: seq<bv8>, n: nat, dest: seq<bv8>, rest: seq<nat>) {
    && n <= |all| && n <= |dest| && |dest| == |dest0|
    && rest == all[n..]
    && dest[n..] == dest0[n..]
    && forall i :: 0 <= i < n ==> all[i] < |src| && dest[i] == src[all[i]]
  }

  lemma GatherMore(dest0: seq<bv8>, all: seq<nat>, src: seq<bv8>, n: nat, dest: seq<bv8>, at: nat, k: nat, rest: seq<nat>)
    requires Gathered(dest0, all, src, n, dest, Bytes(at, k) + rest) && n + k <= |dest| && Within(all, |src|)
    ensures k == 0 || at + k <= |src|
    ensures Gathered(dest0, all, src, n + k, dest[..n] + (if k == 0 then [] else src[at..at + k]) + dest[n + k..], rest)
  {
    assert forall i :: 0 <= i < k ==> all[n + i] == all[n..][i] == at + i;
    assert rest == all[n..][k..];
    if k > 0 {
      assert all[n + (k - 1)] == at + (k - 1);
    }
    var dest' := dest[..n] + (if k == 0 then [] else src[at..at + k]) + dest[n + k..];
    forall i | 0 <= i < n + k
      ensures all[i] < |src| && dest'[i] == src[all[i]]
    {
      if i >= n { assert all[n + (i - n)] == at + (i - n); }
    }
    assert forall i :: n + k <= i < |dest| ==> dest'[i] == dest[n..][i - n] == dest0[n..][i - n];
  }

  /** The contents of several destinations, one after the other. */
  function InARow(dests: seq<array<bv8>>): seq<bv8>
    reads dests
  {
    if dests == [] then [] else dests[0][..] + InARow(dests[1..])
  }

  lemma WithinRest(dest0: seq<bv8>, all: seq<nat>, src: seq<bv8>, n: nat, dest: seq<bv8>, rest: seq<nat>)
    requires Gathered(dest0, all, src, n, dest, rest) && Within(all, |src|)
    ensures Within(rest, |src|)
  {}

  lemma GatherNone(all: seq<nat>, src: seq<bv8>)
    ensures Gathered([], all, src, 0, [], all)
  {}

  /** Filling one destination and then the next is filling the two in a row. */
  lemma GatherJoin(a0: seq<bv8>, all: seq<nat>, src: seq<bv8>, a: seq<bv8>, mid: seq<nat>, b0: seq<bv8>, b: seq<bv8>, rest: seq<nat>)
    requires Gathered(a0, all, src, Min(|a0|, |all|), a, mid)
    requires Gathered(b0, mid, src, Min(|b0|, |mid|), b, rest)
    ensures Gathered(a0 + b0, all, src, Min(|a0 + b0|, |all|), a + b, rest)
  {
    var n, m := Min(|a0|, |all|), Min(|b0|, |mid|);
    assert n + m == Min(|a0 + b0|, |all|);
    assert n < |a0| ==> mid == [] && m == 0;
    assert (a + b)[n + m..] == a[n..] + b[m..];
    assert (a0 + b0)[n + m..] == a0[n..] + b0[m..];
    assert rest == all[n + m..];
    forall i | 0 <= i < n + m
      ensures all[i] < |src| && (a + b)[i] == src[all[i]]
    {
      if i >= n { assert mid[i - n] == all[i]; }
    }
  }

  class Gather {
    var onum: nat
    var lidx: nat
    var nread: nat
    var isskipping: bool

    ghost predicate Valid(plan: seq<Jump>)
      reads this
    {
      && onum <= |plan|
      && (onum < |plan| ==>
            var acc := plan[onum].acc;
            && nread <= acc.nreads && lidx <= acc.read
            && (isskipping ==> nread + 1 < acc.nreads))
    }

    /** The source offsets yet to be delivered. */
    ghost function Rest(plan: seq<Jump>): seq<nat>
      requires Valid(plan)
      reads this
    {
      if onum == |plan| then [] else PendingAt(plan, onum, nread, lidx, isskipping)
    }

    constructor (plan: seq<Jump>)
      ensures Valid(plan) && Rest(plan) == Offsets(plan)
    {
      onum, lidx, nread, isskipping := 0, 0, 0, false;
      new;
      if plan != [] {
        NextJump(plan, 0);
        assert plan[0..] == plan;
      }
    }

    /** Fills one piece of the destination; says whether the plan is finished. */
    method Copy(dest: array<bv8>, src: seq<bv8>, plan: seq<Jump>) returns (done: bool)
      requires Valid(plan) && Within(Rest(plan), |src|)
      modifies this, dest
      ensures Valid(plan)
      ensures Gathered(old(dest[..]), old(Rest(plan)), src, Min(dest.Length, |old(Rest(plan))|), dest[..], Rest(plan))
      ensures done <==> Rest(plan) == []
    {
      ghost var all, dest0 := Rest(plan), dest[..];
      assert Gathered(dest0, all, src, 0, dest[..], Rest(plan));
      var didx: nat := 0;
      while onum != |plan|
        invariant Valid(plan) && didx <= dest.Length
        invariant Gathered(dest0, all, src, didx, dest[..], Rest(plan))
        decreases |plan| - onum
      {
        done, didx := Runs(dest, didx, src, plan, dest0, all);
        if !done {
          assert |Rest(plan)| == |all| - didx;
          return;
        }
      }
      done := true;
      assert |Rest(plan)| == |all| - didx;
    }

    /** Delivers the runs of the pattern up to its end, or fills up the piece. */
    method Runs(dest: array<bv8>, didx: nat, src: seq<bv8>, plan: seq<Jump>, ghost dest0: seq<bv8>, ghost all: seq<nat>)
      returns (done: bool, didx': nat)
      requires Valid(plan) && onum < |plan| && Within(all, |src|) && didx <= dest.Length
      requires Gathered(dest0, all, src, didx, dest[..], Rest(plan))
      modifies this, dest
      ensures Valid(plan) && didx' <= dest.Length
      ensures Gathered(dest0, all, src, didx', dest[..], Rest(plan))
      ensures if done then onum == old(onum) + 1 else onum == old(onum) && didx' == dest.Length && Rest(plan) != []
    {
      hide Gathered, Within, PendingAt, Pending, Offsets;
      var acc := plan[onum].acc;
      didx' := didx;
      while nread != acc.nreads
        invariant Valid(plan) && onum == old(onum) && didx' <= dest.Length
        invariant Gathered(dest0, all, src, didx', dest[..], Rest(plan))
        decreases acc.nreads - nread, if isskipping then 0 else 1
      {
        if isskipping {
          SkipIsFree(plan, onum, nread, lidx);
          lidx := 0;
          isskipping := false;
          nread := nread + 1;
        } else {
          done, didx' := Run(dest, didx', src, plan, dest0, all);
          if !done {
            return;
          }
        }
      }
      PatternOver(plan, onum, lidx, isskipping);
      onum := onum + 1;
      lidx := 0;
      nread := 0;
      isskipping := false;
      done := true;
      if onum < |plan| {
        NextJump(plan, onum);
      }
    }

    /** Delivers the bytes of a run, or fills up the piece. */
    method Run(dest: array<bv8>, didx: nat, src: seq<bv8>, plan: seq<Jump>, ghost dest0: seq<bv8>, ghost all: seq<nat>)
      returns (done: bool, didx': nat)
      requires Valid(plan) && onum < |plan| && !isskipping && nread < plan[onum].acc.nreads
      requires Within(all, |src|) && didx <= dest.Length && Gathered(dest0, all, src, didx, dest[..], Rest(plan))
      modifies `lidx, `nread, `isskipping, dest
      ensures Valid(plan) && didx' <= dest.Length
      ensures Gathered(dest0, all, src, didx', dest[..], Rest(plan))
      ensures if done then nread == old(nread) + (if isskipping then 0 else 1) else didx' == dest.Length && Rest(plan) != []
    {
      hide Gathered, Within, PendingAt, Pending, Offsets, Bytes, RunFrom;
      var acc := plan[onum].acc;
      var at := RunFrom(plan[onum].ofst, acc, nread) + lidx;
      var remain := acc.read - lidx;
      var k := if didx + remain > dest.Length then dest.Length - didx else remain;
      RunPending(plan, onum, nread, lidx, k);
      GatherMore(dest0, all, src, didx, dest[..], at, k, RunPendingAt(plan, onum, nread, lidx + k));
      Fill(dest, didx, if k == 0 then [] else src[at..at + k]);
      didx' := didx + k;
      done := k == remain;
      if !done {
        lidx := lidx + k;
      } else {
        lidx := 0;
        if nread + 1 < acc.nreads {
          isskipping := true;
        } else {
          nread := nread + 1;
        }
      }
    }

    /** The destination in pieces, one call of Copy for each.  However it is cut, the pieces in
        a row hold what one copy into a single destination of their length would. */
    method CopyAll(dests: seq<array<bv8>>, src: seq<bv8>, plan: seq<Jump>) returns (done: bool)
      requires Valid(plan) && Within(Rest(plan), |src|)
      requires forall i, j :: 0 <= i < j < |dests| ==> dests[i] != dests[j]
      modifies this, dests
      ensures Valid(plan)
      ensures Gathered(old(InARow(dests)), old(Rest(plan)), src, Min(|old(InARow(dests))|, |old(Rest(plan))|),
                       InARow(dests), Rest(plan))
      ensures dests != [] ==> (done <==> Rest(plan) == [])
    {
      hide Gathered, Within, Rest, Valid;
      if dests == [] {
        GatherNone(Rest(plan), src);
        return false;
      }
      ghost var first, others, all := dests[0][..], InARow(dests[1..]), Rest(plan);
      done := Copy(dests[0], src, plan);
      ghost var dest, rest := dests[0][..], Rest(plan);
      assert InARow(dests[1..]) == others;
      WithinRest(first, all, src, Min(|first|, |all|), dest, rest);
      if |dests| > 1 {
        done := CopyAll(dests[1..], src, plan);
      }
      GatherJoin(first, all, src, dest, rest, others, InARow(dests[1..]), Rest(plan));
    }
  }

  method Fill(dest: array<bv8>, at: nat, x: seq<bv8>)
    requires at + |x| <= dest.Length
    modifies dest
    ensures dest[..] == old(dest[..])[..at] + x + old(dest[..])[at + |x|..]
  {
    forall i | 0 <= i < |x| {
      dest[at + i] := x[i];
    }
  }

  /** The t-th byte a pattern delivers is byte t mod read of run t div read. */
  lemma GatherFormula(acc: Acc, ofst: nat, n: nat, t: nat)
    requires t < |Pending(acc, ofst, n, 0, false)|
    ensures acc.read > 0
    ensures Pending(acc, ofst, n, 0, false)[t]
         == ofst + (n + t / acc.read) * (acc.read + acc.skip) + t % acc.read
  {
    RunFormula(acc, ofst, n, t);
    hide Pending;
  }

  lemma {:induction false} RunFormula(acc: Acc, ofst: nat, n: nat, t: nat)
    requires t < |Pending(acc, ofst, n, 0, false)|
    ensures acc.read > 0
    ensures Pending(acc, ofst, n, 0, false)[t] == RunFrom(ofst, acc, n + t / acc.read) + t % acc.read
    decreases acc.nreads - n
  {
    hide RunFrom;
    if t < acc.read {
      Small(t, acc.read);
    } else {
      assert Pending(acc, ofst, n, 0, true) == Pending(acc, ofst, n + 1, 0, false);
      RunFormula(acc, ofst, n + 1, t - acc.read);
      Stride(t, acc.read);
    }
  }

  /** The bytes a plan delivers. */
  function Yield(plan: seq<Jump>): nat {
    if plan == [] then 0 else plan[0].acc.nreads * plan[0].acc.read + Yield(plan[1..])
  }

  lemma {:induction false} PendingLength(acc: Acc, ofst: nat, n: nat)
    requires n <= acc.nreads
    ensures |Pending(acc, ofst, n, 0, false)| == (acc.nreads - n) * acc.read
    decreases acc.nreads - n
  {
    if n < acc.nreads {
      var k := acc.nreads - n;
      if n + 1 < acc.nreads {
        assert Pending(acc, ofst, n, 0, true) == Pending(acc, ofst, n + 1, 0, false);
        PendingLength(acc, ofst, n + 1);
      }
      assert k * acc.read == (k - 1) * acc.read + acc.read;
    }
  }

  lemma {:induction false} OffsetsLength(plan: seq<Jump>)
    ensures |Offsets(plan)| == Yield(plan)
  {
    if plan != [] {
      PendingLength(plan[0].acc, plan[0].ofst, 0);
      OffsetsLength(plan[1..]);
    }
  }

  lemma {:induction false} OffsetsPlus(a: seq<Jump>, b: seq<Jump>)
    ensures Offsets(a + b) == Offsets(a) + Offsets(b)
  {
    if a == [] {
      assert a + b == b;
    } else {
      var first := Pending(a[0].acc, a[0].ofst, 0, 0, false);
      assert (a + b)[1..] == a[1..] + b;
      assert Offsets(a + b) == first + Offsets(a[1..] + b);
      assert Offsets(a) == first + Offsets(a[1..]);
      OffsetsPlus(a[1..], b);
      hide Offsets, Pending;
      Regrouped(first, Offsets(a[1..]), Offsets(b), []);
    }
  }

  lemma AtJump(plan: seq<Jump>, o: nat, j: nat)
    requires o < |plan| && j < plan[o].acc.nreads * plan[o].acc.read
    ensures plan[o].acc.read > 0 && Yield(plan[..o]) + j < |Offsets(plan)|
    ensures Offsets(plan)[Yield(plan[..o]) + j]
         == plan[o].ofst + Strided(plan[o].acc, j)
  {
    var e := plan[o];
    JumpPlace(e.acc, e.ofst, j);
    hide *;
    OffsetsLength(plan[..o]);
    InPlace(plan, o, j);
  }

  lemma JumpPlace(acc: Acc, ofst: nat, j: nat)
    requires j < acc.nreads * acc.read
    ensures acc.read > 0 && |Pending(acc, ofst, 0, 0, false)| == acc.nreads * acc.read
    ensures Pending(acc, ofst, 0, 0, false)[j] == ofst + Strided(acc, j)
  {
    hide Pending;
    PendingLength(acc, ofst, 0);
    GatherFormula(acc, ofst, 0, j);
  }

  lemma InPlace(plan: seq<Jump>, o: nat, j: nat)
    requires o < |plan| && j < |Pending(plan[o].acc, plan[o].ofst, 0, 0, false)|
    ensures var at := |Offsets(plan[..o])| + j;
            at < |Offsets(plan)| && Offsets(plan)[at] == Pending(plan[o].acc, plan[o].ofst, 0, 0, false)[j]
  {
    hide Offsets, Pending;
    OffsetsPlus(plan[..o], plan[o..]);
    assert plan == plan[..o] + plan[o..];
    NextJump(plan, o);
    Amid(Offsets(plan[..o]), [], Pending(plan[o].acc, plan[o].ofst, 0, 0, false), Offsets(plan[o + 1..]), j);
    assert [] + (Pending(plan[o].acc, plan[o].ofst, 0, 0, false) + Offsets(plan[o + 1..]))
        == Pending(plan[o].acc, plan[o].ofst, 0, 0, false) + Offsets(plan[o + 1..]);
  }

  /** A copy that has been finished, into one destination or several in a row: the runs lie end
      to end in it, in the order of the plan, and what is left of the destination is as it was. */
  lemma FinishedGather(plan: seq<Jump>, dest0: seq<bv8>, src: seq<bv8>, n: nat, dest: seq<bv8>, o: nat, j: nat)
    requires Gathered(dest0, Offsets(plan), src, n, dest, [])
    requires o < |plan| && j < plan[o].acc.nreads * plan[o].acc.read
    ensures |dest| == |dest0| && n == Yield(plan) <= |dest| && dest[n..] == dest0[n..]
    ensures var acc := plan[o].acc;
            && acc.read > 0 && Yield(plan[..o]) + j < n
            && var from := plan[o].ofst + Strided(acc, j);
               from < |src| && dest[Yield(plan[..o]) + j] == src[from]
  {
    var all := Offsets(plan);
    OffsetsLength(plan);
    assert |all[n..]| == |all| - n;
    AtJump(plan, o, j);
    hide Offsets, Yield, Strided;
  }
}
