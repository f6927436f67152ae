/** Resumable strided copies: the source arrives in pieces and is scattered over a fixed
    destination, or a fixed source is gathered into destinations given in pieces. */
module StridedCopy {

  /** nreads runs of read bytes, skip bytes apart. */
  datatype Acc = Acc(nreads: nat, read: nat, skip: nat)

  // ---------------------------------------------------------------- what a copy has left to do

  /** What becomes of one byte of the source. */
  datatype Action = Pass | Put(at: nat)

  function Passes(n: nat): (s: seq<Action>)
    ensures |s| == n
  {
    seq(n, _ => Pass)
  }

  function Puts(at: nat, n: nat): (s: seq<Action>)
    ensures |s| == n
  {
    seq(n, i requires 0 <= i < n => Put(at + i))
  }

  /** hop bytes to pass over, then the access pattern, copied densely to dofst. */
  datatype Entry = Entry(hop: nat, acc: Acc, dofst: nat)

  /** Where run n of a pattern goes. */
  function RunAt(dofst: nat, acc: Acc, n: nat): nat {
    dofst + n * acc.read
  }

  /** What is left of a pattern: within run nread, or within the gap after it, at byte lidx. */
  function AccRest(acc: Acc, dofst: nat, nread: nat, lidx: nat, skipping: bool): seq<Action>
    decreases acc.nreads - nread, if skipping then 0 else 1
  {
    if nread >= acc.nreads then []
    else if skipping then
      Passes(if lidx < acc.skip then acc.skip - lidx else 0) + AccRest(acc, dofst, nread + 1, 0, false)
    else
      Puts(RunAt(dofst, acc, nread) + lidx, if lidx < acc.read then acc.read - lidx else 0)
      + if nread + 1 < acc.nreads then AccRest(acc, dofst, nread, 0, true) else []
  }

  /** All that a plan does. */
  function Script(plan: seq<Entry>): seq<Action> {
    if plan == [] then []
    else Passes(plan[0].hop) + AccRest(plan[0].acc, plan[0].dofst, 0, 0, false) + Script(plan[1..])
  }

  /** dest after the bytes x have met the actions. */
  function Apply(dest: seq<bv8>, acts: seq<Action>, x: seq<bv8>): (r: seq<bv8>)
    requires |acts| == |x|
    ensures |r| == |dest|
  {
    if acts == [] then dest
    else
      var n := |acts| - 1;
      var d := Apply(dest, acts[..n], x[..n]);
      if acts[n].Put? && acts[n].at < |d| then d[acts[n].at := x[n]] else d
  }

  lemma {:induction false} ApplyTwice(dest: seq<bv8>, a: seq<Action>, b: seq<Action>, x: seq<bv8>, y: seq<bv8>)
    requires |a| == |x| && |b| == |y|
    ensures Apply(dest, a + b, x + y) == Apply(Apply(dest, a, x), b, y)
  {
    if b == [] {
      assert a + b == a && x + y == x;
    } else {
      var n := |b| - 1;
      ApplyTwice(dest, a, b[..n], x, y[..n]);
      assert (a + b)[..|a| + n] == a + b[..n];
      assert (x + y)[..|a| + n] == x + y[..n];
    }
  }

  lemma {:induction false} ApplyPasses(dest: seq<bv8>, x: seq<bv8>)
    ensures Apply(dest, Passes(|x|), x) == dest
  {
    if x != [] {
      var n := |x| - 1;
      ApplyPasses(dest, x[..n]);
      assert Passes(|x|)[..n] == Passes(n);
    }
  }

  lemma {:induction false} ApplyPuts(dest: seq<bv8>, at: nat, x: seq<bv8>)
    requires at + |x| <= |dest|
    ensures Apply(dest, Puts(at, |x|), x) == dest[..at] + x + dest[at + |x|..]
  {
    if x == [] {
      assert dest == dest[..at] + dest[at..];
    } else {
      var n := |x| - 1;
      ApplyPuts(dest, at, x[..n]);
      assert Puts(at, |x|)[..n] == Puts(at, n);
    }
  }

  ghost predicate FitsIn(acts: seq<Action>, size: nat) {
    forall i :: 0 <= i < |acts| && acts[i].Put? ==> acts[i].at < size
  }

  lemma PassesSplit(n: nat, k: nat)
    requires k <= n
    ensures Passes(n) == Passes(k) + Passes(n - k)
  {}

  lemma PutsSplit(at: nat, n: nat, k: nat)
    requires k <= n
    ensures Puts(at, n) == Puts(at, k) + Puts(at + k, n - k)
  {}

  function Min(a: nat, b: nat): nat {
    if a < b then a else b
  }

  // ---------------------------------------------------------------- scattering

  /** How far a copy has come: all has been done but what is left, with the bytes so far. */
  ghost predicate Scattered(dest0: seq<bv8>, all: seq<Action>, src: seq<bv8>, n: nat, dest: seq<bv8>, rest: seq<Action>) {
    && n <= |src| && n <= |all|
    && rest == all[n..]
    && dest == Apply(dest0, all[..n], src[..n])
  }

  lemma ScatterMore(dest0: seq<bv8>, all: seq<Action>, src: seq<bv8>, n: nat, dest: seq<bv8>, acts: seq<Action>,
                    rest: seq<Action>)
    requires Scattered(dest0, all, src, n, dest, acts + rest) && n + |acts| <= |src|
    ensures Scattered(dest0, all, src, n + |acts|, Apply(dest, acts, src[n..n + |acts|]), rest)
  {
    var m := n + |acts|;
    assert all[..m] == all[..n] + acts;
    assert src[..m] == src[..n] + src[n..m];
    ApplyTwice(dest0, all[..n], acts, src[..n], src[n..m]);
    assert rest == (acts + rest)[|acts|..] == all[m..];
  }

  /** What is left of entry h and all after it, its hop being done. */
  ghost function Inside(plan: seq<Entry>, h: nat, nread: nat, lidx: nat, skipping: bool): seq<Action>
    requires h < |plan|
  {
    AccRest(plan[h].acc, plan[h].dofst, nread, lidx, skipping) + Script(plan[h + 1..])
  }

  /** What is left after byte lidx of a gap. */
  ghost function GapLeft(plan: seq<Entry>, h: nat, nread: nat, lidx: nat): seq<Action>
    requires h < |plan| && lidx <= plan[h].acc.skip
  {
    if lidx == plan[h].acc.skip then Inside(plan, h, nread + 1, 0, false) else Inside(plan, h, nread, lidx, true)
  }

  lemma GapRest(plan: seq<Entry>, h: nat, nread: nat, lidx: nat, k: nat)
    requires h < |plan| && nread < plan[h].acc.nreads && lidx + k <= plan[h].acc.skip
    ensures Inside(plan, h, nread, lidx, true) == Passes(k) + GapLeft(plan, h, nread, lidx + k)
    ensures lidx + k < plan[h].acc.skip ==> GapLeft(plan, h, nread, lidx + k) != []
  {
    PassesSplit(plan[h].acc.skip - lidx, k);
  }

  /** What follows a run: the next gap, or the next entry. */
  ghost function AfterRun(plan: seq<Entry>, h: nat, nread: nat): seq<Action>
    requires h < |plan|
  {
    if nread + 1 < plan[h].acc.nreads then Inside(plan, h, nread, 0, true) else Script(plan[h + 1..])
  }

  /** What is left after byte lidx of a run. */
  ghost function RunLeft(plan: seq<Entry>, h: nat, nread: nat, lidx: nat): seq<Action>
    requires h < |plan| && lidx <= plan[h].acc.read
  {
    if lidx == plan[h].acc.read then AfterRun(plan, h, nread) else Inside(plan, h, nread, lidx, false)
  }

  lemma RunRest(plan: seq<Entry>, h: nat, nread: nat, lidx: nat, k: nat)
    requires h < |plan| && nread < plan[h].acc.nreads && lidx + k <= plan[h].acc.read
    ensures Inside(plan, h, nread, lidx, false)
         == Puts(RunAt(plan[h].dofst, plan[h].acc, nread) + lidx, k) + RunLeft(plan, h, nread, lidx + k)
    ensures lidx + k < plan[h].acc.read ==> RunLeft(plan, h, nread, lidx + k) != []
  {
    var acc, at := plan[h].acc, RunAt(plan[h].dofst, plan[h].acc, nread) + lidx;
    var more := if nread + 1 < acc.nreads then AccRest(acc, plan[h].dofst, nread, 0, true) else [];
    hide RunAt, Puts, Passes, Script;
    assert AccRest(acc, plan[h].dofst, nread, lidx, false) == Puts(at, acc.read - lidx) + more;
    assert lidx + k < acc.read ==>
      AccRest(acc, plan[h].dofst, nread, lidx + k, false) == Puts(at + k, acc.read - lidx - k) + more;
    assert AfterRun(plan, h, nread) == more + Script(plan[h + 1..]);
    hide AccRest, AfterRun;
    PutsSplit(at, acc.read - lidx, k);
    Regrouped(Puts(at, k), Puts(at + k, acc.read - lidx - k), more, Script(plan[h + 1..]));
    NonePut(at + k, AfterRun(plan, h, nread));
  }

  lemma PatternDone(plan: seq<Entry>, h: nat, lidx: nat, skipping: bool)
    requires h < |plan|
    ensures Inside(plan, h, plan[h].acc.nreads, lidx, skipping) == Script(plan[h + 1..])
    ensures h + 1 == |plan| ==> Script(plan[h + 1..]) == []
  {}

  /** What is left when a run is done, as the state says it: the gap after it, or the end. */
  lemma RunDone(plan: seq<Entry>, h: nat, nread: nat, lidx: nat)
    requires h < |plan| && nread < plan[h].acc.nreads && lidx <= plan[h].acc.read
    ensures RunLeft(plan, h, nread, lidx)
         == if lidx < plan[h].acc.read then Inside(plan, h, nread, lidx, false)
            else if nread + 1 < plan[h].acc.nreads then Inside(plan, h, nread, 0, true)
            else Inside(plan, h, nread + 1, 0, false)
  {
    if nread + 1 == plan[h].acc.nreads {
      PatternDone(plan, h, 0, false);
    }
  }

  lemma NextEntry(plan: seq<Entry>, h: nat)
    requires h < |plan|
    ensures Script(plan[h..]) == Passes(plan[h].hop) + Inside(plan, h, 0, 0, false)
  {
    assert plan[h..][1..] == plan[h + 1..];
  }

  lemma Regrouped<T>(a: seq<T>, b: seq<T>, c: seq<T>, d: seq<T>)
    ensures a + b + c + d == a + ((b + c) + d) == a + (b + (c + d))
  {}

  lemma NonePut(at: nat, s: seq<Action>)
    ensures Passes(0) + s == s && Puts(at, 0) + s == s
  {}

  lemma ScatterPass(dest0: seq<bv8>, all: seq<Action>, src: seq<bv8>, n: nat, dest: seq<bv8>, k: nat, rest: seq<Action>)
    requires Scattered(dest0, all, src, n, dest, Passes(k) + rest) && n + k <= |src|
    ensures Scattered(dest0, all, src, n + k, dest, rest)
  {
    ScatterMore(dest0, all, src, n, dest, Passes(k), rest);
    ApplyPasses(dest, src[n..n + k]);
  }

  lemma ScatterPut(dest0: seq<bv8>, all: seq<Action>, src: seq<bv8>, n: nat, dest: seq<bv8>, at: nat, k: nat, rest: seq<Action>)
    requires Scattered(dest0, all, src, n, dest, Puts(at, k) + rest) && n + k <= |src| && FitsIn(all, |dest|)
    ensures k == 0 || at + k <= |dest|
    ensures Scattered(dest0, all, src, n + k, Apply(dest, Puts(at, k), src[n..n + k]), rest)
  {
    hide Apply, FitsIn, Puts;
    PutsFit(all, n, at, k, rest, |dest|);
    hide Scattered;
    ScatterMore(dest0, all, src, n, dest, Puts(at, k), rest);
  }

  lemma PutsFit(all: seq<Action>, n: nat, at: nat, k: nat, rest: seq<Action>, size: nat)
    requires n <= |all| && all[n..] == Puts(at, k) + rest && FitsIn(all, size)
    ensures k == 0 || at + k <= size
  {
    if k > 0 {
      assert (Puts(at, k) + rest)[k - 1] == Put(at + (k - 1));
      assert all[n + (k - 1)] == all[n..][k - 1];
    }
  }

  /** k bytes of a run, and the state they lead to. */
  lemma RunStep(plan: seq<Entry>, h: nat, nread: nat, lidx: nat, k: nat,
                dest0: seq<bv8>, all: seq<Action>, src: seq<bv8>, n: nat, dest: seq<bv8>)
    requires h < |plan| && nread < plan[h].acc.nreads && lidx + k <= plan[h].acc.read
    requires Scattered(dest0, all, src, n, dest, Inside(plan, h, nread, lidx, false))
    requires n + k <= |src| && FitsIn(all, |dest|)
    ensures var at := RunAt(plan[h].dofst, plan[h].acc, nread) + lidx;
            && (k == 0 || at + k <= |dest|)
            && Scattered(dest0, all, src, n + k, Apply(dest, Puts(at, k), src[n..n + k]),
                         if lidx + k < plan[h].acc.read then Inside(plan, h, nread, lidx + k, false)
                         else if nread + 1 < plan[h].acc.nreads then Inside(plan, h, nread, 0, true)
                         else Inside(plan, h, nread + 1, 0, false))
    ensures lidx + k < plan[h].acc.read ==> Inside(plan, h, nread, lidx + k, false) != []
  {
    hide *;
    RunRest(plan, h, nread, lidx, k);
    RunDone(plan, h, nread, lidx + k);
    ScatterPut(dest0, all, src, n, dest, RunAt(plan[h].dofst, plan[h].acc, nread) + lidx, k, RunLeft(plan, h, nread, lidx + k));
  }

  ghost function RestOf(plan: seq<Entry>, h: nat, hidx: nat, nread: nat, lidx: nat, skipping: bool): seq<Action>
    requires h < |plan| && hidx <= plan[h].hop
  {
    var inside := Inside(plan, h, nread, lidx, skipping);
    if hidx == plan[h].hop then inside else Passes(plan[h].hop - hidx) + inside
  }

  lemma NextRest(plan: seq<Entry>, h: nat)
    requires h < |plan|
    ensures Script(plan[h..]) == RestOf(plan, h, 0, 0, 0, false)
  {
    NextEntry(plan, h);
    NonePut(0, Inside(plan, h, 0, 0, false));
  }

  lemma HopRest(plan: seq<Entry>, h: nat, hidx: nat, nread: nat, lidx: nat, skipping: bool, k: nat)
    requires h < |plan| && hidx + k <= plan[h].hop
    ensures RestOf(plan, h, hidx, nread, lidx, skipping) == Passes(k) + RestOf(plan, h, hidx + k, nread, lidx, skipping)
    ensures hidx + k < plan[h].hop ==> RestOf(plan, h, hidx + k, nread, lidx, skipping) != []
  {
    hide Inside;
    PassesSplit(plan[h].hop - hidx, k);
  }

  // ---------------------------------------------------------------- piece by piece

  function Flat(pieces: seq<seq<bv8>>): seq<bv8> {
    if pieces == [] then [] else pieces[0] + Flat(pieces[1..])
  }

  /** What one copy after another leaves, piece by piece. */
  function AllIn(dest: seq<bv8>, acts: seq<Action>, pieces: seq<seq<bv8>>): (seq<bv8>, seq<Action>)
    decreases |pieces|
  {
    if pieces == [] then (dest, acts)
    else
      var n := Min(|pieces[0]|, |acts|);
      AllIn(Apply(dest, acts[..n], pieces[0][..n]), acts[n..], pieces[1..])
  }

  /** How the source is cut into pieces makes no difference. */
  lemma {:induction false} PiecesDoNotMatter(dest: seq<bv8>, acts: seq<Action>, pieces: seq<seq<bv8>>)
    ensures var n := Min(|Flat(pieces)|, |acts|);
            AllIn(dest, acts, pieces) == (Apply(dest, acts[..n], Flat(pieces)[..n]), acts[n..])
    decreases |pieces|
  {
    if pieces != [] {
      hide Apply;
      var x, y := pieces[0], Flat(pieces[1..]);
      var n := Min(|x|, |acts|);
      var m := Min(|y|, |acts| - n);
      assert n + m == Min(|x + y|, |acts|) && Flat(pieces) == x + y;
      assert n <= |x| && n <= |acts| && m <= |y| && n + m <= |acts| && (n == |x| || m == 0);
      PiecesDoNotMatter(Apply(dest, acts[..n], x[..n]), acts[n..], pieces[1..]);
      hide Min;
      Joined(acts, x, y, n, m);
      ApplyTwice(dest, acts[..n], acts[n..][..m], x[..n], y[..m]);
    }
  }

  lemma Joined(acts: seq<Action>, x: seq<bv8>, y: seq<bv8>, n: nat, m: nat)
    requires n <= |x| && m <= |y| && n + m <= |acts| && (n == |x| || m == 0)
    ensures acts[..n] + acts[n..][..m] == acts[..n + m]
    ensures x[..n] + y[..m] == (x + y)[..n + m]
    ensures acts[n..][m..] == acts[n + m..]
  {}

  lemma FitsRest(dest0: seq<bv8>, all: seq<Action>, src: seq<bv8>, n: nat, dest: seq<bv8>, rest: seq<Action>)
    requires Scattered(dest0, all, src, n, dest, rest) && FitsIn(all, |dest0|)
    ensures FitsIn(rest, |dest|) && |dest| == |dest0|
  {}

  class Scatter {
    var hnum: nat
    var hidx: nat
    var lidx: nat
    var nread: nat
    var isskipping: bool

    ghost predicate Valid(plan: seq<Entry>)
      reads this
    {
      && hnum <= |plan|
      && (hnum < |plan| ==>
            var e := plan[hnum];
            && hidx <= e.hop && nread <= e.acc.nreads
            && (if isskipping then nread + 1 < e.acc.nreads && lidx <= e.acc.skip else lidx <= e.acc.read))
    }

    /** What is left to do. */
    ghost function Rest(plan: seq<Entry>): seq<Action>
      requires Valid(plan)
      reads this
    {
      if hnum == |plan| then []
      else RestOf(plan, hnum, hidx, nread, lidx, isskipping)
    }

    constructor (plan: seq<Entry>)
      ensures Valid(plan) && Rest(plan) == Script(plan)
    {
      hnum, hidx, lidx, nread, isskipping := 0, 0, 0, 0, false;
      new;
      if plan != [] {
        NextRest(plan, 0);
        assert plan[0..] == plan;
      }
    }

    /** Takes in one piece of the source; says whether the plan is finished. */
    method Copy(dest: array<bv8>, src: seq<bv8>, plan: seq<Entry>) returns (done: bool)
      requires Valid(plan) && FitsIn(Rest(plan), dest.Length)
      modifies this, dest
      ensures Valid(plan)
      ensures Scattered(old(dest[..]), old(Rest(plan)), src, Min(|src|, |old(Rest(plan))|), dest[..], Rest(plan))
      ensures done <==> Rest(plan) == []
    {
      ghost var all, dest0 := Rest(plan), dest[..];
      assert Scattered(dest0, all, src, 0, dest[..], Rest(plan));
      var sidx: nat := 0;
      while hnum != |plan|
        invariant Valid(plan) && sidx <= |src|
        invariant Scattered(dest0, all, src, sidx, dest[..], Rest(plan))
        decreases |plan| - hnum
      {
        done, sidx := Hop(src, sidx, plan, dest, dest0, all);
        if done {
          done, sidx := Runs(dest, src, sidx, plan, dest0, all);
        }
        if !done {
          assert |Rest(plan)| == |all| - sidx;
          return;
        }
      }
      done := true;
      assert |Rest(plan)| == |all| - sidx;
    }

    /** The source in pieces, one call of Copy for each.  However it is cut, the destination and
        what is left of the plan are those of one copy of the whole. */
    method CopyAll(dest: array<bv8>, pieces: seq<seq<bv8>>, plan: seq<Entry>) returns (done: bool)
      requires Valid(plan) && FitsIn(Rest(plan), dest.Length)
      modifies this, dest
      ensures Valid(plan)
      ensures Scattered(old(dest[..]), old(Rest(plan)), Flat(pieces), Min(|Flat(pieces)|, |old(Rest(plan))|),
                        dest[..], Rest(plan))
      ensures pieces != [] ==> (done <==> Rest(plan) == [])
    {
      ghost var outcome := AllIn(dest[..], Rest(plan), pieces);
      PiecesDoNotMatter(dest[..], Rest(plan), pieces);
      done := false;
      hide Valid, Rest, Apply;
      for i := 0 to |pieces|
        invariant Valid(plan) && FitsIn(Rest(plan), dest.Length)
        invariant AllIn(dest[..], Rest(plan), pieces[i..]) == outcome
        invariant i > 0 ==> (done <==> Rest(plan) == [])
      {
        ghost var all, dest0 := Rest(plan), dest[..];
        assert pieces[i..][0] == pieces[i] && pieces[i..][1..] == pieces[i + 1..];
        done := Copy(dest, pieces[i], plan);
        FitsRest(dest0, all, pieces[i], Min(|pieces[i]|, |all|), dest[..], Rest(plan));
      }
    }

    /** Finishes the hop, or uses up the piece. */
    method Hop(src: seq<bv8>, sidx: nat, plan: seq<Entry>, dest: array<bv8>, ghost dest0: seq<bv8>, ghost all: seq<Action>)
      returns (done: bool, sidx': nat)
      requires Valid(plan) && hnum < |plan| && Scattered(dest0, all, src, sidx, dest[..], Rest(plan)) && sidx <= |src|
      modifies `hidx
      ensures Valid(plan) && sidx' <= |src|
      ensures Scattered(dest0, all, src, sidx', dest[..], Rest(plan))
      ensures if done then hidx == plan[hnum].hop else sidx' == |src| && Rest(plan) != []
    {
      hide Scattered, RestOf;
      var remain := plan[hnum].hop - hidx;
      var k := if sidx + remain > |src| then |src| - sidx else remain;
      HopRest(plan, hnum, hidx, nread, lidx, isskipping, k);
      ScatterPass(dest0, all, src, sidx, dest[..], k, RestOf(plan, hnum, hidx + k, nread, lidx, isskipping));
      hidx := hidx + k;
      sidx' := sidx + k;
      done := k == remain;
    }

    /** Copies the runs of the pattern up to its end, or uses up the piece. */
    method Runs(dest: array<bv8>, src: seq<bv8>, sidx: nat, plan: seq<Entry>, ghost dest0: seq<bv8>, ghost all: seq<Action>)
      returns (done: bool, sidx': nat)
      requires Valid(plan) && hnum < |plan| && hidx == plan[hnum].hop
      requires Scattered(dest0, all, src, sidx, dest[..], Rest(plan)) && sidx <= |src| && FitsIn(all, dest.Length)
      modifies this, dest
      ensures Valid(plan) && sidx' <= |src|
      ensures Scattered(dest0, all, src, sidx', dest[..], Rest(plan))
      ensures if done then hnum == old(hnum) + 1 else hnum == old(hnum) && sidx' == |src| && Rest(plan) != []
    {
      hide Scattered, FitsIn, Inside, AccRest, Script, Apply, Passes, Puts;
      var acc := plan[hnum].acc;
      sidx' := sidx;
      while nread != acc.nreads
        invariant Valid(plan) && hnum == old(hnum) && hidx == plan[hnum].hop && sidx' <= |src|
        invariant Scattered(dest0, all, src, sidx', dest[..], Rest(plan))
        decreases acc.nreads - nread, if isskipping then 0 else 1
      {
        if isskipping {
          done, sidx' := Gap(dest, src, sidx', plan, dest0, all);
        } else {
          done, sidx' := Run(dest, src, sidx', plan, dest0, all);
        }
        if !done {
          return;
        }
      }
      PatternDone(plan, hnum, lidx, isskipping);
      hnum := hnum + 1;
      hidx := 0;
      lidx := 0;
      nread := 0;
      isskipping := false;
      done := true;
      if hnum < |plan| {
        NextRest(plan, hnum);
      }
    }

    /** Passes over the gap between two runs, or uses up the piece. */
    method Gap(dest: array<bv8>, src: seq<bv8>, sidx: nat, plan: seq<Entry>, ghost dest0: seq<bv8>, ghost all: seq<Action>)
      returns (done: bool, sidx': nat)
      requires Valid(plan) && hnum < |plan| && hidx == plan[hnum].hop && isskipping
      requires Scattered(dest0, all, src, sidx, dest[..], Rest(plan)) && sidx <= |src|
      modifies `lidx, `nread, `isskipping
      ensures Valid(plan) && sidx' <= |src|
      ensures Scattered(dest0, all, src, sidx', dest[..], Rest(plan))
      ensures if done then !isskipping && nread == old(nread) + 1 else sidx' == |src| && Rest(plan) != []
    {
      hide Scattered, Inside;
      var remain := plan[hnum].acc.skip - lidx;
      var k := if sidx + remain > |src| then |src| - sidx else remain;
      GapRest(plan, hnum, nread, lidx, k);
      ScatterPass(dest0, all, src, sidx, dest[..], k, GapLeft(plan, hnum, nread, lidx + k));
      sidx' := sidx + k;
      done := k == remain;
      if done {
        lidx := 0;
        isskipping := false;
        nread := nread + 1;
      } else {
        lidx := lidx + k;
      }
    }

    /** Copies the bytes of a run, or uses up the piece. */
    method Run(dest: array<bv8>, src: seq<bv8>, sidx: nat, plan: seq<Entry>, ghost dest0: seq<bv8>, ghost all: seq<Action>)
      returns (done: bool, sidx': nat)
      requires Valid(plan) && hnum < |plan| && hidx == plan[hnum].hop && !isskipping && nread < plan[hnum].acc.nreads
      requires Scattered(dest0, all, src, sidx, dest[..], Rest(plan)) && sidx <= |src| && FitsIn(all, dest.Length)
      modifies `lidx, `nread, `isskipping, dest
      ensures Valid(plan) && sidx' <= |src|
      ensures Scattered(dest0, all, src, sidx', dest[..], Rest(plan))
      ensures if done then nread == old(nread) + (if isskipping then 0 else 1) else sidx' == |src| && Rest(plan) != []
    {
      hide Scattered, FitsIn, Inside, Apply, Puts, RunAt;
      var acc := plan[hnum].acc;
      var at := RunAt(plan[hnum].dofst, acc, nread) + lidx;
      var remain := acc.read - lidx;
      var k := if sidx + remain > |src| then |src| - sidx else remain;
      RunStep(plan, hnum, nread, lidx, k, dest0, all, src, sidx, dest[..]);
      CopyBytes(dest, at, src[sidx..sidx + k]);
      sidx' := sidx + k;
      done := k == remain;
      if !done {
        lidx := lidx + k;
      } else {
        lidx := 0;
        if nread + 1 < acc.nreads {
          isskipping := true;
        } else {
          nread := nread + 1;
        }
      }
    }
  }

  method CopyBytes(dest: array<bv8>, at: nat, x: seq<bv8>)
    requires at + |x| <= dest.Length || x == []
    modifies dest
    ensures dest[..] == Apply(old(dest[..]), Puts(at, |x|), x)
  {
    forall i | 0 <= i < |x| {
      dest[at + i] := x[i];
    }
    if x != [] {
      ApplyPuts(old(dest[..]), at, x);
    }
  }

  // ---------------------------------------------------------------- where each byte goes

  lemma {:induction false} ScriptPlus(a: seq<Entry>, b: seq<Entry>)
    ensures Script(a + b) == Script(a) + Script(b)
  {
    if a == [] {
      assert a + b == b;
    } else {
      var first := Passes(a[0].hop) + AccRest(a[0].acc, a[0].dofst, 0, 0, false);
      assert (a + b)[1..] == a[1..] + b;
      assert Script(a + b) == first + Script(a[1..] + b);
      assert Script(a) == first + Script(a[1..]);
      ScriptPlus(a[1..], b);
      hide Script, Passes, AccRest;
      Regrouped(first, Script(a[1..]), Script(b), []);
    }
  }

  /** Byte t of a pattern is byte t mod w of run t div w, w being the stride, or falls in a gap. */
  lemma PatternAt(acc: Acc, dofst: nat, n: nat, t: nat)
    requires t < |AccRest(acc, dofst, n, 0, false)|
    ensures var w := acc.read + acc.skip;
            && w > 0
            && AccRest(acc, dofst, n, 0, false)[t]
            == if t % w < acc.read then Put(dofst + (n + t / w) * acc.read + t % w) else Pass
  {
    RunPatternAt(acc, dofst, n, t);
    hide AccRest;
  }

  lemma {:induction false} RunPatternAt(acc: Acc, dofst: nat, n: nat, t: nat)
    requires t < |AccRest(acc, dofst, n, 0, false)|
    ensures var w := acc.read + acc.skip;
            && w > 0
            && AccRest(acc, dofst, n, 0, false)[t]
            == if t % w < acc.read then Put(RunAt(dofst, acc, n + t / w) + t % w) else Pass
    decreases acc.nreads - n
  {
    hide RunAt;
    var w := acc.read + acc.skip;
    var run, rest := Puts(RunAt(dofst, acc, n), acc.read), AccRest(acc, dofst, n + 1, 0, false);
    if n + 1 < acc.nreads {
      assert AccRest(acc, dofst, n, 0, true) == Passes(acc.skip) + rest;
    }
    if t < w {
      Small(t, w);
    } else {
      RunPatternAt(acc, dofst, n + 1, t - w);
      Stride(t, w);
    }
  }

  lemma Small(t: nat, w: nat)
    requires t < w
    ensures t % w == t && t / w == 0
  {}

  lemma Multiples(x: int, w: int)
    requires w > 0
    ensures x >= 1 ==> x * w >= w
    ensures x <= -1 ==> x * w <= -w
  {
    if x >= 1 {
      assert (x - 1) * w >= 0;
    } else if x <= -1 {
      assert (x + 1) * w <= 0;
    }
  }

  lemma Distributes(a: int, b: int, w: int)
    ensures (a - 1 - b) * w == a * w - w - b * w
  {}

  lemma Divides(t: nat, w: nat)
    requires w > 0
    ensures t == (t / w) * w + t % w && 0 <= t % w < w
  {}

  lemma Apart(x: int, w: nat, p: int, r: int, r': int)
    requires w > 0 && p == x * w && p == r' - r && 0 <= r < w && 0 <= r' < w
    ensures x == 0
  {
    Multiples(x, w);
  }

  lemma Stride(t: nat, w: nat)
    requires 0 < w <= t
    ensures (t - w) % w == t % w && (t - w) / w == t / w - 1
  {
    var q, r := t / w, t % w;
    var q', r' := (t - w) / w, (t - w) % w;
    Divides(t, w);
    Divides(t - w, w);
    Distributes(q, q', w);
    Apart(q - 1 - q', w, (q - 1 - q') * w, r, r');
  }

  /** A place the actions do not write to keeps its byte; one they do has the last byte put
      there. */
  lemma {:induction false} ApplyAt(dest: seq<bv8>, acts: seq<Action>, x: seq<bv8>, d: nat, t: nat)
    requires |acts| == |x| && d < |dest| && t <= |acts|
    requires forall i :: t < i < |acts| ==> acts[i] != Put(d)
    requires t < |acts| ==> acts[t] == Put(d)
    ensures t < |acts| ==> Apply(dest, acts, x)[d] == x[t]
    ensures (t == |acts| && forall i :: 0 <= i < |acts| ==> acts[i] != Put(d)) ==> Apply(dest, acts, x)[d] == dest[d]
  {
    if acts != [] {
      var n := |acts| - 1;
      if t < n {
        ApplyAt(dest, acts[..n], x[..n], d, t);
      } else if acts[n] != Put(d) {
        ApplyAt(dest, acts[..n], x[..n], d, n);
      }
    }
  }

  /** The bytes a pattern spans: its runs and the gaps between them. */
  function Span(acc: Acc): nat {
    if acc.nreads == 0 then 0 else acc.nreads * acc.read + (acc.nreads - 1) * acc.skip
  }

  lemma {:induction false} SpanFrom(acc: Acc, dofst: nat, n: nat)
    requires n < acc.nreads
    ensures |AccRest(acc, dofst, n, 0, false)| == (acc.nreads - n) * acc.read + (acc.nreads - n - 1) * acc.skip
    decreases acc.nreads - n
  {
    if n + 1 < acc.nreads {
      assert |AccRest(acc, dofst, n, 0, true)| == acc.skip + |AccRest(acc, dofst, n + 1, 0, false)|;
      SpanFrom(acc, dofst, n + 1);
      var k := acc.nreads - n;
      assert k * acc.read == (k - 1) * acc.read + acc.read;
      assert (k - 1) * acc.skip == (k - 2) * acc.skip + acc.skip;
    }
  }

  lemma PatternLength(acc: Acc, dofst: nat)
    ensures |AccRest(acc, dofst, 0, 0, false)| == Span(acc)
  {
    if acc.nreads > 0 { SpanFrom(acc, dofst, 0); }
  }

  /** The bytes a plan takes in. */
  function Extent(plan: seq<Entry>): nat {
    if plan == [] then 0 else plan[0].hop + Span(plan[0].acc) + Extent(plan[1..])
  }

  lemma {:induction false} PlanLength(plan: seq<Entry>)
    ensures |Script(plan)| == Extent(plan)
  {
    if plan != [] {
      PatternLength(plan[0].acc, plan[0].dofst);
      PlanLength(plan[1..]);
    }
  }

  /** Where byte t of the pattern of entry h is in the source. */
  function SourceOf(plan: seq<Entry>, h: nat, t: nat): nat
    requires h < |plan|
  {
    Extent(plan[..h]) + plan[h].hop + t
  }

  /** Where byte t of a pattern lies once its runs are laid end to end: t mod w in run t div w,
      w being the stride. */
  function Place(acc: Acc, t: nat): nat
    requires acc.read + acc.skip > 0
  {
    (t / (acc.read + acc.skip)) * acc.read + t % (acc.read + acc.skip)
  }

  /** Byte t of the pattern of entry h is in a run, and goes to place d. */
  predicate GoesTo(plan: seq<Entry>, h: nat, t: nat, d: nat) {
    && h < |plan| && t < Span(plan[h].acc)
    && var acc := plan[h].acc;
       var w := acc.read + acc.skip;
       w > 0 && t % w < acc.read && d == plan[h].dofst + Place(acc, t)
  }

  /** It is the last byte of the source that goes there. */
  ghost predicate LastTo(plan: seq<Entry>, h: nat, t: nat, d: nat) {
    && GoesTo(plan, h, t, d)
    && forall h', t' :: GoesTo(plan, h', t', d) ==> SourceOf(plan, h', t') <= SourceOf(plan, h, t)
  }

  /** Entry h of a plan takes byte t of its pattern from where the formula says. */
  lemma ScatterFormula(plan: seq<Entry>, h: nat, t: nat)
    requires h < |plan| && t < Span(plan[h].acc)
    ensures var e := plan[h];
            var w := e.acc.read + e.acc.skip;
            var at := SourceOf(plan, h, t);
            && w > 0 && at < |Script(plan)|
            && Script(plan)[at] == if t % w < e.acc.read then Put(e.dofst + Place(e.acc, t)) else Pass
  {
    PatternPlace(plan[h].acc, plan[h].dofst, t);
    hide *;
    PatternLength(plan[h].acc, plan[h].dofst);
    PlanLength(plan[..h]);
    AtEntry(plan, h, t);
    SourceIs(plan, h, t);
  }

  lemma SourceIs(plan: seq<Entry>, h: nat, t: nat)
    requires h < |plan|
    ensures SourceOf(plan, h, t) == Extent(plan[..h]) + plan[h].hop + t
  {}

  lemma PatternPlace(acc: Acc, dofst: nat, t: nat)
    requires t < Span(acc)
    ensures |AccRest(acc, dofst, 0, 0, false)| == Span(acc)
    ensures var w := acc.read + acc.skip;
            && w > 0
            && AccRest(acc, dofst, 0, 0, false)[t] == if t % w < acc.read then Put(dofst + Place(acc, t)) else Pass
  {
    hide AccRest, Span;
    PatternLength(acc, dofst);
    PatternAt(acc, dofst, 0, t);
  }

  lemma AtEntry(plan: seq<Entry>, h: nat, t: nat)
    requires h < |plan| && t < |AccRest(plan[h].acc, plan[h].dofst, 0, 0, false)|
    ensures var at := |Script(plan[..h])| + plan[h].hop + t;
            at < |Script(plan)| && Script(plan)[at] == AccRest(plan[h].acc, plan[h].dofst, 0, 0, false)[t]
  {
    hide AccRest, Script, Passes;
    ScriptPlus(plan[..h], plan[h..]);
    assert plan == plan[..h] + plan[h..];
    NextEntry(plan, h);
    Amid(Script(plan[..h]), Passes(plan[h].hop), AccRest(plan[h].acc, plan[h].dofst, 0, 0, false), Script(plan[h + 1..]), t);
  }

  lemma Amid<T>(a: seq<T>, b: seq<T>, c: seq<T>, d: seq<T>, t: nat)
    requires t < |c|
    ensures var s := a + (b + (c + d)); |a| + |b| + t < |s| && s[|a| + |b| + t] == c[t]
  {}

  /** Nothing else of the source is copied: what goes to d is a byte of some run. */
  lemma {:induction false} PutComesFrom(plan: seq<Entry>, i: nat, d: nat) returns (h: nat, t: nat)
    requires i < |Script(plan)| && Script(plan)[i] == Put(d)
    ensures GoesTo(plan, h, t, d) && i == SourceOf(plan, h, t)
    decreases |plan|
  {
    var acc, hop := plan[0].acc, plan[0].hop;
    FirstEntry(plan);
    hide Script, Passes, AccRest, GoesTo, SourceOf;
    if i < hop + Span(acc) {
      h, t := 0, i - hop;
      PutHere(plan, t, d);
    } else {
      h, t := PutComesFrom(plan[1..], i - hop - Span(acc), d);
      EntryLater(plan, h, t, d);
      h := h + 1;
    }
  }

  lemma FirstEntry(plan: seq<Entry>)
    requires plan != []
    ensures var e := plan[0];
            var c := AccRest(e.acc, e.dofst, 0, 0, false);
            && |c| == Span(e.acc) && |Script(plan)| == e.hop + Span(e.acc) + |Script(plan[1..])|
            && (forall i :: 0 <= i < e.hop ==> Script(plan)[i] == Pass)
            && (forall t :: 0 <= t < Span(e.acc) ==> Script(plan)[e.hop + t] == c[t])
            && (forall k :: 0 <= k < |Script(plan[1..])| ==> Script(plan)[e.hop + Span(e.acc) + k] == Script(plan[1..])[k])
  {
    PatternLength(plan[0].acc, plan[0].dofst);
    hide AccRest, Span;
  }

  lemma PutHere(plan: seq<Entry>, t: nat, d: nat)
    requires plan != [] && t < Span(plan[0].acc)
    requires |AccRest(plan[0].acc, plan[0].dofst, 0, 0, false)| == Span(plan[0].acc)
    requires AccRest(plan[0].acc, plan[0].dofst, 0, 0, false)[t] == Put(d)
    ensures GoesTo(plan, 0, t, d) && SourceOf(plan, 0, t) == plan[0].hop + t
  {
    PatternPlace(plan[0].acc, plan[0].dofst, t);
    assert plan[..0] == [];
    hide AccRest, Span, Place;
  }

  lemma EntryLater(plan: seq<Entry>, h: nat, t: nat, d: nat)
    requires plan != [] && GoesTo(plan[1..], h, t, d)
    ensures GoesTo(plan, h + 1, t, d)
    ensures SourceOf(plan, h + 1, t) == plan[0].hop + Span(plan[0].acc) + SourceOf(plan[1..], h, t)
  {
    assert plan[1..][..h] == plan[..h + 1][1..];
    hide Span, Place;
  }

  /** A copy that has been finished, in one piece or in many: each place of the destination
      holds the byte of the source that the formulas send there, the last of them if there are
      several, and its old byte if there is none. */
  lemma FinishedScatter(plan: seq<Entry>, dest0: seq<bv8>, src: seq<bv8>, n: nat, dest: seq<bv8>, d: nat)
    requires Scattered(dest0, Script(plan), src, n, dest, []) && d < |dest0|
    ensures |dest| == |dest0| && n == Extent(plan) <= |src|
    ensures forall h, t :: GoesTo(plan, h, t, d) ==> SourceOf(plan, h, t) < Extent(plan)
    ensures forall h, t :: LastTo(plan, h, t, d) ==> dest[d] == src[SourceOf(plan, h, t)]
    ensures (forall h, t :: !GoesTo(plan, h, t, d)) ==> dest[d] == dest0[d]
  {
    var acts := Script(plan);
    PlanLength(plan);
    assert |acts[n..]| == |acts| - n;
    assert n == |acts| <= |src| && acts[..n] == acts && dest == Apply(dest0, acts, src[..n]);
    hide Scattered, Apply, Script, SourceOf, Span, RunAt;
    forall i | 0 <= i < |acts| && acts[i] == Put(d)
      ensures exists h, t :: GoesTo(plan, h, t, d) && i == SourceOf(plan, h, t)
    {
      var h, t := PutComesFrom(plan, i, d);
    }
    forall h, t | GoesTo(plan, h, t, d)
      ensures SourceOf(plan, h, t) < n && acts[SourceOf(plan, h, t)] == Put(d)
    {
      GoesToPuts(plan, h, t, d);
    }
    forall h, t | LastTo(plan, h, t, d)
      ensures dest[d] == src[SourceOf(plan, h, t)]
    {
      ApplyAt(dest0, acts, src[..n], d, SourceOf(plan, h, t));
    }
    if forall h, t :: !GoesTo(plan, h, t, d) {
      ApplyAt(dest0, acts, src[..n], d, n);
    }
  }

  /** Where byte j of the runs of entry h, laid end to end, is in the source. */
  function ByteOf(plan: seq<Entry>, h: nat, j: nat): nat
    requires h < |plan| && plan[h].acc.read > 0
  {
    Extent(plan[..h]) + plan[h].hop + Strided(plan[h].acc, j)
  }

  /** Byte j of the runs of a pattern is byte j mod read of run j div read, at this place of it. */
  function Strided(acc: Acc, j: nat): nat
    requires acc.read > 0
  {
    (j / acc.read) * (acc.read + acc.skip) + j % acc.read
  }

  /** It is the last byte of the runs that goes where it goes. */
  ghost predicate LastByte(plan: seq<Entry>, h: nat, j: nat)
    requires h < |plan| && plan[h].acc.read > 0
  {
    forall h', j' :: ReachesTo(plan, h', j', plan[h].dofst + j) ==> ByteOf(plan, h', j') <= ByteOf(plan, h, j)
  }

  lemma QuotRem(q: nat, r: nat, w: nat)
    requires r < w
    ensures (q * w + r) / w == q && (q * w + r) % w == r
  {
    var q', r' := (q * w + r) / w, (q * w + r) % w;
    Divides(q * w + r, w);
    Apart(q - q', w, (q - q') * w, r, r') by { assert (q - q') * w == q * w - q' * w; }
  }

  lemma NotNegative(a: int, w: int)
    requires a >= 0 && w >= 0
    ensures a * w >= 0
  {}

  lemma QuotBelow(x: nat, m: nat, w: nat)
    requires w > 0 && x < m * w
    ensures x / w < m
  {
    Divides(x, w);
    var a := x / w - m;
    assert a * w == (x / w) * w - m * w < 0;
    if a >= 0 { NotNegative(a, w); }
  }

  lemma UpTo(q: nat, m: nat, r: nat, w: nat)
    requires q < m && r < w
    ensures q * w + r < m * w
  {
    NotNegative(m - 1 - q, w);
    assert (m - 1 - q) * w == m * w - w - q * w;
  }

  /** The span is a stride for each run, without the gap after the last. */
  lemma SpanStrides(acc: Acc)
    requires acc.nreads > 0
    ensures Span(acc) == acc.nreads * (acc.read + acc.skip) - acc.skip
    ensures Span(acc) == (acc.nreads - 1) * (acc.read + acc.skip) + acc.read
  {
    var m := acc.nreads;
    assert m * (acc.read + acc.skip) == m * acc.read + m * acc.skip;
    assert (m - 1) * (acc.read + acc.skip) == (m - 1) * acc.read + (m - 1) * acc.skip;
    assert m * acc.skip == (m - 1) * acc.skip + acc.skip;
    assert m * acc.read == (m - 1) * acc.read + acc.read;
  }

  lemma RunByte(acc: Acc, j: nat)
    requires acc.read > 0 && j < acc.nreads * acc.read
    ensures var w := acc.read + acc.skip;
            var t := Strided(acc, j);
            t < Span(acc) && t / w == j / acc.read && t % w == j % acc.read
  {
    var q, r, w := j / acc.read, j % acc.read, acc.read + acc.skip;
    QuotBelow(j, acc.nreads, acc.read);
    QuotRem(q, r, w);
    SpanStrides(acc);
    NotNegative(acc.nreads - 1 - q, w);
    assert (acc.nreads - 1 - q) * w == (acc.nreads - 1) * w - q * w;
  }

  /** And back. */
  lemma PatternByte(acc: Acc, t: nat)
    requires t < Span(acc) && acc.read + acc.skip > 0 && t % (acc.read + acc.skip) < acc.read
    ensures var w := acc.read + acc.skip;
            var j := Place(acc, t);
            j < acc.nreads * acc.read && j / acc.read == t / w && j % acc.read == t % w
  {
    var w, m := acc.read + acc.skip, acc.nreads;
    SpanStrides(acc);
    hide Span;
    QuotBelow(t, m, w);
    QuotRem(t / w, t % w, acc.read);
    UpTo(t / w, m, t % w, acc.read);
  }

  /** A copy that has been finished, byte by byte of its runs: in the destination the runs of an
      entry lie end to end from its offset, in the source they are a stride apart. */
  lemma CopiedRuns(plan: seq<Entry>, dest0: seq<bv8>, src: seq<bv8>, n: nat, dest: seq<bv8>, h: nat, j: nat)
    requires Scattered(dest0, Script(plan), src, n, dest, [])
    requires h < |plan| && j < plan[h].acc.nreads * plan[h].acc.read && plan[h].dofst + j < |dest0|
    requires plan[h].acc.read > 0
    requires LastByte(plan, h, j)
    ensures |dest| == |dest0| && ByteOf(plan, h, j) < |src|
    ensures dest[plan[h].dofst + j] == src[ByteOf(plan, h, j)]
  {
    hide *;
    LastReaches(plan, h, j);
    FinishedScatter(plan, dest0, src, n, dest, plan[h].dofst + j);
    ReachesGoes(plan, h, j);
  }

  lemma LastReaches(plan: seq<Entry>, h: nat, j: nat)
    requires h < |plan| && plan[h].acc.read > 0 && j < plan[h].acc.nreads * plan[h].acc.read
    requires LastByte(plan, h, j)
    ensures LastTo(plan, h, Strided(plan[h].acc, j), plan[h].dofst + j)
  {
    var e, d := plan[h], plan[h].dofst + j;
    var t := Strided(e.acc, j);
    ReachesGoes(plan, h, j);
    hide SourceOf, ByteOf, ReachesTo, Strided, Span, Place;
    forall h', t' | GoesTo(plan, h', t', d)
      ensures SourceOf(plan, h', t') <= SourceOf(plan, h, t)
    {
      GoesToReaches(plan, h', t', d);
    }
  }

  lemma ReachesGoes(plan: seq<Entry>, h: nat, j: nat)
    requires h < |plan| && plan[h].acc.read > 0 && j < plan[h].acc.nreads * plan[h].acc.read
    ensures var e := plan[h];
            var t := Strided(e.acc, j);
            GoesTo(plan, h, t, e.dofst + j) && SourceOf(plan, h, t) == ByteOf(plan, h, j)
  {
    RunByte(plan[h].acc, j);
    Divides(j, plan[h].acc.read);
    hide Span, Extent;
  }

  /** Byte j of the runs of entry h goes to place d. */
  predicate ReachesTo(plan: seq<Entry>, h: nat, j: nat, d: nat) {
    h < |plan| && plan[h].acc.read > 0 && j < plan[h].acc.nreads * plan[h].acc.read && d == plan[h].dofst + j
  }

  lemma GoesToReaches(plan: seq<Entry>, h: nat, t: nat, d: nat)
    requires GoesTo(plan, h, t, d)
    ensures var acc := plan[h].acc;
            var j := Place(acc, t);
            ReachesTo(plan, h, j, d) && ByteOf(plan, h, j) == SourceOf(plan, h, t)
  {
    PatternByte(plan[h].acc, t);
    Divides(t, plan[h].acc.read + plan[h].acc.skip);
  }

  lemma GoesToPuts(plan: seq<Entry>, h: nat, t: nat, d: nat)
    requires GoesTo(plan, h, t, d)
    ensures SourceOf(plan, h, t) < |Script(plan)| && Script(plan)[SourceOf(plan, h, t)] == Put(d)
  {
    ScatterFormula(plan, h, t);
  }
}
