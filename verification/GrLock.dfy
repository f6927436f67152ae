/** The granularity lock: holder counts per mode and a list of waiters, under a mutex.  Each
    method is one stretch of code between taking the mutex and giving it up, at an unlock or
    at a wait, so any interleaving of threads is a sequence of calls. */
module GrLock {

  datatype Mode = IS | IX | S | SIX | X

  const MODES: seq<Mode> := [IS, IX, S, SIX, X]

  /** The compatibility matrix. */
  predicate Compatible(a: Mode, b: Mode) {
    match a
    case IS => b != X
    case IX => b == IS || b == IX
    case S => b == IS || b == S
    case SIX => b == IS
    case X => false
  }

  // ---------------------------------------------------------------- what the modes mean

  datatype Access = Read | Write

  /** What a grant of the mode lets its holder do to everything under the lock, asking nobody. */
  function Whole(m: Mode): set<Access> {
    match m
    case IS => {}
    case IX => {}
    case S => {Read}
    case SIX => {Read}
    case X => {Read, Write}
  }

  /** What it lets its holder do further down, where finer locks will be asked for first. */
  function Below(m: Mode): set<Access> {
    match m
    case IS => {Read}
    case IX => {Read, Write}
    case S => {}
    case SIX => {Read, Write}
    case X => {}
  }

  predicate Conflict(a: Access, b: Access) {
    a == Write || b == Write
  }

  /** Nothing a does to the whole can meet a conflicting access of b, wherever b has it. */
  predicate Harmless(a: Mode, b: Mode) {
    forall x, y :: x in Whole(a) && y in Whole(b) + Below(b) ==> !Conflict(x, y)
  }

  /** The matrix is what the modes mean: two modes exclude each other exactly if what one may do
      to the whole conflicts with something the other may do anywhere; what both only intend
      further down is left to the locks there. */
  lemma CompatibleMeans(a: Mode, b: Mode)
    ensures Compatible(a, b) <==> Harmless(a, b) && Harmless(b, a)
  {
    var all := [IS, IX, S, SIX, X];
    assert a in all && b in all;
    assert Read in Whole(S) && Read in Whole(SIX) && Read in Whole(X) && Write in Whole(X);
    assert Read in Below(IS) && Read in Below(IX) && Read in Below(SIX);
    assert Write in Below(IX) && Write in Below(SIX);
    if !Compatible(a, b) {
      Collide(a, b);
    }
  }

  lemma Collide(a: Mode, b: Mode)
    requires !Compatible(a, b)
    ensures !Harmless(a, b) || !Harmless(b, a)
  {
    var x := if a == X then Write else Read;
    var y := if b == X || b == IX || b == SIX then Write else Read;
    if x in Whole(a) && y in Whole(b) + Below(b) && Conflict(x, y) {
    } else {
      var u := if b == X then Write else Read;
      var v := if a == X || a == IX || a == SIX then Write else Read;
      assert u in Whole(b) && v in Whole(a) + Below(a) && Conflict(u, v);
    }
  }

  /** A grant of mode can do no harm beside any grant that is out. */
  ghost predicate Admissible(grants: multiset<Mode>, mode: Mode) {
    forall m :: m in grants ==> Harmless(mode, m) && Harmless(m, mode)
  }

  lemma FitsMeans(grants: multiset<Mode>, mode: Mode)
    ensures Fits(grants, mode) <==> Admissible(grants, mode)
  {
    forall m
      ensures Compatible(mode, m) <==> Harmless(mode, m) && Harmless(m, mode)
    {
      CompatibleMeans(mode, m);
    }
  }

  /** Whoever may read all of it, and whoever may write any of it, are never granted together;
      nor is anyone beside whoever may write all of it. */
  lemma ReadersAndWriters(grants: multiset<Mode>, a: Mode, b: Mode)
    requires Pairwise(grants) && a in grants && b in grants - multiset{a}
    ensures !((a == S || a == SIX || a == X) && (b == IX || b == SIX || b == X))
    ensures a != X && b != X
  {
    CompatibleMeans(a, b);
    assert Read in Whole(S) && Read in Whole(SIX) && Read in Whole(X) && Write in Whole(X);
    assert Write in Below(IX) && Write in Below(SIX);
    assert Compatible(a, b);
  }

  function Index(m: Mode): (i: nat)
    ensures i < 5 && MODES[i] == m
  {
    match m
    case IS => 0
    case IX => 1
    case S => 2
    case SIX => 3
    case X => 4
  }

  datatype Waiter = Waiter(id: nat, mode: Mode)

  /** A new grant of mode fits every grant that is out. */
  predicate Fits(grants: multiset<Mode>, mode: Mode) {
    forall m :: m in grants ==> Compatible(mode, m)
  }

  /** Any two distinct grants are compatible. */
  predicate Pairwise(grants: multiset<Mode>) {
    forall a, b :: a in grants && b in grants - multiset{a} ==> Compatible(a, b)
  }

  lemma GrantKeepsPairwise(grants: multiset<Mode>, mode: Mode)
    requires Pairwise(grants) && Fits(grants, mode)
    ensures Pairwise(grants + multiset{mode})
  {
    var g := grants + multiset{mode};
    forall a, b | a in g && b in g - multiset{a}
      ensures Compatible(a, b)
    {
      Symmetric(a, b);
      if a in grants && b in grants - multiset{a} {
      } else if a == mode {
        assert b in grants;
      } else {
        assert b == mode;
      }
    }
  }

  lemma PairwiseShrinks(grants: multiset<Mode>, mode: Mode)
    requires Pairwise(grants)
    ensures Pairwise(grants - multiset{mode})
  {
    var g := grants - multiset{mode};
    forall a, b | a in g && b in g - multiset{a}
      ensures Compatible(a, b)
    {
      assert b in grants - multiset{a};
    }
  }

  lemma GrantKeepsUnfit(grants: multiset<Mode>, mode: Mode)
    ensures forall m :: !Fits(grants, m) ==> !Fits(grants + multiset{mode}, m)
  {
    forall m | !Fits(grants, m)
      ensures !Fits(grants + multiset{mode}, m)
    {
      var k :| k in grants && !Compatible(m, k);
      assert k in grants + multiset{mode};
    }
  }

  lemma CountedOne(grants: multiset<Mode>, mode: Mode, m: Mode)
    ensures (grants + multiset{mode})[m] == grants[m] + if m == mode then 1 else 0
    ensures mode in grants ==> (grants - multiset{mode})[m] == grants[m] - if m == mode then 1 else 0
  {}

  lemma Counted(grants: multiset<Mode>, mode: Mode)
    ensures var g := grants + multiset{mode};
            && g[IS] == grants[IS] + (if mode == IS then 1 else 0)
            && g[IX] == grants[IX] + (if mode == IX then 1 else 0)
            && g[S] == grants[S] + (if mode == S then 1 else 0)
            && g[SIX] == grants[SIX] + (if mode == SIX then 1 else 0)
            && g[X] == grants[X] + (if mode == X then 1 else 0)
    ensures mode in grants ==>
              var g := grants - multiset{mode};
              && g[IS] == grants[IS] - (if mode == IS then 1 else 0)
              && g[IX] == grants[IX] - (if mode == IX then 1 else 0)
              && g[S] == grants[S] - (if mode == S then 1 else 0)
              && g[SIX] == grants[SIX] - (if mode == SIX then 1 else 0)
              && g[X] == grants[X] - (if mode == X then 1 else 0)
  {
    CountedOne(grants, mode, IS);
    CountedOne(grants, mode, IX);
    CountedOne(grants, mode, S);
    CountedOne(grants, mode, SIX);
    CountedOne(grants, mode, X);
  }

  lemma Symmetric(a: Mode, b: Mode)
    ensures Compatible(a, b) == Compatible(b, a)
  {}

  /** What the holder counts say: how many grants of each mode are out. */
  ghost predicate Counts(counts: seq<nat>, grants: multiset<Mode>)
    requires |counts| == 5
  {
    && counts[0] == grants[IS] && counts[1] == grants[IX] && counts[2] == grants[S]
    && counts[3] == grants[SIX] && counts[4] == grants[X]
  }

  lemma CountUp(counts: seq<nat>, grants: multiset<Mode>, mode: Mode)
    requires |counts| == 5 && Counts(counts, grants)
    ensures Counts(counts[Index(mode) := counts[Index(mode)] + 1], grants + multiset{mode})
  {
    Counted(grants, mode);
  }

  lemma CountDown(counts: seq<nat>, grants: multiset<Mode>, mode: Mode)
    requires |counts| == 5 && Counts(counts, grants) && mode in grants
    ensures counts[Index(mode)] > 0
    ensures Counts(counts[Index(mode) := counts[Index(mode)] - 1], grants - multiset{mode})
  {
    Counted(grants, mode);
  }

  lemma CountAt(counts: seq<nat>, grants: multiset<Mode>, m: Mode)
    requires |counts| == 5 && Counts(counts, grants)
    ensures counts[Index(m)] == grants[m]
  {}

  /** The lists without duplicates of ids. */
  predicate Distinct(ws: seq<Waiter>) {
    forall i, j :: 0 <= i < j < |ws| ==> ws[i].id != ws[j].id
  }

  function Without(ws: seq<Waiter>, id: nat): (r: seq<Waiter>)
    ensures forall w :: w in r ==> w in ws
    ensures Distinct(ws) ==> (forall w :: w in r <==> w in ws && w.id != id) && Distinct(r)
    ensures |r| <= |ws|
  {
    if ws == [] then []
    else if ws[0].id == id then ws[1..]
    else [ws[0]] + Without(ws[1..], id)
  }

  class Lock {
    const holderCounts: array<nat>
    var waiters: seq<Waiter>
    /** The grants that are out, and the waiters signalled since they went to wait. */
    ghost var grants: multiset<Mode>
    ghost var signalled: set<nat>

    /** The counts are the grants, the grants are pairwise compatible, and no wakeup is lost:
        a waiter that has not been signalled could not be granted. */
    ghost predicate Valid()
      reads this, holderCounts
    {
      && CountsOk()
      && Pairwise(grants)
      && Distinct(waiters)
      && forall w :: w in waiters && w.id !in signalled ==> !Fits(grants, w.mode)
    }

    ghost predicate CountsOk()
      reads this, holderCounts
    {
      holderCounts.Length == 5 && Counts(holderCounts[..], grants)
    }

    constructor ()
      ensures Valid() && grants == multiset{} && waiters == [] && fresh(holderCounts)
    {
      holderCounts := new nat[5](_ => 0);
      waiters, grants, signalled := [], multiset{}, {};
    }

    method IsCompatible(mode: Mode) returns (b: bool)
      requires CountsOk()
      ensures b <==> Fits(grants, mode)
      ensures b <==> Admissible(grants, mode)
    {
      FitsMeans(grants, mode);
      hide Admissible;
      var i := 0;
      while i < 5
        invariant i <= 5
        invariant forall k :: 0 <= k < i && MODES[k] in grants ==> Compatible(mode, MODES[k])
      {
        CountAt(holderCounts[..], grants, MODES[i]);
        if holderCounts[i] > 0 && !Compatible(mode, MODES[i]) {
          return false;
        }
        i := i + 1;
      }
      forall m | m in grants
        ensures Compatible(mode, m)
      {
        assert MODES[Index(m)] == m;
      }
      return true;
    }

    /** Signals every waiter that could be granted now. */
    method WakeWaiters()
      requires CountsOk()
      modifies `signalled
      ensures forall id :: id in signalled <==>
                id in old(signalled) || exists w :: w in waiters && w.id == id && Fits(grants, w.mode)
    {
      var i := 0;
      while i < |waiters|
        invariant i <= |waiters|
        invariant forall id :: id in signalled <==>
                    id in old(signalled) || exists k :: 0 <= k < i && waiters[k].id == id && Fits(grants, waiters[k].mode)
      {
        var b := IsCompatible(waiters[i].mode);
        if b {
          signalled := signalled + {waiters[i].id};
        }
        i := i + 1;
      }
    }

    method Grant(mode: Mode)
      requires Valid() && Fits(grants, mode)
      modifies this`grants, holderCounts
      ensures Valid() && grants == old(grants) + multiset{mode}
    {
      GrantKeepsPairwise(grants, mode);
      GrantKeepsUnfit(grants, mode);
      CountUp(holderCounts[..], grants, mode);
      hide Pairwise, Fits, Distinct, Counts, Index;
      ghost var was := holderCounts[..];
      holderCounts[Index(mode)] := holderCounts[Index(mode)] + 1;
      assert holderCounts[..] == was[Index(mode) := was[Index(mode)] + 1];
      grants := grants + multiset{mode};
    }

    /** gr_lock up to the grant or the wait: a waiter goes to the front of the list. */
    method LockOrWait(id: nat, mode: Mode) returns (granted: bool)
      requires Valid() && forall w :: w in waiters ==> w.id != id
      modifies this, holderCounts
      ensures Valid()
      ensures granted <==> Fits(old(grants), mode)
      ensures granted <==> Admissible(old(grants), mode)
      ensures if granted then grants == old(grants) + multiset{mode} && waiters == old(waiters)
              else grants == old(grants) && waiters == [Waiter(id, mode)] + old(waiters) && id !in signalled
    {
      granted := IsCompatible(mode);
      if granted {
        Grant(mode);
      } else {
        waiters := [Waiter(id, mode)] + waiters;
        signalled := signalled - {id};
      }
    }

    /** gr_lock from the end of a wait, signalled or spurious: the waiter leaves the list and
        looks again. */
    method WakeUp(id: nat, mode: Mode) returns (granted: bool)
      requires Valid() && Waiter(id, mode) in waiters
      modifies this, holderCounts
      ensures Valid()
      ensures granted <==> Fits(old(grants), mode)
      ensures granted <==> Admissible(old(grants), mode)
      ensures if granted then grants == old(grants) + multiset{mode} && waiters == Without(old(waiters), id)
              else grants == old(grants) && waiters == [Waiter(id, mode)] + Without(old(waiters), id)
    {
      waiters := Without(waiters, id);
      granted := LockOrWait(id, mode);
    }

    /** gr_trylock, once it has the mutex. */
    method TryLock(mode: Mode) returns (granted: bool)
      requires Valid()
      modifies this`grants, holderCounts
      ensures Valid()
      ensures granted <==> Fits(old(grants), mode)
      ensures granted <==> Admissible(old(grants), mode)
      ensures grants == if granted then old(grants) + multiset{mode} else old(grants)
    {
      granted := IsCompatible(mode);
      if granted {
        Grant(mode);
      }
    }

    method Ungrant(mode: Mode)
      requires CountsOk() && Pairwise(grants) && mode in grants
      modifies this`grants, holderCounts
      ensures CountsOk() && Pairwise(grants) && grants == old(grants) - multiset{mode}
    {
      PairwiseShrinks(grants, mode);
      CountDown(holderCounts[..], grants, mode);
      hide Pairwise, Counts, Index;
      ghost var left, was := grants - multiset{mode}, holderCounts[..];
      holderCounts[Index(mode)] := holderCounts[Index(mode)] - 1;
      assert holderCounts[..] == was[Index(mode) := was[Index(mode)] - 1];
      grants := left;
    }

    /** In every state of the lock, readers of the whole and writers anywhere in it are apart. */
    lemma NeverTogether()
      requires Valid()
      ensures forall a, b :: a in grants && b in grants - multiset{a} ==>
                !((a == S || a == SIX || a == X) && (b == IX || b == SIX || b == X)) && a != X && b != X
    {
      hide Pairwise;
      forall a, b | a in grants && b in grants - multiset{a}
        ensures !((a == S || a == SIX || a == X) && (b == IX || b == SIX || b == X)) && a != X && b != X
      {
        ReadersAndWriters(grants, a, b);
      }
    }

    method AnyHolders() returns (any: bool)
      requires CountsOk()
      ensures any <==> grants != multiset{}
    {
      var i := 0;
      while i < 5
        invariant i <= 5
        invariant forall k :: 0 <= k < i ==> MODES[k] !in grants
      {
        CountAt(holderCounts[..], grants, MODES[i]);
        if holderCounts[i] > 0 {
          return true;
        }
        i := i + 1;
      }
      forall m
        ensures m !in grants
      {
        assert MODES[Index(m)] == m;
      }
      assert grants == multiset{};
      return false;
    }

    /** Gives a grant back and signals whoever can go on; answers whether nobody is left. */
    method Unlock(mode: Mode) returns (isLast: bool)
      requires Valid()
      modifies this`grants, this`signalled, holderCounts
      ensures Valid() && grants == old(grants) - multiset{mode}
      ensures isLast <==> mode in old(grants) && grants == multiset{} && waiters == []
      ensures mode in old(grants) ==>
                forall w :: w in waiters && Fits(grants, w.mode) ==> w.id in signalled
    {
      hide Pairwise, Fits, Distinct, Counts;
      isLast := false;
      CountAt(holderCounts[..], grants, mode);
      if holderCounts[Index(mode)] > 0 {
        Ungrant(mode);
        var anyHolders := AnyHolders();
        isLast := !anyHolders && waiters == [];
        WakeWaiters();
      } else {
        assert grants - multiset{mode} == grants;
      }
    }
  }

  /** An exclusive grant stands alone, and intention modes share only as the matrix says. */
  lemma ExclusiveAlone(grants: multiset<Mode>)
    requires Pairwise(grants) && X in grants
    ensures grants == multiset{X}
  {
    forall m
      ensures grants[m] == multiset{X}[m]
    {
      assert !Compatible(X, m);
      assert m !in grants - multiset{X};
    }
  }
}
