/** The shared / pending / exclusive latch: one atomic word, and threads that reach it only
    through atomic loads, compare-exchanges, a fetch-sub and stores.  Every interleaving of
    those single steps by any number of threads below the count limit is a run. */
module SpxLatch {

  const PENDING: nat := 0x8000_0000
  const COUNT_MASK: nat := 0xFFFF_FFFF_7FFF_FFFF

  /** The exclusive word, all ones: 64 bits wide where uint_fast32_t is, 32 otherwise. */
  predicate ExclusiveWord(x: nat) {
    x == 0xFFFF_FFFF || x == 0xFFFF_FFFF_FFFF_FFFF
  }

  predicate IsPending(v: nat) {
    (v / PENDING) % 2 == 1
  }

  /** v & COUNT_MASK */
  function Count(v: nat): (c: nat) {
    if IsPending(v) then v - PENDING else v
  }

  predicate IsExclusive(v: nat) {
    Count(v) == COUNT_MASK
  }

  predicate NoSharedLeft(v: nat) {
    Count(v) == 0
  }

  /** v | PENDING */
  function WithPending(v: nat): nat {
    if IsPending(v) then v else v + PENDING
  }

  // ---------------------------------------------------------------- threads and steps

  /** Where a thread is: outside, before the load of a loop it has entered and will not leave
      without the latch, between that load and the compare-exchange, draining, or holding. */
  datatype Pc =
    | Outside
    | WantShared
    | SharedLoaded(e: nat)
    | Shared
    | WantExclusive
    | ExclusiveLoaded(e: nat)
    | Draining
    | DrainLoaded(e: nat)
    | Exclusive
    | Upgrading
    | UpgradeLoaded(e: nat)

  datatype Sys = Sys(word: nat, pcs: map<nat, Pc>)

  predicate At(s: Sys, t: nat, s': Sys, word: nat, pc: Pc) {
    t in s.pcs && s' == Sys(word, s.pcs[t := pc])
  }

  // a call of lock_s, lock_x or upgrade_s_x
  predicate Calls(s: Sys, t: nat, s': Sys) {
    t in s.pcs &&
    match s.pcs[t]
    case Outside => At(s, t, s', s.word, WantShared) || At(s, t, s', s.word, WantExclusive)
    case Shared => At(s, t, s', s.word, Upgrading)
    case _ => false
  }

  // lock_s
  predicate LoadShared(s: Sys, t: nat, s': Sys) {
    t in s.pcs && s.pcs[t].WantShared? && !IsPending(s.word) && !IsExclusive(s.word)
    && At(s, t, s', s.word, SharedLoaded(s.word))
  }

  predicate CasShared(s: Sys, t: nat, s': Sys) {
    t in s.pcs && s.pcs[t].SharedLoaded? && s.word == s.pcs[t].e && At(s, t, s', s.pcs[t].e + 1, Shared)
  }

  // unlock_s
  predicate UnlockShared(s: Sys, t: nat, s': Sys) {
    t in s.pcs && s.pcs[t].Shared? && s.word > 0 && At(s, t, s', s.word - 1, Outside)
  }

  // lock_x
  predicate LoadExclusive(s: Sys, t: nat, s': Sys) {
    t in s.pcs && s.pcs[t].WantExclusive? && !IsPending(s.word) && At(s, t, s', s.word, ExclusiveLoaded(s.word))
  }

  predicate CasExclusive(s: Sys, t: nat, s': Sys) {
    t in s.pcs && s.pcs[t].ExclusiveLoaded? && s.word == s.pcs[t].e
    && At(s, t, s', WithPending(s.pcs[t].e), Draining)
  }

  predicate LoadDrain(s: Sys, t: nat, s': Sys) {
    t in s.pcs && s.pcs[t].Draining? && NoSharedLeft(s.word) && At(s, t, s', s.word, DrainLoaded(s.word))
  }

  predicate CasDrain(s: Sys, t: nat, s': Sys, x: nat) {
    t in s.pcs && s.pcs[t].DrainLoaded? && s.word == s.pcs[t].e && At(s, t, s', x, Exclusive)
  }

  // unlock_x
  predicate UnlockExclusive(s: Sys, t: nat, s': Sys) {
    t in s.pcs && s.pcs[t].Exclusive? && At(s, t, s', 0, Outside)
  }

  // upgrade_s_x
  predicate LoadUpgrade(s: Sys, t: nat, s': Sys) {
    t in s.pcs && s.pcs[t].Upgrading? && !IsPending(s.word) && At(s, t, s', s.word, UpgradeLoaded(s.word))
  }

  predicate CasUpgrade(s: Sys, t: nat, s': Sys) {
    t in s.pcs && s.pcs[t].UpgradeLoaded? && s.word == s.pcs[t].e && s.pcs[t].e > 0
    && At(s, t, s', WithPending(s.pcs[t].e - 1), Draining)
  }

  // downgrade_x_s
  predicate Downgrade(s: Sys, t: nat, s': Sys) {
    t in s.pcs && s.pcs[t].Exclusive? && At(s, t, s', 1, Shared)
  }

  /** A compare-exchange that fails, on a changed word or spuriously, goes back to the load. */
  predicate CasFails(s: Sys, t: nat, s': Sys) {
    t in s.pcs &&
    match s.pcs[t]
    case SharedLoaded(_) => At(s, t, s', s.word, WantShared)
    case ExclusiveLoaded(_) => At(s, t, s', s.word, WantExclusive)
    case DrainLoaded(_) => At(s, t, s', s.word, Draining)
    case UpgradeLoaded(_) => At(s, t, s', s.word, Upgrading)
    case _ => false
  }

  predicate Step(s: Sys, t: nat, s': Sys, x: nat) {
    || Calls(s, t, s') || LoadShared(s, t, s') || CasShared(s, t, s') || UnlockShared(s, t, s')
    || LoadExclusive(s, t, s') || CasExclusive(s, t, s')
    || LoadDrain(s, t, s') || CasDrain(s, t, s', x) || UnlockExclusive(s, t, s')
    || LoadUpgrade(s, t, s') || CasUpgrade(s, t, s') || Downgrade(s, t, s') || CasFails(s, t, s')
  }

  // ---------------------------------------------------------------- the invariant

  predicate IsUpgrading(pc: Pc) { pc.Upgrading? || pc.UpgradeLoaded? }
  predicate IsShared(pc: Pc) { pc.Shared? || IsUpgrading(pc) }
  predicate IsWaiting(pc: Pc) { pc.Draining? || pc.DrainLoaded? }

  function Sharers(s: Sys): set<nat> { set t | t in s.pcs && IsShared(s.pcs[t]) }
  function Waiters(s: Sys): set<nat> { set t | t in s.pcs && IsWaiting(s.pcs[t]) }
  function Holders(s: Sys): set<nat> { set t | t in s.pcs && s.pcs[t].Exclusive? }

  /** What a loop has loaded passed that loop's test. */
  predicate LoadOk(pc: Pc) {
    match pc
    case SharedLoaded(e) => !IsPending(e)
    case ExclusiveLoaded(e) => !IsPending(e)
    case UpgradeLoaded(e) => !IsPending(e)
    case DrainLoaded(e) => e == PENDING
    case _ => true
  }

  /** The word is exactly the holders. */
  predicate Encodes(word: nat, shared: nat, waiting: nat, exclusive: nat, x: nat) {
    word == if exclusive > 0 then x else if waiting > 0 then shared + PENDING else shared
  }

  /** At most one thread is pending or exclusive, an exclusive one leaves no sharers, and the
      word is exactly the holders. */
  ghost predicate Inv(s: Sys, x: nat) {
    && |s.pcs| < PENDING - 1
    && |Waiters(s)| + |Holders(s)| <= 1
    && (|Holders(s)| > 0 ==> |Sharers(s)| == 0)
    && Encodes(s.word, |Sharers(s)|, |Waiters(s)|, |Holders(s)|, x)
    && forall t :: t in s.pcs ==> LoadOk(s.pcs[t])
  }

  lemma StartsFree(threads: set<nat>, x: nat)
    requires |threads| < PENDING - 1
    ensures Inv(Sys(0, map t | t in threads :: Outside), x)
  {
    var s := Sys(0, map t | t in threads :: Outside);
    assert s.pcs.Keys == threads;
    assert Sharers(s) == {} && Waiters(s) == {} && Holders(s) == {};
    assert forall t :: t in s.pcs ==> s.pcs[t] == Outside;
  }

  lemma FewSharers(s: Sys)
    ensures |Sharers(s)| + |Waiters(s)| + |Holders(s)| <= |s.pcs|
  {
    var all := Sharers(s) + Waiters(s) + Holders(s);
    Subset(all, s.pcs.Keys);
    assert |all| == |Sharers(s)| + |Waiters(s)| + |Holders(s)|;
  }

  lemma Subset(a: set<nat>, b: set<nat>)
    requires a <= b
    ensures |a| <= |b|
  {
    assert |b| == |a| + |b - a| by { assert b == a + (b - a); }
  }

  /** What the word says when read, given the invariant. */
  lemma Reading(s: Sys, x: nat)
    requires Inv(s, x) && ExclusiveWord(x)
    ensures |Sharers(s)| < PENDING - 1
    ensures IsPending(s.word) <==> |Waiters(s)| > 0 || |Holders(s)| > 0
    ensures |Holders(s)| == 0 ==> Count(s.word) == |Sharers(s)|
    ensures |Holders(s)| > 0 ==> Count(s.word) > 0
  {
    FewSharers(s);
  }

  function Change(before: bool, after: bool): int {
    (if after then 1 else 0) - if before then 1 else 0
  }

  lemma Resize(a: set<nat>, b: set<nat>, t: nat)
    requires b == a + {t} || b == a - {t}
    ensures |b| == |a| + Change(t in a, t in b)
    ensures t in a ==> |a| > 0
  {
    if t in a && t in b { assert a == b; }
    if t !in a && t !in b { assert a == b; }
  }

  lemma MovedSets(s: Sys, t: nat, pc: Pc)
    requires t in s.pcs
    ensures var s' := s.(pcs := s.pcs[t := pc]);
            && Sharers(s') == (if IsShared(pc) then Sharers(s) + {t} else Sharers(s) - {t})
            && Waiters(s') == (if IsWaiting(pc) then Waiters(s) + {t} else Waiters(s) - {t})
            && Holders(s') == (if pc.Exclusive? then Holders(s) + {t} else Holders(s) - {t})
    ensures t in Sharers(s) <==> IsShared(s.pcs[t])
    ensures t in Waiters(s) <==> IsWaiting(s.pcs[t])
    ensures t in Holders(s) <==> s.pcs[t].Exclusive?
  {}

  /** How the three groups change when one thread moves. */
  lemma Moved(s: Sys, t: nat, pc: Pc)
    requires t in s.pcs
    ensures var s' := s.(pcs := s.pcs[t := pc]);
            && |s'.pcs| == |s.pcs|
            && |Sharers(s')| == |Sharers(s)| + Change(IsShared(s.pcs[t]), IsShared(pc))
            && |Waiters(s')| == |Waiters(s)| + Change(IsWaiting(s.pcs[t]), IsWaiting(pc))
            && |Holders(s')| == |Holders(s)| + Change(s.pcs[t].Exclusive?, pc.Exclusive?)
    ensures IsShared(s.pcs[t]) ==> |Sharers(s)| > 0
    ensures IsWaiting(s.pcs[t]) ==> |Waiters(s)| > 0
    ensures s.pcs[t].Exclusive? ==> |Holders(s)| > 0
  {
    var s' := s.(pcs := s.pcs[t := pc]);
    assert s'.pcs.Keys == s.pcs.Keys;
    MovedSets(s, t, pc);
    hide Sharers, Waiters, Holders;
    Resize(Sharers(s), Sharers(s'), t);
    Resize(Waiters(s), Waiters(s'), t);
    Resize(Holders(s), Holders(s'), t);
  }

  lemma SameGroups(a: Sys, b: Sys)
    requires a.pcs == b.pcs
    ensures Sharers(a) == Sharers(b) && Waiters(a) == Waiters(b) && Holders(a) == Holders(b)
  {}

  /** No interleaving leaves the invariant. */
  lemma StepKeeps(s: Sys, t: nat, s': Sys, x: nat)
    requires Inv(s, x) && ExclusiveWord(x) && Step(s, t, s', x)
    ensures Inv(s', x)
  {
    Reading(s, x);
    Moved(s, t, s'.pcs[t]);
    SameGroups(s', s.(pcs := s.pcs[t := s'.pcs[t]]));
    hide Sharers, Waiters, Holders;
    assert LoadOk(s.pcs[t]);
  }

  // ---------------------------------------------------------------- over whole runs

  ghost predicate Run(run: seq<Sys>, ts: seq<nat>, x: nat) {
    && |run| == |ts| + 1 && Inv(run[0], x) && ExclusiveWord(x)
    && forall i :: 0 <= i < |ts| ==> Step(run[i], ts[i], run[i + 1], x)
  }

  lemma {:induction false} RunKeeps(run: seq<Sys>, ts: seq<nat>, x: nat, i: nat)
    requires Run(run, ts, x) && i < |run|
    ensures Inv(run[i], x)
  {
    if i > 0 {
      RunKeeps(run, ts, x, i - 1);
      assert Step(run[i - 1], ts[i - 1], run[i - 1 + 1], x);
      StepKeeps(run[i - 1], ts[i - 1], run[i], x);
    }
  }

  /** Mutual exclusion, in every state of every run: an exclusive holder excludes every other
      holder and every pending thread, and two threads are never pending together. */
  lemma MutualExclusion(run: seq<Sys>, ts: seq<nat>, x: nat, i: nat, a: nat, b: nat)
    requires Run(run, ts, x) && i < |run| && a != b && a in run[i].pcs && b in run[i].pcs
    ensures run[i].pcs[a].Exclusive? ==> !run[i].pcs[b].Exclusive? && !IsShared(run[i].pcs[b]) && !IsWaiting(run[i].pcs[b])
    ensures IsWaiting(run[i].pcs[a]) ==> !IsWaiting(run[i].pcs[b])
  {
    RunKeeps(run, ts, x, i);
    var s := run[i];
    Moved(s, a, s.pcs[a]);
    Moved(s, b, s.pcs[b]);
    var both := {a, b};
    if both <= Waiters(s) { Subset(both, Waiters(s)); }
    if both <= Holders(s) { Subset(both, Holders(s)); }
  }

  /** While a thread is pending the shared count never rises: new sharers are shut out, and
      the drain loop sees it fall until it can take the latch. */
  lemma PendingDrains(s: Sys, t: nat, s': Sys, x: nat)
    requires Inv(s, x) && ExclusiveWord(x) && Step(s, t, s', x) && |Waiters(s)| > 0
    ensures |Sharers(s')| <= |Sharers(s)|
    ensures |Waiters(s')| > 0 || (|Holders(s')| > 0 && |Sharers(s)| == 0)
  {
    Reading(s, x);
    Moved(s, t, s'.pcs[t]);
    SameGroups(s', s.(pcs := s.pcs[t := s'.pcs[t]]));
    hide Sharers, Waiters, Holders;
    assert LoadOk(s.pcs[t]);
  }

  /** The assertions of the source hold: the drain loops always read the pending bit, and an
      upgrader always reads at least one sharer. */
  lemma AssertionsHold(s: Sys, t: nat, x: nat)
    requires Inv(s, x) && ExclusiveWord(x) && t in s.pcs
    ensures IsWaiting(s.pcs[t]) ==> IsPending(s.word)
    ensures IsShared(s.pcs[t]) ==> Count(s.word) >= 1
  {
    Reading(s, x);
    Moved(s, t, s.pcs[t]);
  }

  // ---------------------------------------------------------------- who may go on

  predicate Idle(s: Sys) {
    Waiters(s) == {} && Holders(s) == {}
  }

  /** A thread that wants to share gets past the test of lock_s exactly when nobody is pending or
      exclusive, however many share; one that wants it alone, past that of lock_x in the same
      states. */
  lemma SharedEnabledIff(s: Sys, t: nat, x: nat)
    requires Inv(s, x) && ExclusiveWord(x)
    ensures (exists s' :: LoadShared(s, t, s')) <==> t in s.pcs && s.pcs[t].WantShared? && Idle(s)
    ensures (exists s' :: LoadExclusive(s, t, s')) <==> t in s.pcs && s.pcs[t].WantExclusive? && Idle(s)
  {
    Reading(s, x);
    NoneIsEmpty(s);
    hide Inv, Idle;
    if t in s.pcs {
      var a, b := Sys(s.word, s.pcs[t := SharedLoaded(s.word)]), Sys(s.word, s.pcs[t := ExclusiveLoaded(s.word)]);
      assert s.pcs[t].WantShared? && !IsPending(s.word) && !IsExclusive(s.word) ==> LoadShared(s, t, a);
      assert s.pcs[t].WantExclusive? && !IsPending(s.word) ==> LoadExclusive(s, t, b);
    }
  }

  lemma NoneIsEmpty(s: Sys)
    ensures Idle(s) <==> |Waiters(s)| == 0 && |Holders(s)| == 0
  {}

  /** A pending thread may take the latch exactly when the last sharer has gone. */
  lemma DrainEnabledIff(s: Sys, t: nat, x: nat)
    requires Inv(s, x) && ExclusiveWord(x)
    ensures (exists s' :: LoadDrain(s, t, s')) <==> t in s.pcs && s.pcs[t].Draining? && Sharers(s) == {}
  {
    Reading(s, x);
    if t in s.pcs {
      Moved(s, t, s.pcs[t]);
      assert s.pcs[t].Draining? && NoSharedLeft(s.word) ==> LoadDrain(s, t, Sys(s.word, s.pcs[t := DrainLoaded(s.word)]));
    }
    assert |Sharers(s)| == 0 <==> Sharers(s) == {};
  }

  /** A sharer can always leave, and one that upgrades gets past its test exactly when nobody is
      pending. */
  lemma SharerEnabledIff(s: Sys, t: nat, x: nat)
    requires Inv(s, x) && ExclusiveWord(x)
    ensures (exists s' :: UnlockShared(s, t, s')) <==> t in s.pcs && s.pcs[t].Shared?
    ensures (exists s' :: LoadUpgrade(s, t, s')) <==> t in s.pcs && s.pcs[t].Upgrading? && Waiters(s) == {}
  {
    Reading(s, x);
    if t in s.pcs {
      Moved(s, t, s.pcs[t]);
      assert s.pcs[t].Shared? && s.word > 0 ==> UnlockShared(s, t, Sys(s.word - 1, s.pcs[t := Outside]));
      assert s.pcs[t].Upgrading? && !IsPending(s.word) ==>
          LoadUpgrade(s, t, Sys(s.word, s.pcs[t := UpgradeLoaded(s.word)]));
    }
    assert |Waiters(s)| == 0 <==> Waiters(s) == {};
  }

  /** With nobody in the way, a thread that wants to share does in two steps of its own. */
  lemma SharesInTwo(s: Sys, t: nat, x: nat) returns (s1: Sys, s2: Sys)
    requires Inv(s, x) && ExclusiveWord(x) && t in s.pcs && s.pcs[t].WantShared? && Idle(s)
    ensures LoadShared(s, t, s1) && CasShared(s1, t, s2)
    ensures s2.pcs == s.pcs[t := Shared]
  {
    SharedEnabledIff(s, t, x);
    hide Inv, Idle;
    s1 := Sys(s.word, s.pcs[t := SharedLoaded(s.word)]);
    s2 := Sys(s.word + 1, s1.pcs[t := Shared]);
    assert s2.pcs == s.pcs[t := Shared];
  }

  // ---------------------------------------------------------------- what can come to an end

  function Upgraders(s: Sys): set<nat> { set t | t in s.pcs && IsUpgrading(s.pcs[t]) }

  /** Two threads that each wait for the other: both hold a share or the pending bit, and neither
      gives it up without the latch. */
  ghost predicate Deadlocked(s: Sys) {
    |Upgraders(s)| + |Waiters(s)| >= 2
  }

  predicate NobodyInside(s: Sys) {
    forall t :: t in s.pcs ==> s.pcs[t].Outside?
  }

  /** An upgrader turns into a pending thread, and the pending one never gets past an upgrader. */
  lemma DeadlockStays(s: Sys, t: nat, s': Sys, x: nat)
    requires Inv(s, x) && ExclusiveWord(x) && Step(s, t, s', x) && Deadlocked(s)
    ensures Deadlocked(s')
  {
    Reading(s, x);
    Moved(s, t, s'.pcs[t]);
    SameGroups(s', s.(pcs := s.pcs[t := s'.pcs[t]]));
    UpgradersMoved(s, t, s');
    UpgradersShare(s);
    hide Sharers, Waiters, Holders, Upgraders;
    assert LoadOk(s.pcs[t]);
  }

  lemma UpgradersShare(s: Sys)
    ensures |Upgraders(s)| <= |Sharers(s)|
  {
    Subset(Upgraders(s), Sharers(s));
  }

  lemma UpgradersMoved(s: Sys, t: nat, s': Sys)
    requires t in s.pcs && t in s'.pcs && s'.pcs == s.pcs[t := s'.pcs[t]]
    ensures |Upgraders(s')| == |Upgraders(s)| + Change(IsUpgrading(s.pcs[t]), IsUpgrading(s'.pcs[t]))
  {
    assert Upgraders(s') == if IsUpgrading(s'.pcs[t]) then Upgraders(s) + {t} else Upgraders(s) - {t};
    Resize(Upgraders(s), Upgraders(s'), t);
  }

  lemma {:induction false} DeadlockForever(run: seq<Sys>, ts: seq<nat>, x: nat, i: nat)
    requires Run(run, ts, x) && i < |run| && Deadlocked(run[0])
    ensures Deadlocked(run[i]) && !NobodyInside(run[i])
  {
    if i > 0 {
      DeadlockForever(run, ts, x, i - 1);
      RunKeeps(run, ts, x, i - 1);
      assert Step(run[i - 1], ts[i - 1], run[i - 1 + 1], x);
      DeadlockStays(run[i - 1], ts[i - 1], run[i], x);
    }
    NobodyDeadlocked(run[i]);
  }

  lemma NobodyDeadlocked(s: Sys)
    ensures NobodyInside(s) ==> !Deadlocked(s)
  {
    if NobodyInside(s) {
      assert Upgraders(s) == {} && Waiters(s) == {};
    }
  }

  /** Nobody but t holds anything of the latch. */
  predicate Alone(s: Sys, t: nat) {
    forall u :: u in s.pcs && u != t ==> !IsShared(s.pcs[u]) && !IsWaiting(s.pcs[u]) && !s.pcs[u].Exclusive?
  }

  lemma OneOf(a: set<nat>, t: nat)
    requires a <= {t}
    ensures |a| == if t in a then 1 else 0
  {
    Subset(a, {t});
    if t in a { assert a == {t}; }
  }

  lemma AloneWord(s: Sys, t: nat, x: nat)
    requires Inv(s, x) && ExclusiveWord(x) && t in s.pcs && Alone(s, t)
    ensures s.word == if s.pcs[t].Exclusive? then x else if IsWaiting(s.pcs[t]) then PENDING
                      else if IsShared(s.pcs[t]) then 1 else 0
  {
    OneOf(Sharers(s), t);
    OneOf(Waiters(s), t);
    OneOf(Holders(s), t);
  }

  function Rank(s: Sys, t: nat): nat
    requires t in s.pcs
  {
    match s.pcs[t]
    case Outside => 0
    case WantShared => 3
    case SharedLoaded(e) => if e == s.word then 2 else 4
    case Shared => 1
    case WantExclusive => 5
    case ExclusiveLoaded(e) => if e == s.word then 4 else 6
    case Draining => 3
    case DrainLoaded(_) => 2
    case Exclusive => 1
    case Upgrading => 5
    case UpgradeLoaded(e) => if e == s.word then 4 else 6
  }

  /** The next step of a thread that nobody is in the way of. */
  function Forward(s: Sys, t: nat, x: nat): Sys
    requires t in s.pcs
  {
    match s.pcs[t]
    case Outside => s
    case WantShared => Sys(s.word, s.pcs[t := SharedLoaded(s.word)])
    case SharedLoaded(e) => if e == s.word then Sys(e + 1, s.pcs[t := Shared]) else Sys(s.word, s.pcs[t := WantShared])
    case Shared => Sys(if s.word > 0 then s.word - 1 else 0, s.pcs[t := Outside])
    case WantExclusive => Sys(s.word, s.pcs[t := ExclusiveLoaded(s.word)])
    case ExclusiveLoaded(e) =>
      if e == s.word then Sys(WithPending(e), s.pcs[t := Draining]) else Sys(s.word, s.pcs[t := WantExclusive])
    case Draining => Sys(s.word, s.pcs[t := DrainLoaded(s.word)])
    case DrainLoaded(_) => Sys(x, s.pcs[t := Exclusive])
    case Exclusive => Sys(0, s.pcs[t := Outside])
    case Upgrading => Sys(s.word, s.pcs[t := UpgradeLoaded(s.word)])
    case UpgradeLoaded(e) =>
      if e == s.word && e > 0 then Sys(WithPending(e - 1), s.pcs[t := Draining]) else Sys(s.word, s.pcs[t := Upgrading])
  }

  lemma ForwardSteps(s: Sys, t: nat, x: nat)
    requires Inv(s, x) && ExclusiveWord(x) && t in s.pcs && !s.pcs[t].Outside? && Alone(s, t)
    ensures var s' := Forward(s, t, x);
            Step(s, t, s', x) && t in s'.pcs && s'.pcs == s.pcs[t := s'.pcs[t]] && Alone(s', t) && Rank(s', t) < Rank(s, t)
  {
    AloneWord(s, t, x);
    assert LoadOk(s.pcs[t]);
    hide Inv;
  }

  /** The steps of one thread that bring it outside, with nobody else in the way. */
  lemma Leaves(s: Sys, t: nat, x: nat) returns (run: seq<Sys>, ts: seq<nat>)
    requires Inv(s, x) && ExclusiveWord(x) && t in s.pcs && Alone(s, t)
    ensures Run(run, ts, x) && run[0] == s && run[|run| - 1].pcs == s.pcs[t := Outside]
    decreases Rank(s, t)
  {
    if s.pcs[t].Outside? {
      run, ts := [s], [];
      assert s.pcs[t := Outside] == s.pcs;
    } else {
      var next := Forward(s, t, x);
      ForwardSteps(s, t, x);
      StepKeeps(s, t, next, x);
      hide Inv, Step, Forward, Alone;
      run, ts := Leaves(next, t, x);
      assert next.pcs[t := Outside] == s.pcs[t := Outside];
      run, ts := Prepended(s, t, run, ts, x);
    }
  }

  /** A sharer that has not called upgrade, or an exclusive holder, leaves at once. */
  lemma LeavesAtOnce(s: Sys, t: nat, x: nat) returns (run: seq<Sys>, ts: seq<nat>)
    requires Inv(s, x) && ExclusiveWord(x) && t in s.pcs && (s.pcs[t].Shared? || s.pcs[t].Exclusive?)
    ensures Run(run, ts, x) && run[0] == s && run[|run| - 1].pcs == s.pcs[t := Outside]
  {
    var next := Forward(s, t, x);
    Reading(s, x);
    Moved(s, t, s.pcs[t]);
    assert UnlockShared(s, t, next) || UnlockExclusive(s, t, next);
    run, ts := [s, next], [t];
  }

  lemma Prepended(s: Sys, t: nat, run: seq<Sys>, ts: seq<nat>, x: nat) returns (run': seq<Sys>, ts': seq<nat>)
    requires Run(run, ts, x) && Inv(s, x) && Step(s, t, run[0], x)
    ensures Run(run', ts', x) && run'[0] == s && run'[|run'| - 1] == run[|run| - 1]
  {
    run', ts' := [s] + run, [t] + ts;
    forall i | 0 <= i < |ts'|
      ensures Step(run'[i], ts'[i], run'[i + 1], x)
    {
      if i > 0 { assert Step(run[i - 1], ts[i - 1], run[i - 1 + 1], x); }
    }
  }

  lemma Joined(a: seq<Sys>, as_: seq<nat>, b: seq<Sys>, bs: seq<nat>, x: nat) returns (run: seq<Sys>, ts: seq<nat>)
    requires Run(a, as_, x) && Run(b, bs, x) && a[|a| - 1] == b[0]
    ensures Run(run, ts, x) && run[0] == a[0] && run[|run| - 1] == b[|b| - 1]
  {
    run, ts := a + b[1..], as_ + bs;
    forall i | 0 <= i < |ts|
      ensures Step(run[i], ts[i], run[i + 1], x)
    {
      if i < |as_| {
        assert Step(a[i], as_[i], a[i + 1], x);
      } else {
        assert Step(b[i - |as_|], bs[i - |as_|], b[i - |as_| + 1], x);
      }
    }
  }

  function Inside(s: Sys): set<nat> { set t | t in s.pcs && !s.pcs[t].Outside? }

  /** Who can leave next: a sharer or holder at once; else the one that upgrades or is pending,
      which by then is alone; else anybody. */
  lemma SomeoneToLeave(s: Sys, x: nat) returns (t: nat)
    requires Inv(s, x) && Inside(s) != {} && !Deadlocked(s)
    ensures t in Inside(s) && (s.pcs[t].Shared? || s.pcs[t].Exclusive? || Alone(s, t))
  {
    if u :| u in s.pcs && (s.pcs[u].Shared? || s.pcs[u].Exclusive?) {
      t := u;
    } else if u :| u in s.pcs && (IsUpgrading(s.pcs[u]) || IsWaiting(s.pcs[u])) {
      t := u;
      OnlyOne(Upgraders(s), Waiters(s), t);
      forall u | u in s.pcs && u != t
        ensures !IsShared(s.pcs[u]) && !IsWaiting(s.pcs[u]) && !s.pcs[u].Exclusive?
      {
        assert u !in Upgraders(s) && u !in Waiters(s);
      }
    } else {
      t :| t in Inside(s);
    }
  }

  lemma OnlyOne(a: set<nat>, b: set<nat>, t: nat)
    requires |a| + |b| <= 1 && (t in a || t in b)
    ensures forall u :: u in a || u in b ==> u == t
  {
    forall u | u in a || u in b
      ensures u == t
    {
      if u != t {
        if {u, t} <= a { Subset({u, t}, a); } else if {u, t} <= b { Subset({u, t}, b); }
      }
    }
  }

  lemma StillFree(s: Sys, t: nat, s': Sys)
    requires t in s.pcs && s'.pcs == s.pcs[t := Outside] && !Deadlocked(s)
    ensures !Deadlocked(s') && Inside(s') == Inside(s) - {t}
  {
    Subset(Upgraders(s'), Upgraders(s));
    Subset(Waiters(s'), Waiters(s));
  }

  /** With at most one thread upgrading or pending, some run brings everybody outside. */
  lemma AllLeave(s: Sys, x: nat) returns (run: seq<Sys>, ts: seq<nat>)
    requires Inv(s, x) && ExclusiveWord(x) && !Deadlocked(s)
    ensures Run(run, ts, x) && run[0] == s
    ensures var last := run[|run| - 1]; NobodyInside(last) && last.word == 0 && last.pcs.Keys == s.pcs.Keys
    decreases |Inside(s)|
  {
    if Inside(s) == {} {
      run, ts := [s], [];
      assert forall t :: t in s.pcs ==> t !in Inside(s);
      assert Sharers(s) == {} && Waiters(s) == {} && Holders(s) == {};
    } else {
      var t := SomeoneToLeave(s, x);
      var a, as_ := LeavesFirst(s, t, x);
      var next := a[|a| - 1];
      RunKeeps(a, as_, x, |a| - 1);
      StillFree(s, t, next);
      assert next.pcs.Keys == s.pcs.Keys;
      hide Inv, Deadlocked, Inside, NobodyInside;
      Fewer(Inside(s), t);
      var b, bs := AllLeave(next, x);
      run, ts := Joined(a, as_, b, bs, x);
    }
  }

  lemma Fewer(a: set<nat>, t: nat)
    requires t in a
    ensures |a - {t}| < |a|
  {}

  lemma LeavesFirst(s: Sys, t: nat, x: nat) returns (run: seq<Sys>, ts: seq<nat>)
    requires Inv(s, x) && ExclusiveWord(x) && t in s.pcs && (s.pcs[t].Shared? || s.pcs[t].Exclusive? || Alone(s, t))
    ensures Run(run, ts, x) && run[0] == s && run[|run| - 1].pcs == s.pcs[t := Outside]
  {
    hide Inv, Alone;
    if s.pcs[t].Shared? || s.pcs[t].Exclusive? {
      run, ts := LeavesAtOnce(s, t, x);
    } else {
      run, ts := Leaves(s, t, x);
    }
  }

  ghost predicate Clears(run: seq<Sys>, ts: seq<nat>, s: Sys, x: nat) {
    Run(run, ts, x) && run[0] == s && NobodyInside(run[|run| - 1])
  }

  /** Everybody can still come out of the latch if and only if no two threads are upgrading or
      pending at once. */
  lemma ClearsIff(s: Sys, x: nat)
    requires Inv(s, x) && ExclusiveWord(x)
    ensures (exists run, ts :: Clears(run, ts, s, x)) <==> !Deadlocked(s)
  {
    hide Inv;
    if Deadlocked(s) {
      forall run, ts
        ensures !Clears(run, ts, s, x)
      {
        if Clears(run, ts, s, x) { DeadlockForever(run, ts, x, |run| - 1); }
      }
    } else {
      var run, ts := AllLeave(s, x);
      assert Clears(run, ts, s, x);
    }
  }

  /** Two threads that share and then call upgrade, one after the other, never come out. */
  lemma UpgradersDeadlock(s: Sys, a: nat, b: nat, x: nat) returns (s1: Sys, s2: Sys)
    requires Inv(s, x) && ExclusiveWord(x) && a in s.pcs && b in s.pcs && a != b && s.pcs[a].Shared? && s.pcs[b].Shared?
    ensures Step(s, a, s1, x) && Step(s1, b, s2, x)
    ensures forall run, ts :: !Clears(run, ts, s2, x)
  {
    s1 := Sys(s.word, s.pcs[a := Upgrading]);
    s2 := Sys(s.word, s1.pcs[b := Upgrading]);
    assert Calls(s, a, s1) && Calls(s1, b, s2);
    StepKeeps(s, a, s1, x);
    StepKeeps(s1, b, s2, x);
    assert {a, b} <= Upgraders(s2);
    Subset({a, b}, Upgraders(s2));
    hide Inv, Clears;
    ClearsIff(s2, x);
  }
}
