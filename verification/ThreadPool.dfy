/** The thread pool: its ring of tasks, and the protocol of workers, producers and the thread
    that starts and stops the pool.  Every stretch of code between taking the mutex and giving
    it up, at an unlock or a wait, is one step; steps of all threads interleave freely. */
module ThreadPool {

  // ---------------------------------------------------------------- the ring

  /** A task goes to the end of the queue. */
  ghost predicate Pushes<T(!new)>(q: seq<T>, task: T, q': seq<T>) {
    q' == q + [task]
  }

  /** The oldest task leaves it. */
  ghost predicate Pops<T(!new)>(q: seq<T>, task: T, q': seq<T>) {
    q == [task] + q'
  }

  /** The ring of queued tasks: filled at head, drained at tail. */
  class WorkQueue<T(0,!new)> {
    const slots: array<T>
    var head: nat
    var tail: nat
    var count: nat

    ghost predicate Valid()
      reads this
    {
      && slots.Length > 0
      && head < slots.Length && tail < slots.Length && count <= slots.Length
      && head == Wrap(tail, count, slots.Length)
    }

    /** The queued tasks, oldest first. */
    ghost function Contents(): seq<T>
      reads this, slots
      requires Valid()
    {
      RingOf(slots[..], tail, count)
    }

    constructor (n: nat)
      requires n > 0
      ensures Valid() && Contents() == [] && slots.Length == n && fresh(slots)
    {
      slots := new T[n];
      head, tail, count := 0, 0, 0;
    }

    method Push(task: T)
      requires Valid() && count < slots.Length
      modifies this, slots
      ensures Valid() && Pushes(old(Contents()), task, Contents())
    {
      NextSlot(head, slots.Length);
      slots[head] := task;
      head := (head + 1) % slots.Length;
      count := count + 1;
    }

    method Pop() returns (task: T)
      requires Valid() && count > 0
      modifies this
      ensures Valid() && Pops(old(Contents()), task, Contents())
    {
      NextSlot(tail, slots.Length);
      task := slots[tail];
      tail := (tail + 1) % slots.Length;
      count := count - 1;
    }
  }

  /** The n tasks of a ring from slot t on. */
  function RingOf<T>(slots: seq<T>, t: nat, n: nat): seq<T>
    requires t < |slots| && n <= |slots|
  {
    seq(n, i requires 0 <= i < n => slots[Wrap(t, i, |slots|)])
  }

  /** Slot i of a ring of n that starts at t. */
  function Wrap(t: nat, i: nat, n: nat): (s: nat)
    requires t < n && i <= n
    ensures s < n
  {
    if t + i < n then t + i else t + i - n
  }

  lemma NextSlot(t: nat, n: nat)
    requires t < n
    ensures (t + 1) % n == Wrap(t, 1, n)
  {}

  // ---------------------------------------------------------------- threads

  datatype Worker =
    | Top
    | Waiting
    | Woken
    | Running(task: nat)
    | Ran(task: nat)
    | Exited

  datatype Producer = Away | Arrived | Blocked | Unblocked

  datatype Control = Idle | Spun | Stopping | StopWaiting | StopWoken

  /** queue is what the ring holds.  added and taken list the tasks ever queued and ever taken,
      ran the executions, each in the order it happened; mark is how many had been queued when
      the stop flag was last set. */
  datatype Pool = Pool(
    cap: nat, queue: seq<nat>, added: seq<nat>, taken: seq<nat>, ran: seq<nat>,
    stopped: bool, nthreads: nat, nworking: nat,
    workers: map<nat, Worker>, producers: map<nat, Producer>, ctl: Control, mark: nat)
  {
    function Count(): nat { |queue| }
  }

  function WakeWorker(w: Worker): Worker { if w.Waiting? then Woken else w }
  function WakeWorkers(ws: map<nat, Worker>): (r: map<nat, Worker>)
    ensures r.Keys == ws.Keys && forall w :: w in ws ==> r[w] == WakeWorker(ws[w])
  {
    map w | w in ws :: WakeWorker(ws[w])
  }

  function WakeProducer(p: Producer): Producer { if p.Blocked? then Unblocked else p }

  /** broadcast (work_ready) */
  function Broadcast(s: Pool): Pool {
    s.(workers := WakeWorkers(s.workers),
       producers := map p | p in s.producers :: WakeProducer(s.producers[p]))
  }

  /** signal (none_working): only the thread that stops the pool waits there. */
  function SignalStopper(s: Pool): Pool {
    if s.ctl.StopWaiting? then s.(ctl := StopWoken) else s
  }

  predicate AtTop(s: Pool, w: nat) {
    w in s.workers && (s.workers[w].Top? || s.workers[w].Woken?)
  }

  predicate WorkerWaits(s: Pool, w: nat, s': Pool) {
    AtTop(s, w) && s.Count() == 0 && !s.stopped && s' == s.(workers := s.workers[w := Waiting])
  }

  predicate WorkerExits(s: Pool, w: nat, s': Pool) {
    AtTop(s, w) && s.Count() == 0 && s.stopped && s.nthreads > 0
    && s' == SignalStopper(s.(workers := s.workers[w := Exited], nthreads := s.nthreads - 1))
  }

  ghost predicate WorkerTakes(s: Pool, w: nat, s': Pool) {
    AtTop(s, w) && s.Count() > 0
    && var task := s.queue[0];
       && Pops(s.queue, task, s'.queue)
       && s' == Broadcast(s.(workers := s.workers[w := Running(task)], queue := s'.queue, taken := s.taken + [task],
                             nworking := s.nworking + 1))
  }

  predicate WorkerRuns(s: Pool, w: nat, s': Pool) {
    w in s.workers && s.workers[w].Running?
    && s' == s.(workers := s.workers[w := Ran(s.workers[w].task)], ran := s.ran + [s.workers[w].task])
  }

  predicate WorkerReports(s: Pool, w: nat, s': Pool) {
    w in s.workers && s.workers[w].Ran? && s.nworking > 0
    && var t := s.(workers := s.workers[w := Top], nworking := s.nworking - 1);
       s' == if !t.stopped && t.nworking == 0 && t.Count() == 0 then SignalStopper(t) else t
  }

  /** A wait may end without a signal. */
  predicate Spurious(s: Pool, w: nat, s': Pool) {
    || (w in s.workers && s.workers[w].Waiting? && s' == s.(workers := s.workers[w := Woken]))
    || (w in s.producers && s.producers[w].Blocked? && s' == s.(producers := s.producers[w := Unblocked]))
    || (s.ctl.StopWaiting? && s' == s.(ctl := StopWoken))
  }

  predicate ProducerArrives(s: Pool, p: nat, s': Pool) {
    p in s.producers && s.producers[p].Away? && s' == s.(producers := s.producers[p := Arrived])
  }

  predicate ProducerWaits(s: Pool, p: nat, s': Pool) {
    p in s.producers && (s.producers[p].Arrived? || s.producers[p].Unblocked?) && s.Count() >= s.cap
    && s' == s.(producers := s.producers[p := Blocked])
  }

  /** Every task queued is one of its own. */
  ghost predicate ProducerAdds(s: Pool, p: nat, s': Pool, task: nat) {
    p in s.producers && (s.producers[p].Arrived? || s.producers[p].Unblocked?) && s.Count() < s.cap
    && task !in s.added
    && Pushes(s.queue, task, s'.queue)
    && s' == Broadcast(s.(producers := s.producers[p := Away], queue := s'.queue, added := s.added + [task]))
  }

  predicate Spins(s: Pool, ids: set<nat>, s': Pool) {
    s.ctl.Idle? && s.nthreads == 0 && ids != {}
    && s' == s.(stopped := false, nthreads := |ids|, workers := map w | w in ids :: Top, ctl := Spun)
  }

  predicate SetsStop(s: Pool, s': Pool) {
    s.ctl.Spun? && s' == Broadcast(s.(stopped := true, ctl := Stopping, mark := |s.added|))
  }

  predicate StopWaits(s: Pool, s': Pool) {
    (s.ctl.Stopping? || s.ctl.StopWoken?) && s.nthreads > 0 && s' == s.(ctl := StopWaiting)
  }

  predicate StopReturns(s: Pool, s': Pool) {
    (s.ctl.Stopping? || s.ctl.StopWoken?) && s.nthreads == 0 && s' == s.(ctl := Idle)
  }

  ghost predicate Step(s: Pool, i: nat, s': Pool) {
    || WorkerWaits(s, i, s') || WorkerExits(s, i, s') || WorkerTakes(s, i, s') || WorkerRuns(s, i, s')
    || WorkerReports(s, i, s') || Spurious(s, i, s')
    || ProducerArrives(s, i, s') || ProducerWaits(s, i, s') || (exists task :: ProducerAdds(s, i, s', task))
    || (exists ids :: Spins(s, ids, s')) || SetsStop(s, s') || StopWaits(s, s') || StopReturns(s, s')
  }

  // ---------------------------------------------------------------- the invariant

  function Alive(ws: map<nat, Worker>): set<nat> { set w | w in ws && !ws[w].Exited? }
  function Busy(ws: map<nat, Worker>): set<nat> { set w | w in ws && (ws[w].Running? || ws[w].Ran?) }

  ghost predicate Distinct(s: seq<nat>) {
    forall i, j :: 0 <= i < j < |s| ==> s[i] != s[j]
  }

  /** Every task taken is being run by exactly one worker or has been run exactly once. */
  ghost predicate OnceOk(taken: seq<nat>, ran: seq<nat>, ws: map<nat, Worker>) {
    && Distinct(ran)
    && (forall t :: t in ran ==> t in taken)
    && (forall w :: w in ws && ws[w].Running? ==> ws[w].task in taken && ws[w].task !in ran)
    && (forall v, w :: v in ws && w in ws && v != w && ws[v].Running? && ws[w].Running? ==> ws[v].task != ws[w].task)
    && (forall t :: t in taken && t !in ran ==> exists w :: w in ws && ws[w] == Running(t))
  }

  /** First in, first out: what was taken, followed by what is queued, is what was added. */
  ghost predicate OrderOk(s: Pool) {
    s.added == s.taken + s.queue && Distinct(s.added)
  }

  /** No wakeup is lost: whoever waits has nothing to do. */
  ghost predicate WaitsOk(s: Pool) {
    && (forall w :: w in s.workers && s.workers[w].Waiting? ==> s.Count() == 0 && !s.stopped)
    && (forall p :: p in s.producers && s.producers[p].Blocked? ==> s.Count() >= s.cap)
    && (s.ctl.StopWaiting? ==> s.nthreads > 0)
  }

  /** A worker exits only after the stop flag is set and the tasks queued by then are taken. */
  ghost predicate StopOk(s: Pool) {
    && (s.ctl.Idle? || s.ctl.Spun? || s.stopped)
    && (s.ctl.Spun? ==> !s.stopped && forall w :: w in s.workers ==> !s.workers[w].Exited?)
    && (!s.ctl.Idle? ==> s.workers != map[])
    && (forall w :: w in s.workers && s.workers[w].Exited? ==> |s.taken| >= s.mark)
    && s.mark <= |s.added|
    && (s.ctl.Idle? ==> s.nthreads == 0 && forall k :: 0 <= k < s.mark ==> s.added[k] in s.ran)
  }

  ghost predicate Inv(s: Pool) {
    && OrderOk(s) && s.Count() <= s.cap
    && s.nthreads == |Alive(s.workers)|
    && s.nworking == |Busy(s.workers)|
    && OnceOk(s.taken, s.ran, s.workers)
    && WaitsOk(s)
    && StopOk(s)
  }

  /** A pool that has been opened: nothing queued, no thread started. */
  function Opened(cap: nat, ps: set<nat>): Pool {
    Pool(cap, [], [], [], [], true, 0, 0, map[], map p | p in ps :: Away, Idle, 0)
  }

  lemma StartsOk(cap: nat, ps: set<nat>)
    ensures Inv(Opened(cap, ps))
  {
    assert Alive(map[]) == {} && Busy(map[]) == {};
  }

  lemma Resize(a: set<nat>, b: set<nat>, t: nat)
    requires b == a + {t} || b == a - {t}
    ensures |b| == |a| + (if t in b then 1 else 0) - if t in a then 1 else 0
  {
    if t in a && t in b { assert a == b; }
    if t !in a && t !in b { assert a == b; }
  }

  /** How the counts change when one worker moves. */
  lemma Moved(ws: map<nat, Worker>, w: nat, pc: Worker)
    requires w in ws
    ensures |Alive(ws[w := pc])| == |Alive(ws)| + (if pc.Exited? then 0 else 1) - if ws[w].Exited? then 0 else 1
    ensures |Busy(ws[w := pc])| == |Busy(ws)| + (if pc.Running? || pc.Ran? then 1 else 0)
                                   - if ws[w].Running? || ws[w].Ran? then 1 else 0
  {
    var ws' := ws[w := pc];
    MovedAlive(ws, w, pc);
    MovedBusy(ws, w, pc);
    hide Alive, Busy;
    Resize(Alive(ws), Alive(ws'), w);
    Resize(Busy(ws), Busy(ws'), w);
  }

  lemma MovedAlive(ws: map<nat, Worker>, w: nat, pc: Worker)
    requires w in ws
    ensures Alive(ws[w := pc]) == if pc.Exited? then Alive(ws) - {w} else Alive(ws) + {w}
    ensures w in Alive(ws) <==> !ws[w].Exited?
  {}

  lemma MovedBusy(ws: map<nat, Worker>, w: nat, pc: Worker)
    requires w in ws
    ensures Busy(ws[w := pc]) == if pc.Running? || pc.Ran? then Busy(ws) + {w} else Busy(ws) - {w}
    ensures w in Busy(ws) <==> ws[w].Running? || ws[w].Ran?
  {}

  /** Waking moves no worker in or out of a task or out of the pool. */
  lemma WakingCounts(ws: map<nat, Worker>)
    ensures var ws' := WakeWorkers(ws);
            && Alive(ws') == Alive(ws) && Busy(ws') == Busy(ws)
            && ws'.Keys == ws.Keys
            && forall w :: w in ws ==> (ws[w].Running? || ws[w].Exited? || ws'[w].Running? || ws'[w].Exited? ==> ws'[w] == ws[w])
  {}

  lemma WakingOnce(taken: seq<nat>, ran: seq<nat>, ws: map<nat, Worker>)
    requires OnceOk(taken, ran, ws)
    ensures OnceOk(taken, ran, WakeWorkers(ws))
  {
    var ws' := WakeWorkers(ws);
    assert forall w :: w in ws ==> (ws[w].Running? <==> ws'[w].Running?) && (ws[w].Running? ==> ws'[w] == ws[w]);
    hide WakeWorkers;
    forall t | t in taken && t !in ran
      ensures exists w :: w in ws' && ws'[w] == Running(t)
    {
      var w :| w in ws && ws[w] == Running(t);
      assert ws'[w] == Running(t);
    }
  }

  /** A worker that neither takes nor runs a task changes nothing about the tasks. */
  lemma IdleOnce(taken: seq<nat>, ran: seq<nat>, ws: map<nat, Worker>, w: nat, pc: Worker)
    requires OnceOk(taken, ran, ws) && w in ws && !ws[w].Running? && !pc.Running?
    ensures OnceOk(taken, ran, ws[w := pc])
  {
    var ws' := ws[w := pc];
    forall t | t in taken && t !in ran
      ensures exists v :: v in ws' && ws'[v] == Running(t)
    {
      var v :| v in ws && ws[v] == Running(t);
      assert ws'[v] == Running(t);
    }
  }

  lemma TakeOnce(taken: seq<nat>, ran: seq<nat>, ws: map<nat, Worker>, w: nat, task: nat)
    requires OnceOk(taken, ran, ws) && w in ws && !ws[w].Running? && task !in taken
    ensures OnceOk(taken + [task], ran, ws[w := Running(task)])
  {
    var ws', taken' := ws[w := Running(task)], taken + [task];
    assert forall t :: t in taken' <==> t in taken || t == task;
    forall t | t in taken' && t !in ran
      ensures exists v :: v in ws' && ws'[v] == Running(t)
    {
      if t == task {
        assert ws'[w] == Running(t);
      } else {
        var v :| v in ws && ws[v] == Running(t);
        assert ws'[v] == Running(t);
      }
    }
  }

  lemma RunOnce(taken: seq<nat>, ran: seq<nat>, ws: map<nat, Worker>, w: nat)
    requires OnceOk(taken, ran, ws) && w in ws && ws[w].Running?
    ensures OnceOk(taken, ran + [ws[w].task], ws[w := Ran(ws[w].task)])
  {
    var ws', ran' := ws[w := Ran(ws[w].task)], ran + [ws[w].task];
    assert forall t :: t in ran' <==> t in ran || t == ws[w].task;
    forall t | t in taken && t !in ran'
      ensures exists v :: v in ws' && ws'[v] == Running(t)
    {
      var v :| v in ws && ws[v] == Running(t);
      assert ws'[v] == Running(t);
    }
  }

  /** Taking the head keeps the order, and the task taken is a new one. */
  lemma TakeOrder(added: seq<nat>, taken: seq<nat>, queue: seq<nat>, task: nat, queue': seq<nat>)
    requires added == taken + queue && Distinct(added) && Pops(queue, task, queue')
    ensures added == taken + [task] + queue' && task !in taken
    ensures task in added && |taken| + 1 <= |added|
  {
    assert added[|taken|] == task;
    forall i | 0 <= i < |taken|
      ensures taken[i] != task
    {
      assert added[i] == taken[i];
    }
  }

  lemma AddOrder(added: seq<nat>, taken: seq<nat>, queue: seq<nat>, task: nat, queue': seq<nat>)
    requires added == taken + queue && Distinct(added) && Pushes(queue, task, queue') && task !in added
    ensures added + [task] == taken + queue' && Distinct(added + [task])
  {
    assert forall i :: 0 <= i < |added| ==> added[i] in added;
  }

  lemma WaitsKeeps(s: Pool, w: nat, s': Pool)
    requires Inv(s) && WorkerWaits(s, w, s')
    ensures Inv(s')
  {
    Moved(s.workers, w, Waiting);
    IdleOnce(s.taken, s.ran, s.workers, w, Waiting);
    hide OnceOk, Alive, Busy;
  }

  lemma ExitsKeeps(s: Pool, w: nat, s': Pool)
    requires Inv(s) && WorkerExits(s, w, s')
    ensures Inv(s')
  {
    Moved(s.workers, w, Exited);
    IdleOnce(s.taken, s.ran, s.workers, w, Exited);
    hide OnceOk, Alive, Busy;
  }

  lemma TakesKeeps(s: Pool, w: nat, s': Pool)
    requires Inv(s) && WorkerTakes(s, w, s')
    ensures Inv(s')
  {
    var task := s.queue[0];
    var ws := s.workers[w := Running(task)];
    TakeOrder(s.added, s.taken, s.queue, task, s'.queue);
    Moved(s.workers, w, Running(task));
    TakeOnce(s.taken, s.ran, s.workers, w, task);
    WakingCounts(ws);
    WakingOnce(s.taken + [task], s.ran, ws);
    hide OnceOk, Alive, Busy, Distinct;
    WakesAll(s.(workers := ws, queue := s'.queue, taken := s.taken + [task], nworking := s.nworking + 1));
  }

  /** After a broadcast nobody waits for work or for room. */
  lemma WakesAll(s: Pool)
    ensures forall w :: w in Broadcast(s).workers ==> !Broadcast(s).workers[w].Waiting?
    ensures forall p :: p in Broadcast(s).producers ==> !Broadcast(s).producers[p].Blocked?
  {}

  lemma RunsKeeps(s: Pool, w: nat, s': Pool)
    requires Inv(s) && WorkerRuns(s, w, s')
    ensures Inv(s')
  {
    Moved(s.workers, w, Ran(s.workers[w].task));
    RunOnce(s.taken, s.ran, s.workers, w);
    hide OnceOk, Alive, Busy;
  }

  lemma ReportsKeeps(s: Pool, w: nat, s': Pool)
    requires Inv(s) && WorkerReports(s, w, s')
    ensures Inv(s')
  {
    Moved(s.workers, w, Top);
    IdleOnce(s.taken, s.ran, s.workers, w, Top);
    hide OnceOk, Alive, Busy;
  }

  lemma SpuriousKeeps(s: Pool, w: nat, s': Pool)
    requires Inv(s) && Spurious(s, w, s')
    ensures Inv(s')
  {
    if w in s.workers && s.workers[w].Waiting? {
      Moved(s.workers, w, Woken);
      IdleOnce(s.taken, s.ran, s.workers, w, Woken);
    }
    hide OnceOk, Alive, Busy;
  }

  lemma ProducerKeeps(s: Pool, p: nat, s': Pool)
    requires Inv(s) && (ProducerArrives(s, p, s') || ProducerWaits(s, p, s'))
    ensures Inv(s')
  {
    hide OnceOk, Alive, Busy, Distinct;
  }

  lemma AddsKeeps(s: Pool, p: nat, s': Pool, task: nat)
    requires Inv(s) && ProducerAdds(s, p, s', task)
    ensures Inv(s')
  {
    AddOrder(s.added, s.taken, s.queue, task, s'.queue);
    WakingCounts(s.workers);
    WakingOnce(s.taken, s.ran, s.workers);
    hide OnceOk, Alive, Busy, Distinct;
    WakesAll(s.(producers := s.producers[p := Away], queue := s'.queue, added := s.added + [task]));
    assert forall k :: 0 <= k < s.mark ==> (s.added + [task])[k] == s.added[k];
  }

  lemma SpinsKeeps(s: Pool, ids: set<nat>, s': Pool)
    requires Inv(s) && Spins(s, ids, s')
    ensures Inv(s')
  {
    assert Alive(s'.workers) == ids && Busy(s'.workers) == {};
    NobodyRuns(s);
    var w :| w in ids;
    assert w in s'.workers;
  }

  /** With no thread left, every task taken has been run. */
  lemma NobodyRuns(s: Pool)
    requires Inv(s) && s.nthreads == 0
    ensures forall w :: w in s.workers ==> s.workers[w].Exited?
    ensures forall t :: t in s.taken ==> t in s.ran
  {
    assert Alive(s.workers) == {};
    forall w | w in s.workers
      ensures s.workers[w].Exited?
    {
      assert w !in Alive(s.workers);
    }
  }

  lemma ControlKeeps(s: Pool, s': Pool)
    requires Inv(s) && (SetsStop(s, s') || StopWaits(s, s') || StopReturns(s, s'))
    ensures Inv(s')
  {
    WakingCounts(s.workers);
    WakingOnce(s.taken, s.ran, s.workers);
    if StopReturns(s, s') { StopIsComplete(s, s'); }
    if SetsStop(s, s') { WakesAll(s.(stopped := true, ctl := Stopping, mark := |s.added|)); }
    hide OnceOk, Alive, Busy, Distinct;
  }

  /** When tp_stop returns, every task queued before the stop flag was set has been run. */
  lemma StopIsComplete(s: Pool, s': Pool)
    requires Inv(s) && StopReturns(s, s')
    ensures s.mark <= |s.added| && forall k :: 0 <= k < s.mark ==> s.added[k] in s'.ran
  {
    NobodyRuns(s);
    var w :| w in s.workers;
    assert s.workers[w].Exited?;
    forall k | 0 <= k < s.mark
      ensures s.added[k] in s'.ran
    {
      assert s.added[k] == s.taken[k] && s.taken[k] in s.taken;
    }
  }

  /** No interleaving leaves the invariant. */
  lemma StepKeeps(s: Pool, i: nat, s': Pool)
    requires Inv(s) && Step(s, i, s')
    ensures Inv(s')
  {
    hide Inv, WorkerWaits, WorkerExits, WorkerTakes, WorkerRuns, WorkerReports, Spurious, ProducerArrives,
      ProducerWaits, ProducerAdds, Spins, SetsStop, StopWaits, StopReturns;
    if WorkerWaits(s, i, s') { WaitsKeeps(s, i, s'); }
    else if WorkerExits(s, i, s') { ExitsKeeps(s, i, s'); }
    else if WorkerTakes(s, i, s') { TakesKeeps(s, i, s'); }
    else if WorkerRuns(s, i, s') { RunsKeeps(s, i, s'); }
    else if WorkerReports(s, i, s') { ReportsKeeps(s, i, s'); }
    else if Spurious(s, i, s') { SpuriousKeeps(s, i, s'); }
    else if ProducerArrives(s, i, s') || ProducerWaits(s, i, s') { ProducerKeeps(s, i, s'); }
    else if task :| ProducerAdds(s, i, s', task) { AddsKeeps(s, i, s', task); }
    else if ids :| Spins(s, ids, s') { SpinsKeeps(s, ids, s'); }
    else { ControlKeeps(s, s'); }
  }

  // ---------------------------------------------------------------- over whole runs

  /** The states of a pool since it was opened; who[i] is the thread that takes step i. */
  ghost predicate Run(run: seq<Pool>, who: seq<nat>) {
    && |run| == |who| + 1 && run[0] == Opened(run[0].cap, run[0].producers.Keys)
    && forall i :: 0 <= i < |who| ==> Step(run[i], who[i], run[i + 1])
  }

  lemma {:induction false} RunKeeps(run: seq<Pool>, who: seq<nat>, i: nat)
    requires Run(run, who) && i < |run|
    ensures Inv(run[i])
  {
    if i == 0 {
      StartsOk(run[0].cap, run[0].producers.Keys);
    } else {
      RunKeeps(run, who, i - 1);
      assert Step(run[i - 1], who[i - 1], run[i - 1 + 1]);
      StepKeeps(run[i - 1], who[i - 1], run[i]);
    }
  }

  /** In every state of every run: each task runs at most once, only after it was taken from
      the queue, and in no state is one run while another worker holds it; whoever waits has
      nothing to do; and once the pool is idle again the tasks queued before it was stopped
      have all run. */
  lemma RunsAreSound(run: seq<Pool>, who: seq<nat>, i: nat)
    requires Run(run, who) && i < |run|
    ensures var s := run[i];
            && Distinct(s.ran) && Distinct(s.added)
            && (forall t :: t in s.ran ==> t in s.taken && t in s.added)
            && (forall w :: w in s.workers && s.workers[w].Running? ==> s.workers[w].task !in s.ran)
            && WaitsOk(s)
            && s.mark <= |s.added|
            && (s.ctl.Idle? ==> forall k :: 0 <= k < s.mark ==> s.added[k] in s.ran)
  {
    RunKeeps(run, who, i);
  }

  /** Tasks are taken in the order in which they were queued: at any moment those taken so far
      are the first of those queued so far, and what follows them is what the ring holds. */
  lemma TakenInOrder(run: seq<Pool>, who: seq<nat>, i: nat, j: nat)
    requires Run(run, who) && i <= j < |run|
    ensures run[i].taken <= run[j].taken <= run[j].added
    ensures run[i].added <= run[j].added
    ensures run[j].added[|run[j].taken|..] == run[j].queue
  {
    RunKeeps(run, who, j);
    HistoriesGrow(run, who, i, j);
  }

  lemma {:induction false} HistoriesGrow(run: seq<Pool>, who: seq<nat>, i: nat, j: nat)
    requires Run(run, who) && i <= j < |run|
    ensures run[i].taken <= run[j].taken && run[i].added <= run[j].added
    decreases j
  {
    if i < j {
      HistoriesGrow(run, who, i, j - 1);
      hide Step;
      assert Step(run[j - 1], who[j - 1], run[j - 1 + 1]);
      StepGrows(run[j - 1], who[j - 1], run[j]);
    }
  }

  lemma StepGrows(s: Pool, i: nat, s': Pool)
    requires Step(s, i, s')
    ensures s.taken <= s'.taken && s.added <= s'.added
  {
    if task :| ProducerAdds(s, i, s', task) {
      assert s'.added == s.added + [task];
    }
  }

  // ---------------------------------------------------------------- who may go on

  /** A worker at the top of its loop always has exactly one thing to do: it takes a task exactly
      when one is queued, exits exactly when none is and the pool is stopped, and waits
      otherwise. */
  lemma WorkerEnabledIff(s: Pool, w: nat)
    requires Inv(s) && AtTop(s, w)
    ensures (exists s' :: WorkerTakes(s, w, s')) <==> s.queue != []
    ensures (exists s' :: WorkerExits(s, w, s')) <==> s.queue == [] && s.stopped
    ensures (exists s' :: WorkerWaits(s, w, s')) <==> s.queue == [] && !s.stopped
  {
    Moved(s.workers, w, Exited);
    assert w in Alive(s.workers);
    hide Inv, AtTop;
    if s.queue != [] {
      assert WorkerTakes(s, w, Taken(s, w)) by { assert AtTop(s, w); TakenSteps(s, w); }
    } else if s.stopped {
      assert WorkerExits(s, w, SignalStopper(s.(workers := s.workers[w := Exited], nthreads := s.nthreads - 1)));
    } else {
      assert WorkerWaits(s, w, s.(workers := s.workers[w := Waiting]));
    }
  }

  /** The pool after worker w has taken the oldest task. */
  function Taken(s: Pool, w: nat): Pool
    requires s.queue != []
  {
    var task := s.queue[0];
    Broadcast(s.(workers := s.workers[w := Running(task)], queue := s.queue[1..], taken := s.taken + [task],
                 nworking := s.nworking + 1))
  }

  lemma TakenSteps(s: Pool, w: nat)
    requires AtTop(s, w) && s.queue != []
    ensures WorkerTakes(s, w, Taken(s, w))
  {
    assert s.queue == [s.queue[0]] + s.queue[1..];
  }

  /** A worker that holds a task can always run it, and one that has run it can report. */
  lemma BusyEnabledIff(s: Pool, w: nat)
    requires Inv(s) && w in s.workers
    ensures (exists s' :: WorkerRuns(s, w, s')) <==> s.workers[w].Running?
    ensures (exists s' :: WorkerReports(s, w, s')) <==> s.workers[w].Ran?
  {
    if s.workers[w].Running? {
      assert WorkerRuns(s, w, s.(workers := s.workers[w := Ran(s.workers[w].task)], ran := s.ran + [s.workers[w].task]));
    }
    if s.workers[w].Ran? {
      assert w in Busy(s.workers);
      assert WorkerReports(s, w, Reported(s, w));
    }
  }

  function Reported(s: Pool, w: nat): Pool
    requires s.nworking > 0
  {
    var t := s.(workers := s.workers[w := Top], nworking := s.nworking - 1);
    if !t.stopped && t.nworking == 0 && t.Count() == 0 then SignalStopper(t) else t
  }

  /** The signal a reporting worker gives while the pool is not stopped wakes nobody: the only
      thread that waits for it sets the stop flag first. */
  lemma ReportWakesNobody(s: Pool, w: nat, s': Pool)
    requires Inv(s) && WorkerReports(s, w, s')
    ensures s' == s.(workers := s.workers[w := Top], nworking := s.nworking - 1)
  {}

  /** A producer with a task gets it queued exactly when there is room, and waits otherwise. */
  lemma ProducerEnabledIff(s: Pool, p: nat, task: nat)
    requires p in s.producers && (s.producers[p].Arrived? || s.producers[p].Unblocked?) && task !in s.added
    ensures (exists s' :: ProducerAdds(s, p, s', task)) <==> |s.queue| < s.cap
    ensures (exists s' :: ProducerWaits(s, p, s')) <==> |s.queue| >= s.cap
  {
    if |s.queue| < s.cap {
      var t := s.(producers := s.producers[p := Away], queue := s.queue + [task], added := s.added + [task]);
      assert ProducerAdds(s, p, Broadcast(t), task);
    } else {
      assert ProducerWaits(s, p, s.(producers := s.producers[p := Blocked]));
    }
  }

  // ---------------------------------------------------------------- a stop can always finish

  /** Steps of the pool, from any state. */
  ghost predicate Path(run: seq<Pool>, who: seq<nat>) {
    |run| == |who| + 1 && forall i :: 0 <= i < |who| ==> Step(run[i], who[i], run[i + 1])
  }

  lemma Prepended(s: Pool, w: nat, run: seq<Pool>, who: seq<nat>) returns (run': seq<Pool>, who': seq<nat>)
    requires Path(run, who) && Step(s, w, run[0])
    ensures Path(run', who') && run'[0] == s && run'[|run'| - 1] == run[|run| - 1]
  {
    run', who' := [s] + run, [w] + who;
    hide Step;
    forall i | 0 <= i < |who'|
      ensures Step(run'[i], who'[i], run'[i + 1])
    {
      if i > 0 { assert Step(run[i - 1], who[i - 1], run[i - 1 + 1]); }
    }
  }

  function Executing(ws: map<nat, Worker>): set<nat> { set w | w in ws && ws[w].Running? }

  /** The pool is being stopped. */
  predicate Closing(s: Pool) {
    s.stopped && !s.ctl.Idle?
  }

  /** One step towards the end of a stop: finish a task, take one, exit, or return. */
  lemma ClosingStep(s: Pool) returns (w: nat, s': Pool)
    requires Inv(s) && Closing(s)
    ensures Step(s, w, s')
    ensures s'.ctl.Idle? ||
            (Closing(s') &&
             (|s'.queue| < |s.queue|
              || (s'.queue == s.queue && |Executing(s'.workers)| + |Busy(s'.workers)| < |Executing(s.workers)| + |Busy(s.workers)|)
              || (s'.queue == s.queue && s'.nthreads < s.nthreads
                  && |Executing(s'.workers)| + |Busy(s'.workers)| <= |Executing(s.workers)| + |Busy(s.workers)|)))
  {
    if Busy(s.workers) != {} {
      w :| w in Busy(s.workers);
      s' := FinishStep(s, w);
    } else if Alive(s.workers) == {} {
      w, s' := 0, s.(ctl := Idle);
      assert StopReturns(s, s');
    } else {
      w :| w in Alive(s.workers);
      s' := FreeStep(s, w);
    }
  }

  lemma FinishStep(s: Pool, w: nat) returns (s': Pool)
    requires Inv(s) && Closing(s) && w in Busy(s.workers)
    ensures Step(s, w, s') && Closing(s') && s'.queue == s.queue
    ensures |Executing(s'.workers)| + |Busy(s'.workers)| < |Executing(s.workers)| + |Busy(s.workers)|
  {
    var ws := s.workers;
    if ws[w].Running? {
      s' := s.(workers := ws[w := Ran(ws[w].task)], ran := s.ran + [ws[w].task]);
      assert WorkerRuns(s, w, s');
      Moved(ws, w, Ran(ws[w].task));
      assert Executing(s'.workers) == Executing(ws) - {w} && w in Executing(ws);
    } else {
      s' := Reported(s, w);
      assert WorkerReports(s, w, s');
      Moved(ws, w, Top);
      assert Executing(s'.workers) == Executing(ws);
    }
  }

  lemma FreeStep(s: Pool, w: nat) returns (s': Pool)
    requires Inv(s) && Closing(s) && Busy(s.workers) == {} && w in Alive(s.workers)
    ensures Step(s, w, s') && Closing(s')
    ensures |s'.queue| < |s.queue|
            || (s'.queue == s.queue && s'.nthreads < s.nthreads
                && |Executing(s'.workers)| + |Busy(s'.workers)| <= |Executing(s.workers)| + |Busy(s.workers)|)
  {
    assert w !in Busy(s.workers);
    assert AtTop(s, w);
    if s.queue != [] {
      s' := Taken(s, w);
      TakenSteps(s, w);
    } else {
      var ws := s.workers[w := Exited];
      s' := SignalStopper(s.(workers := ws, nthreads := s.nthreads - 1));
      assert WorkerExits(s, w, s');
      assert Busy(ws) == {} && Executing(ws) == {};
    }
  }

  /** From every state in which the pool is being stopped, some run brings tp_stop to its return:
      no order of tasks, waits and wakeups leads to a state from which it cannot. */
  lemma {:induction false} StopCanFinish(s: Pool) returns (run: seq<Pool>, who: seq<nat>)
    requires Inv(s) && Closing(s)
    ensures Path(run, who) && run[0] == s && run[|run| - 1].ctl.Idle?
    decreases |s.queue|, |Executing(s.workers)| + |Busy(s.workers)|, s.nthreads
  {
    var w, s' := ClosingStep(s);
    hide Step;
    if s'.ctl.Idle? {
      run, who := [s, s'], [w];
    } else {
      StepKeeps(s, w, s');
      hide Inv;
      run, who := StopCanFinish(s');
      run, who := Prepended(s, w, run, who);
    }
  }
}
