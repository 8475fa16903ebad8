/**
 CAContextHandle: clients push tasks to a queue, one worker thread executes them, a halting thread stops it.

 The protocol is an interleaving of atomic steps. A step is a region under the mutex, a notification,
 or the execution of one task; a blocked wait is given up and taken again as separate steps.
 */
module ContextQueue {
  type Task = nat

  /** One HandleTask call. Calls are numbered as they begin, and a task bears the number of its call. */
  datatype ClientPc =
    | Checked            // saw halt == false, has not pushed yet
    | Pushed             // has pushed, has not notified yet
    | Waiting            // blocked on the task's future
    | Rejected           // returned false because halt was set
    | Returned(result: bool)

  datatype HalterPc = Idle | HaltSet | Joining | Joined

  datatype WorkerPc =
    | Starting                                // before line 103
    | Sleeping                                // inside cond.wait, mutex released
    | Awake                                   // notified or woken spuriously, mutex not taken yet
    | Running(batch: seq<Task>, cache: bool)  // executing the swapped out queue
    | Exited(looped: bool)                    // context destroyed

  datatype State = State(
    queue: seq<Task>,
    halt: bool,
    worker: WorkerPc,
    halter: HalterPc,
    clients: seq<ClientPc>,
    // history
    pushed: seq<Task>,
    executed: seq<Task>,
    results: map<Task, bool>,
    swapped: nat,      // pushes taken over by the worker so far
    atHalt: nat        // pushes made when halt was set
  )

  const INITIAL := State([], false, Starting, Idle, [], [], [], map[], 0, 0)

  datatype Step =
    | Check                         // lines 52-56, a new call
    | PushTask(t: Task)             // lines 60-61
    | NotifyPush(t: Task)           // line 63
    | Return(t: Task)               // line 64
    | SetHalt                       // lines 87-88
    | NotifyHalt                    // line 90
    | Join                          // line 91
    | Start                         // lines 103-113, first pass
    | Relock                        // lines 120, 107-113, next pass
    | WakeUp                        // spurious
    | Resume                        // lines 109-113 after a wake-up
    | Execute(result: bool)         // lines 116-118

  /** notify_one: only the worker ever waits. */
  function Notified(w: WorkerPc): WorkerPc {
    if w.Sleeping? then Awake else w
  }

  /** With the mutex held: evaluate the predicate, and either sleep or swap and release. */
  function WaitOrSwap(s: State): State {
    if s.halt || s.queue != [] then
      s.(worker := Running(s.queue, s.halt), queue := [], swapped := s.swapped + |s.queue|)
    else s.(worker := Sleeping)
  }

  predicate Enabled(s: State, a: Step) {
    match a
    case Check => true
    case PushTask(t) => t < |s.clients| && s.clients[t].Checked?
    case NotifyPush(t) => t < |s.clients| && s.clients[t].Pushed?
    case Return(t) => t < |s.clients| && s.clients[t].Waiting? && t in s.results
    case SetHalt => s.halter.Idle?
    case NotifyHalt => s.halter.HaltSet?
    case Join => s.halter.Joining? && s.worker.Exited?
    case Start => s.worker.Starting?
    case Relock => s.worker.Running? && s.worker.batch == []
    case WakeUp => s.worker.Sleeping?
    case Resume => s.worker.Awake?
    case Execute(_) => s.worker.Running? && s.worker.batch != []
  }

  function Next(s: State, a: Step): State
    requires Enabled(s, a)
  {
    match a
    case Check => s.(clients := s.clients + [if s.halt then Rejected else Checked])
    case PushTask(t) =>
      s.(clients := s.clients[t := Pushed], queue := s.queue + [t], pushed := s.pushed + [t])
    case NotifyPush(t) => s.(clients := s.clients[t := Waiting], worker := Notified(s.worker))
    case Return(t) => s.(clients := s.clients[t := Returned(s.results[t])])
    case SetHalt => s.(halt := true, halter := HaltSet, atHalt := |s.pushed|)
    case NotifyHalt => s.(halter := Joining, worker := Notified(s.worker))
    case Join => s.(halter := Joined)
    case Start => if s.halt then s.(worker := Exited(false)) else WaitOrSwap(s)
    case Relock => if s.worker.cache then s.(worker := Exited(true)) else WaitOrSwap(s)
    case WakeUp => s.(worker := Awake)
    case Resume => WaitOrSwap(s)
    case Execute(result) =>
      var t := s.worker.batch[0];
      s.(worker := s.worker.(batch := s.worker.batch[1..]), executed := s.executed + [t], results := s.results[t := result])
  }

  // ---------------------------------------------------------------------------------------------
  // Runs
  // ---------------------------------------------------------------------------------------------

  ghost predicate IsRun(s: State, steps: seq<Step>, s': State)
    decreases steps
  {
    if steps == [] then s == s'
    else Enabled(s, steps[0]) && IsRun(Next(s, steps[0]), steps[1..], s')
  }

  ghost predicate Reachable(s: State) {
    exists steps :: IsRun(INITIAL, steps, s)
  }

  function Batch(s: State): seq<Task> {
    if s.worker.Running? then s.worker.batch else []
  }

  /** A client or the halting thread is between its locked update and its notification. */
  ghost predicate WakePending(s: State) {
    s.halter.HaltSet? || exists t :: 0 <= t < |s.clients| && s.clients[t].Pushed?
  }

  ghost predicate HasPushed(s: State, t: Task) {
    t < |s.clients| && (s.clients[t].Pushed? || s.clients[t].Waiting? || s.clients[t].Returned?)
  }

  ghost predicate Conservation(s: State) {
    && s.executed + Batch(s) + s.queue == s.pushed
    && |s.executed| + |Batch(s)| == s.swapped
  }

  ghost predicate Accounting(s: State) {
    && (forall i, j :: 0 <= i < j < |s.pushed| ==> s.pushed[i] != s.pushed[j])
    && (forall t :: t in s.pushed <==> HasPushed(s, t))
    && (forall t :: t in s.results <==> t in s.executed)
    && (forall t :: 0 <= t < |s.clients| && s.clients[t].Returned? ==> t in s.results && s.clients[t].result == s.results[t])
  }

  ghost predicate Halting(s: State) {
    && (s.halt <==> !s.halter.Idle?)
    && s.atHalt <= |s.pushed|
    && (s.worker.Running? && s.worker.cache ==> s.halt && s.atHalt <= s.swapped)
    && (s.worker == Exited(true) ==> s.halt && s.atHalt <= s.swapped)
    && (s.worker == Exited(false) ==> s.halt && s.executed == [])
    && (s.worker.Starting? ==> s.swapped == 0)
    && (s.halter.Joined? ==> s.worker.Exited?)
  }

  ghost predicate NoLostWakeup(s: State) {
    s.worker.Sleeping? && (s.halt || s.queue != []) ==> WakePending(s)
  }

  ghost predicate Inv(s: State) {
    Conservation(s) && Accounting(s) && Halting(s) && NoLostWakeup(s)
  }

  // ---------------------------------------------------------------------------------------------
  // Every step keeps the invariant
  // ---------------------------------------------------------------------------------------------

  lemma {:induction false} WaitOrSwapConserves(s: State)
    requires Conservation(s) && Batch(s) == []
    ensures Conservation(WaitOrSwap(s))
  {
    var s' := WaitOrSwap(s);
    assert Batch(s') + s'.queue == s.queue;
    assert s.executed + (Batch(s') + s'.queue) == s.executed + Batch(s') + s'.queue;
    assert s.executed + Batch(s) + s.queue == s.executed + s.queue;
  }

  lemma {:induction false} StepConserves(s: State, a: Step)
    requires Conservation(s) && Enabled(s, a)
    ensures Conservation(Next(s, a))
  {
    var s' := Next(s, a);
    match a
    case PushTask(t) =>
      assert s.executed + Batch(s) + (s.queue + [t]) == s.executed + Batch(s) + s.queue + [t];
    case Execute(_) =>
      assert s'.executed + Batch(s') == s.executed + Batch(s);
    case Start => WaitOrSwapConserves(s);
    case Relock => WaitOrSwapConserves(s);
    case Resume => WaitOrSwapConserves(s);
    case _ =>
  }

  lemma {:induction false} FrontIsNew(s: State)
    requires Conservation(s) && Batch(s) != [] && forall i, j :: 0 <= i < j < |s.pushed| ==> s.pushed[i] != s.pushed[j]
    ensures Batch(s)[0] !in s.executed
  {
    var n := |s.executed|;
    assert s.executed == s.pushed[..n] && Batch(s)[0] == s.pushed[n];
  }

  lemma {:induction false} StepAccounts(s: State, a: Step)
    requires Conservation(s) && Accounting(s) && Enabled(s, a)
    ensures Accounting(Next(s, a))
  {
    match a
    case PushTask(t) => PushAccounts(s, t);
    case Execute(result) => ExecuteAccounts(s, result);
    case Check => ClientAccounts(s, a);
    case NotifyPush(_) => ClientAccounts(s, a);
    case Return(_) => ClientAccounts(s, a);
    case _ =>
      var s' := Next(s, a);
      assert s'.clients == s.clients && s'.pushed == s.pushed && s'.executed == s.executed && s'.results == s.results;
      assert forall t :: HasPushed(s', t) <==> HasPushed(s, t);
  }

  lemma {:induction false} ClientAccounts(s: State, a: Step)
    requires Accounting(s) && Enabled(s, a) && (a.Check? || a.NotifyPush? || a.Return?)
    ensures Accounting(Next(s, a))
  {
    assert forall t :: HasPushed(Next(s, a), t) <==> HasPushed(s, t);
  }

  lemma {:induction false} PushAccounts(s: State, t: Task)
    requires Accounting(s) && Enabled(s, PushTask(t))
    ensures Accounting(Next(s, PushTask(t)))
  {
    assert t !in s.pushed;
    assert forall u :: u in s.pushed + [t] <==> u in s.pushed || u == t;
  }

  lemma {:induction false} ExecuteAccounts(s: State, result: bool)
    requires Conservation(s) && Accounting(s) && Enabled(s, Execute(result))
    ensures Accounting(Next(s, Execute(result)))
  {
    FrontIsNew(s);
    var t := s.worker.batch[0];
    assert forall u :: u in s.executed + [t] <==> u in s.executed || u == t;
  }

  lemma {:induction false} StepHalts(s: State, a: Step)
    requires Conservation(s) && Halting(s) && Enabled(s, a)
    ensures Halting(Next(s, a))
  {
    StepConserves(s, a);
  }

  lemma {:induction false} StepWakes(s: State, a: Step)
    requires NoLostWakeup(s) && Enabled(s, a)
    ensures NoLostWakeup(Next(s, a))
  {
    var s' := Next(s, a);
    if s.worker.Sleeping? && (s.halt || s.queue != []) && !s.halter.HaltSet? && (a.Check? || a.Return? || a.Join?) {
      var t :| 0 <= t < |s.clients| && s.clients[t].Pushed?;
      assert s'.clients[t].Pushed?;
    } else if a.PushTask? {
      assert s'.clients[a.t].Pushed?;
    }
  }

  lemma {:induction false} StepKeepsInv(s: State, a: Step)
    requires Inv(s) && Enabled(s, a)
    ensures Inv(Next(s, a))
  {
    StepConserves(s, a);
    StepAccounts(s, a);
    StepHalts(s, a);
    StepWakes(s, a);
  }

  lemma {:induction false} RunKeepsInv(s: State, steps: seq<Step>, s': State)
    requires Inv(s) && IsRun(s, steps, s')
    ensures Inv(s')
    decreases steps
  {
    if steps != [] {
      StepKeepsInv(s, steps[0]);
      RunKeepsInv(Next(s, steps[0]), steps[1..], s');
    }
  }

  lemma {:induction false} ReachableInv(s: State)
    requires Reachable(s)
    ensures Inv(s)
  {
    var steps :| IsRun(INITIAL, steps, s);
    RunKeepsInv(INITIAL, steps, s);
  }

  // ---------------------------------------------------------------------------------------------
  // Safety over all runs
  // ---------------------------------------------------------------------------------------------

  /** Executed, swapped out and queued tasks are the pushes in order: each runs at most once, in push order. */
  lemma {:induction false} FifoConservation(s: State)
    requires Reachable(s)
    ensures s.executed + Batch(s) + s.queue == s.pushed
    ensures forall i, j :: 0 <= i < j < |s.executed| ==> s.executed[i] != s.executed[j]
  {
    ReachableInv(s);
    assert forall i :: 0 <= i < |s.executed| ==> s.executed[i] == s.pushed[i];
  }

  /** A call returns what its own task returned. */
  lemma {:induction false} OwnResult(s: State, t: Task)
    requires Reachable(s) && t < |s.clients| && s.clients[t].Returned?
    ensures t in s.executed && t in s.results && s.clients[t].result == s.results[t]
  {
    ReachableInv(s);
  }

  /**
   When the context is destroyed, exactly the tasks taken by the last swap or before have run. If the
   worker's loop was entered at all, these include every task pushed before halt was set.
   */
  lemma {:induction false} HaltDrain(s: State)
    requires Reachable(s) && s.worker.Exited?
    ensures s.swapped <= |s.pushed| && s.executed == s.pushed[..s.swapped] && s.queue == s.pushed[s.swapped..]
    ensures s.worker.looped ==> s.atHalt <= s.swapped && s.pushed[..s.atHalt] <= s.executed
    ensures !s.worker.looped ==> s.executed == []
  {
    ReachableInv(s);
    assert s.executed + Batch(s) == s.executed;
  }

  /** Halting returns only after the worker has left. */
  lemma {:induction false} JoinedAfterExit(s: State)
    requires Reachable(s) && s.halter.Joined?
    ensures s.worker.Exited?
  {
    ReachableInv(s);
  }

  lemma {:induction false} RejectedStays(s: State, steps: seq<Step>, s': State, t: Task)
    requires t < |s.clients| && s.clients[t].Rejected? && IsRun(s, steps, s')
    ensures t < |s'.clients| && s'.clients[t].Rejected?
    decreases steps
  {
    if steps != [] {
      RejectedStays(Next(s, steps[0]), steps[1..], s', t);
    }
  }

  /** A call is refused exactly if halting has begun when it checks, and a refused call never pushes anything. */
  lemma {:induction false} RefusedExactly(s: State, steps: seq<Step>, s': State)
    requires Reachable(s) && IsRun(Next(s, Check), steps, s')
    ensures var t := |s.clients|;
      && |Next(s, Check).clients| == t + 1
      && (Next(s, Check).clients[t].Rejected? <==> !s.halter.Idle?)
      && (!s.halter.Idle? ==> t < |s'.clients| && s'.clients[t].Rejected? && t !in s'.pushed && t !in s'.executed)
  {
    ReachableInv(s);
    var t := |s.clients|;
    if !s.halter.Idle? {
      RejectedStays(Next(s, Check), steps, s', t);
      StepKeepsInv(s, Check);
      RunKeepsInv(Next(s, Check), steps, s');
      assert !HasPushed(s', t);
      assert t !in s'.executed + Batch(s') + s'.queue;
    }
  }

  /** A sleeping worker with something to do is about to be notified. */
  lemma {:induction false} WakeupIsNeverLost(s: State)
    requires Reachable(s) && s.worker.Sleeping? && (s.halt || s.queue != [])
    ensures exists a :: Enabled(s, a) && Next(s, a).worker.Awake? && (a.NotifyHalt? || a.NotifyPush?)
  {
    ReachableInv(s);
    if s.halter.HaltSet? {
      assert Enabled(s, NotifyHalt) && Next(s, NotifyHalt).worker.Awake?;
    } else {
      var t :| 0 <= t < |s.clients| && s.clients[t].Pushed?;
      assert Enabled(s, NotifyPush(t)) && Next(s, NotifyPush(t)).worker.Awake?;
    }
  }

  // ---------------------------------------------------------------------------------------------
  // Progress
  // ---------------------------------------------------------------------------------------------

  /** Steps of calls and threads that have begun; not new calls, the decision to halt or spurious wake-ups. */
  predicate Internal(a: Step) {
    !a.Check? && !a.SetHalt? && !a.WakeUp?
  }

  function ClientWork(pc: ClientPc): nat {
    match pc
    case Checked => 8
    case Pushed => 5
    case Waiting => 1
    case _ => 0
  }

  function ClientsWork(clients: seq<ClientPc>): nat {
    if clients == [] then 0 else ClientsWork(clients[..|clients| - 1]) + ClientWork(clients[|clients| - 1])
  }

  function WorkerWork(w: WorkerPc): nat {
    match w
    case Starting => 3
    case Awake => 3
    case Running(batch, cache) => |batch| + if cache then 1 else 2
    case Sleeping => 0
    case Exited(_) => 0
  }

  function HalterWork(h: HalterPc): nat {
    match h
    case HaltSet => 5
    case Joining => 1
    case _ => 0
  }

  function Work(s: State): nat {
    ClientsWork(s.clients) + WorkerWork(s.worker) + HalterWork(s.halter) + 2 * |s.queue|
  }

  lemma {:induction false} ClientMoves(clients: seq<ClientPc>, t: nat, pc: ClientPc)
    requires t < |clients|
    ensures ClientsWork(clients[t := pc]) == ClientsWork(clients) - ClientWork(clients[t]) + ClientWork(pc)
    decreases clients
  {
    var n := |clients| - 1;
    if t < n {
      assert clients[t := pc][..n] == clients[..n][t := pc];
      ClientMoves(clients[..n], t, pc);
    } else {
      assert clients[t := pc][..n] == clients[..n];
    }
  }

  /** Whatever the schedule, begun work comes closer to its end with every step. */
  lemma {:induction false} InternalStepsMakeProgress(s: State, a: Step)
    requires Enabled(s, a) && Internal(a)
    ensures Work(Next(s, a)) < Work(s)
  {
    match a
    case PushTask(t) => ClientMoves(s.clients, t, Pushed);
    case NotifyPush(t) => ClientMoves(s.clients, t, Waiting);
    case Return(t) => ClientMoves(s.clients, t, Returned(s.results[t]));
    case _ =>
  }

  lemma {:induction false} InternalRunsAreBounded(s: State, steps: seq<Step>, s': State)
    requires IsRun(s, steps, s') && forall a :: a in steps ==> Internal(a)
    ensures |steps| <= Work(s)
    decreases steps
  {
    if steps != [] {
      assert steps[0] in steps;
      InternalStepsMakeProgress(s, steps[0]);
      InternalRunsAreBounded(Next(s, steps[0]), steps[1..], s');
    }
  }

  ghost predicate Quiescent(s: State) {
    forall a :: Internal(a) ==> !Enabled(s, a)
  }

  /** When nothing begun can move any more, the only calls left are those the exited worker left behind. */
  lemma {:induction false} QuiescentCalls(s: State, t: Task)
    requires Reachable(s) && Quiescent(s) && t < |s.clients|
    ensures s.swapped <= |s.pushed|
    ensures s.clients[t].Rejected? || s.clients[t].Returned?
         || (s.clients[t].Waiting? && s.worker.Exited? && t in s.pushed[s.swapped..])
    ensures s.halter.Idle? || (s.halter.Joined? && s.worker.Exited?)
  {
    ReachableInv(s);
    QuiescentThreads(s);
    if s.worker.Exited? {
      HaltDrain(s);
    }
    if s.clients[t].Waiting? {
      assert HasPushed(s, t) && t !in s.executed by {
        assert !Enabled(s, Return(t));
      }
      assert s.executed + Batch(s) + s.queue == s.executed + s.queue;
    }
  }

  lemma {:induction false} QuiescentThreads(s: State)
    requires NoLostWakeup(s) && Quiescent(s)
    ensures s.halter.Idle? || s.halter.Joined? || s.halter.Joining?
    ensures s.halter.Joining? ==> !s.worker.Exited?
    ensures s.worker.Exited? || (s.worker.Sleeping? && !s.halt && s.queue == [])
    ensures forall t :: 0 <= t < |s.clients| ==> !s.clients[t].Checked? && !s.clients[t].Pushed?
  {
    assert !Enabled(s, Start) && !Enabled(s, Relock) && !Enabled(s, Resume) && !Enabled(s, Execute(true));
    assert !Enabled(s, NotifyHalt) && !Enabled(s, Join);
    forall t | 0 <= t < |s.clients| ensures !s.clients[t].Checked? && !s.clients[t].Pushed? {
      assert !Enabled(s, PushTask(t)) && !Enabled(s, NotifyPush(t));
    }
  }

  // ---------------------------------------------------------------------------------------------
  // A call that races with halting can be left behind
  // ---------------------------------------------------------------------------------------------

  lemma {:induction false} ExitedStaysIdle(s: State, steps: seq<Step>, s': State)
    requires s.worker.Exited? && IsRun(s, steps, s')
    ensures s'.worker == s.worker && s'.executed == s.executed && s'.results == s.results
    decreases steps
  {
    if steps != [] {
      ExitedStaysIdle(Next(s, steps[0]), steps[1..], s');
    }
  }

  lemma {:induction false} RunExtends(s: State, steps: seq<Step>, s': State, a: Step)
    requires IsRun(s, steps, s') && Enabled(s', a)
    ensures IsRun(s, steps + [a], Next(s', a))
    decreases steps
  {
    if steps == [] {
      assert [a][1..] == [];
    } else {
      assert (steps + [a])[1..] == steps[1..] + [a];
      RunExtends(Next(s, steps[0]), steps[1..], s', a);
    }
  }

  lemma {:induction false} ReachableStep(s: State, a: Step)
    requires Reachable(s) && Enabled(s, a)
    ensures Reachable(Next(s, a))
  {
    var steps :| IsRun(INITIAL, steps, s);
    RunExtends(INITIAL, steps, s, a);
  }

  lemma {:induction false} InitialIsReachable()
    ensures Reachable(INITIAL)
  {
    assert IsRun(INITIAL, [], INITIAL);
  }

  /** A call has seen halt unset, and then the worker was halted and left. */
  lemma {:induction false} ExitDuringCall() returns (s: State)
    ensures Reachable(s) && s.clients == [Checked] && s.worker == Exited(true) && s.results == map[]
  {
    InitialIsReachable();
    ReachableStep(INITIAL, Check);
    var s1 := Next(INITIAL, Check);
    ReachableStep(s1, Start);
    var s2 := Next(s1, Start);
    ReachableStep(s2, SetHalt);
    var s3 := Next(s2, SetHalt);
    ReachableStep(s3, NotifyHalt);
    var s4 := Next(s3, NotifyHalt);
    ReachableStep(s4, Resume);
    var s5 := Next(s4, Resume);
    ReachableStep(s5, Relock);
    s := Next(s5, Relock);
  }

  /** The task that is pushed then is never executed, and its call waits for a result that does not come. */
  lemma {:induction false} LatePushIsNeverExecuted() returns (s: State)
    ensures Reachable(s) && s.clients == [Waiting] && s.worker == Exited(true)
    ensures forall steps, s' :: IsRun(s, steps, s') ==> 0 !in s'.results
  {
    var s0 := ExitDuringCall();
    ReachableStep(s0, PushTask(0));
    var s1 := Next(s0, PushTask(0));
    ReachableStep(s1, NotifyPush(0));
    s := Next(s1, NotifyPush(0));
    forall steps, s' | IsRun(s, steps, s') ensures 0 !in s'.results {
      ExitedStaysIdle(s, steps, s');
    }
  }

  /** Halt set before the worker reads it at line 106: the loop is never entered, and an earlier push is not executed. */
  lemma {:induction false} HaltBeforeStart() returns (s: State)
    ensures Reachable(s) && s.worker == Exited(false) && s.pushed == [0] && s.atHalt == 1 && s.executed == []
  {
    InitialIsReachable();
    ReachableStep(INITIAL, Check);
    var s1 := Next(INITIAL, Check);
    ReachableStep(s1, PushTask(0));
    var s2 := Next(s1, PushTask(0));
    ReachableStep(s2, SetHalt);
    var s3 := Next(s2, SetHalt);
    ReachableStep(s3, Start);
    s := Next(s3, Start);
  }

  // ---------------------------------------------------------------------------------------------
  // Which queued tasks can still be executed
  // ---------------------------------------------------------------------------------------------

  /** The worker will not take the queue again: it has left, has read halt in its last swap, or will on its first look. */
  predicate Blocked(s: State) {
    s.worker.Exited? || (s.worker.Running? && s.worker.cache) || (s.worker.Starting? && s.halt)
  }

  lemma {:induction false} BlockedStays(s: State, steps: seq<Step>, s': State, t: Task)
    requires Blocked(s) && t in s.queue && t !in s.executed && t !in Batch(s) && IsRun(s, steps, s')
    ensures t !in s'.executed
    decreases steps
  {
    if steps != [] {
      BlockedStays(Next(s, steps[0]), steps[1..], s', t);
    }
  }

  lemma {:induction false} QueuedIsNotExecuted(s: State, t: Task)
    requires Conservation(s) && Accounting(s) && t in s.queue
    ensures t !in s.executed && t !in Batch(s)
  {
    var n, m := |s.executed|, |s.executed| + |Batch(s)|;
    var k :| 0 <= k < |s.queue| && s.queue[k] == t;
    assert s.pushed[m + k] == t;
    assert forall i :: 0 <= i < n ==> s.executed[i] == s.pushed[i];
    assert forall i :: 0 <= i < |Batch(s)| ==> Batch(s)[i] == s.pushed[n + i];
  }

  /** The worker's own next step towards a task that waits for it. */
  function WorkerStep(w: WorkerPc): Step {
    match w
    case Starting => Start
    case Sleeping => WakeUp
    case Awake => Resume
    case Running(batch, _) => if batch == [] then Relock else Execute(true)
    case Exited(_) => Join
  }

  function Distance(w: WorkerPc): nat {
    match w
    case Sleeping => 1
    case Running(batch, _) => |batch|
    case _ => 0
  }

  /** By steps of the worker alone the task gets executed. */
  lemma {:induction false} QueuedCanRun(s: State, t: Task) returns (steps: seq<Step>, s': State)
    requires t in Batch(s) || (t in s.queue && !Blocked(s))
    ensures IsRun(s, steps, s') && t in s'.executed && s'.clients == s.clients
    decreases t !in Batch(s), Distance(s.worker)
  {
    var a := WorkerStep(s.worker);
    var s1 := Next(s, a);
    if t in s1.executed {
      steps, s' := [a], s1;
      assert [a][1..] == [];
    } else {
      assert t in Batch(s) ==> t in Batch(s1);
      var rest;
      rest, s' := QueuedCanRun(s1, t);
      steps := [a] + rest;
      assert steps[1..] == rest;
    }
  }

  /** A queued task can still be executed if and only if the worker will look at the queue again. */
  lemma {:induction false} QueuedRunsExactly(s: State, t: Task)
    requires Reachable(s) && t in s.queue
    ensures (exists steps, s' :: IsRun(s, steps, s') && t in s'.executed) <==> !Blocked(s)
  {
    ReachableInv(s);
    QueuedIsNotExecuted(s, t);
    if Blocked(s) {
      forall steps, s' | IsRun(s, steps, s') ensures t !in s'.executed {
        BlockedStays(s, steps, s', t);
      }
    } else {
      var run, end := QueuedCanRun(s, t);
      assert exists steps, s' :: IsRun(s, steps, s') && t in s'.executed by {
        assert IsRun(s, run, end) && t in end.executed;
      }
    }
  }

  lemma {:induction false} ExecutedCanReturn(s: State, t: Task) returns (steps: seq<Step>, s': State)
    requires Inv(s) && t in s.executed && t < |s.clients| && (s.clients[t].Pushed? || s.clients[t].Waiting?)
    ensures IsRun(s, steps, s') && t < |s'.clients| && s'.clients[t].Returned?
  {
    var s1 := s;
    steps := [];
    if s.clients[t].Pushed? {
      s1 := Next(s, NotifyPush(t));
      steps := [NotifyPush(t)];
      assert steps[1..] == [];
    }
    s' := Next(s1, Return(t));
    RunExtends(s, steps, s1, Return(t));
    steps := steps + [Return(t)];
  }

  lemma {:induction false} RunsCompose(s: State, a: seq<Step>, s1: State, b: seq<Step>, s2: State)
    requires IsRun(s, a, s1) && IsRun(s1, b, s2)
    ensures IsRun(s, a + b, s2)
    decreases a
  {
    if a == [] {
      assert a + b == b;
    } else {
      assert (a + b)[1..] == a[1..] + b;
      RunsCompose(Next(s, a[0]), a[1..], s1, b, s2);
    }
  }

  /** A call that has pushed can return unless its task is queued and the worker will not look at the queue again. */
  lemma {:induction false} WaitingReturnsExactly(s: State, t: Task)
    requires Reachable(s) && t < |s.clients| && (s.clients[t].Pushed? || s.clients[t].Waiting?)
    ensures (exists steps, s' :: IsRun(s, steps, s') && t < |s'.clients| && s'.clients[t].Returned?)
       <==> !(t in s.queue && Blocked(s))
  {
    ReachableInv(s);
    if t in s.queue && Blocked(s) {
      QueuedIsNotExecuted(s, t);
      forall steps, s' | IsRun(s, steps, s') && t < |s'.clients| ensures !s'.clients[t].Returned? {
        BlockedStays(s, steps, s', t);
        RunKeepsInv(s, steps, s');
        assert s'.clients[t].Returned? ==> t in s'.results;
      }
    } else {
      assert HasPushed(s, t) && t in s.pushed;
      assert t in s.executed + Batch(s) + s.queue;
      var first, s1 := [], s;
      if t !in s.executed {
        first, s1 := QueuedCanRun(s, t);
      }
      assert IsRun(s, first, s1);
      RunKeepsInv(s, first, s1);
      var second, end := ExecutedCanReturn(s1, t);
      RunsCompose(s, first, s1, second, end);
      assert exists steps, s' :: IsRun(s, steps, s') && t < |s'.clients| && s'.clients[t].Returned? by {
        assert IsRun(s, first + second, end) && t < |end.clients| && end.clients[t].Returned?;
      }
    }
  }

  /** The task is executed, taken, or queued for a worker that is in its loop and has not read halt. */
  ghost predicate Accepted(s: State, t: Task) {
    || t in s.executed || t in Batch(s)
    || (t in s.queue && (s.worker.Sleeping? || s.worker.Awake? || (s.worker.Running? && !s.worker.cache)))
  }

  lemma {:induction false} AcceptedStays(s: State, steps: seq<Step>, s': State, t: Task)
    requires Accepted(s, t) && IsRun(s, steps, s')
    ensures Accepted(s', t)
    decreases steps
  {
    if steps != [] {
      var a := steps[0];
      var s1 := Next(s, a);
      if a.Execute? && t in Batch(s) {
        assert s1.executed + Batch(s1) == s.executed + Batch(s);
        assert t in s1.executed + Batch(s1);
      }
      AcceptedStays(s1, steps[1..], s', t);
    }
  }

  /**
   A task that is pushed while the worker sleeps, is awake or runs a batch without having read halt is
   executed, and its call returns, however the run goes on, by the time everything begun is at rest.
   */
  lemma {:induction false} AcceptedIsExecuted(s: State, steps: seq<Step>, s': State, t: Task)
    requires Reachable(s) && Accepted(s, t) && IsRun(s, steps, s') && Quiescent(s')
    ensures t in s'.executed && t < |s'.clients| && t in s'.results && s'.clients[t] == Returned(s'.results[t])
  {
    ReachableInv(s);
    RunKeepsInv(s, steps, s');
    AcceptedStays(s, steps, s', t);
    QuiescentThreads(s');
    assert t in s'.executed;
    assert t in s'.pushed by {
      assert t in s'.executed + Batch(s') + s'.queue;
    }
    assert HasPushed(s', t) && !Enabled(s', Return(t));
  }

  // ---------------------------------------------------------------------------------------------
  // Under the manager's mutex
  // ---------------------------------------------------------------------------------------------

  predicate InFlight(pc: ClientPc) {
    pc.Checked? || pc.Pushed? || pc.Waiting?
  }

  ghost predicate NoneInFlight(s: State) {
    forall t :: 0 <= t < |s.clients| ==> !InFlight(s.clients[t])
  }

  /** One call at a time, no call after halting has begun, and halting only between calls. */
  ghost predicate SerialEnabled(s: State, a: Step) {
    && Enabled(s, a)
    && (a.Check? ==> NoneInFlight(s) && s.halter.Idle?)
    && (a.SetHalt? ==> NoneInFlight(s))
  }

  ghost predicate IsSerialRun(s: State, steps: seq<Step>, s': State)
    decreases steps
  {
    if steps == [] then s == s'
    else SerialEnabled(s, steps[0]) && IsSerialRun(Next(s, steps[0]), steps[1..], s')
  }

  ghost predicate SerialReachable(s: State) {
    exists steps :: IsSerialRun(INITIAL, steps, s)
  }

  ghost predicate SerialInv(s: State) {
    && Inv(s)
    && (forall t :: 0 <= t < |s.clients| ==> !s.clients[t].Rejected?)
    && (s.halt ==> NoneInFlight(s))
  }

  lemma {:induction false} SerialStepKeepsInv(s: State, a: Step)
    requires SerialInv(s) && SerialEnabled(s, a)
    ensures SerialInv(Next(s, a))
  {
    StepKeepsInv(s, a);
    var s' := Next(s, a);
    if a.PushTask? || a.NotifyPush? || a.Return? {
      assert InFlight(s.clients[a.t]);
    }
  }

  lemma {:induction false} SerialRunKeepsInv(s: State, steps: seq<Step>, s': State)
    requires SerialInv(s) && IsSerialRun(s, steps, s')
    ensures SerialInv(s')
    decreases steps
  {
    if steps != [] {
      SerialStepKeepsInv(s, steps[0]);
      SerialRunKeepsInv(Next(s, steps[0]), steps[1..], s');
    }
  }

  lemma {:induction false} SerialReachableInv(s: State)
    requires SerialReachable(s)
    ensures SerialInv(s)
  {
    var steps :| IsSerialRun(INITIAL, steps, s);
    SerialRunKeepsInv(INITIAL, steps, s);
  }

  lemma {:induction false} SerialRunExtends(s: State, steps: seq<Step>, s': State, a: Step)
    requires IsSerialRun(s, steps, s') && SerialEnabled(s', a)
    ensures IsSerialRun(s, steps + [a], Next(s', a))
    decreases steps
  {
    if steps == [] {
      assert [a][1..] == [];
    } else {
      assert (steps + [a])[1..] == steps[1..] + [a];
      SerialRunExtends(Next(s, steps[0]), steps[1..], s', a);
    }
  }

  lemma {:induction false} SerialReachableStep(s: State, a: Step)
    requires SerialReachable(s) && SerialEnabled(s, a)
    ensures SerialReachable(Next(s, a))
  {
    var steps :| IsSerialRun(INITIAL, steps, s);
    SerialRunExtends(INITIAL, steps, s, a);
  }

  lemma {:induction false} PushedIsExecuted(s: State, t: Task)
    requires Accounting(s) && NoneInFlight(s) && t in s.pushed
    ensures t in s.executed
  {
    assert HasPushed(s, t) && !InFlight(s.clients[t]);
  }

  /** With nothing in flight every push has been executed. */
  lemma {:induction false} NothingLeft(s: State)
    requires Conservation(s) && Accounting(s) && NoneInFlight(s)
    ensures s.executed == s.pushed && Batch(s) == [] && s.queue == []
  {
    var n := |s.executed|;
    assert s.executed == s.pushed[..n];
    if n < |s.pushed| {
      PushedIsExecuted(s, s.pushed[n]);
      assert false;
    }
  }

  /** No call is refused, and the worker leaves with nothing undone and nobody waiting. */
  lemma {:induction false} SerialCompletion(s: State)
    requires SerialReachable(s)
    ensures forall t :: 0 <= t < |s.clients| ==> !s.clients[t].Rejected?
    ensures s.worker.Exited? ==> s.queue == [] && s.executed == s.pushed
    ensures s.worker.Exited? || Quiescent(s) ==>
      forall t :: 0 <= t < |s.clients| ==> t in s.executed && t in s.results && s.clients[t] == Returned(s.results[t])
  {
    var steps :| IsSerialRun(INITIAL, steps, s);
    SerialRunKeepsInv(INITIAL, steps, s);
    if s.worker.Exited? {
      NothingLeft(s);
    } else if Quiescent(s) {
      SerialIsReachable(INITIAL, steps, s);
      QuiescentIsDone(s);
    }
  }

  lemma {:induction false} QuiescentIsDone(s: State)
    requires Reachable(s) && Quiescent(s) && SerialInv(s) && !s.worker.Exited?
    ensures forall t :: 0 <= t < |s.clients| ==> s.clients[t].Returned?
  {
    forall t | 0 <= t < |s.clients| ensures s.clients[t].Returned? {
      QuiescentCalls(s, t);
    }
  }

  lemma {:induction false} SerialIsReachable(s: State, steps: seq<Step>, s': State)
    requires IsSerialRun(s, steps, s')
    ensures IsRun(s, steps, s')
    decreases steps
  {
    if steps != [] {
      SerialIsReachable(Next(s, steps[0]), steps[1..], s');
    }
  }
}
