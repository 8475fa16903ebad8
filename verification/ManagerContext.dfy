/**
 The threads that use CAChannelManager: its mutex, and the context that the public calls create, hand tasks
 to and destroy. Together with the context's own thread these are runs of the queue protocol.
 */
module ManagerContext {
  import opened Results
  import Q = ContextQueue

  type Thread = nat

  /** Where a thread is in a public call: outside or inside HandleTask, or destroying the context. */
  datatype Pc = Between | InTask(t: Q.Task) | Halting

  /** The threads inside a public call, the mutex that is to keep them apart, and the context. */
  datatype State = State(owner: Option<Thread>, inside: map<Thread, Pc>, context: Option<Q.State>)

  const INITIAL := State(None, map[], None)

  datatype Step =
    | Lock(p: Thread)
    | Unlock(p: Thread)
    | EnsureContext(p: Thread)
    | Begin(p: Thread)         // HandleTask: the check of halt
    | Push(p: Thread)
    | Notify(p: Thread)
    | Finish(p: Thread)        // HandleTask returns the task's result
    | Refused(p: Thread)       // HandleTask returns false because of halt
    | Halt(p: Thread)          // ClearContextIfNotNeeded: the destructor of the context
    | NotifyHalt(p: Thread)
    | Join(p: Thread)
    | Worker(a: Q.Step)        // a step of the context's own thread

  predicate IsWorkerStep(a: Q.Step) {
    a.Start? || a.Relock? || a.WakeUp? || a.Resume? || a.Execute?
  }

  /** The step of the queue protocol that this is; none for the mutex and for the context's creation. */
  function QueueStep(pc: Pc, a: Step): Option<Q.Step> {
    match a
    case Begin(_) => if pc.Between? then Some(Q.Check) else None
    case Push(_) => if pc.InTask? then Some(Q.PushTask(pc.t)) else None
    case Notify(_) => if pc.InTask? then Some(Q.NotifyPush(pc.t)) else None
    case Finish(_) => if pc.InTask? then Some(Q.Return(pc.t)) else None
    case Halt(_) => if pc.Between? then Some(Q.SetHalt) else None
    case NotifyHalt(_) => if pc.Halting? then Some(Q.NotifyHalt) else None
    case Join(_) => if pc.Halting? then Some(Q.Join) else None
    case Worker(b) => if IsWorkerStep(b) then Some(b) else None
    case _ => None
  }

  /** Where the thread of the step is; the context's own thread is in no call. */
  function PcOf(s: State, a: Step): Pc {
    if !a.Worker? && !a.Lock? && a.p in s.inside then s.inside[a.p] else Between
  }

  /** A thread enters a public call by taking the free mutex; all its other steps are inside the call. */
  predicate MayAct(s: State, a: Step) {
    if a.Worker? then true
    else if a.Lock? then s.owner.None? && a.p !in s.inside
    else a.p in s.inside
  }

  predicate Enabled(s: State, a: Step) {
    var pc := PcOf(s, a);
    MayAct(s, a) && match a
      case Lock(_) => true
      case Unlock(_) => pc.Between?
      case EnsureContext(_) => pc.Between? && s.context.None?
      case Refused(_) =>
        && pc.InTask? && s.context.Some?
        && pc.t < |s.context.value.clients| && s.context.value.clients[pc.t].Rejected?
      case _ =>
        var q := QueueStep(pc, a);
        s.context.Some? && q.Some? && Q.Enabled(s.context.value, q.value)
  }

  function PcAfter(pc: Pc, q: Q.State, a: Step): Pc {
    if a.Begin? then InTask(|q.clients|)
    else if a.Finish? then Between
    else if a.Halt? then Halting
    else pc
  }

  function Next(s: State, a: Step): State
    requires Enabled(s, a)
  {
    match a
    case Lock(p) => s.(owner := Some(p), inside := s.inside[p := Between])
    case Unlock(p) => s.(owner := None, inside := s.inside - {p})
    case EnsureContext(_) => s.(context := Some(Q.INITIAL))
    case Refused(p) => s.(inside := s.inside[p := Between])
    case Join(p) => s.(inside := s.inside[p := Between], context := None)
    case Worker(b) => s.(context := Some(Q.Next(s.context.value, b)))
    case _ =>
      var q, pc := s.context.value, PcOf(s, a);
      State(s.owner, s.inside[a.p := PcAfter(pc, q, a)], Some(Q.Next(q, QueueStep(pc, a).value)))
  }

  ghost predicate IsRun(s: State, steps: seq<Step>, s': State)
    decreases steps
  {
    if steps == [] then s == s'
    else Enabled(s, steps[0]) && IsRun(Next(s, steps[0]), steps[1..], s')
  }

  ghost predicate Reachable(s: State) {
    exists steps :: IsRun(INITIAL, steps, s)
  }

  /** The position of the thread with the mutex, seen from the queue. */
  ghost predicate Agrees(pc: Pc, q: Q.State) {
    match pc
    case Between => q.halter.Idle? && Q.NoneInFlight(q)
    case InTask(t) =>
      && q.halter.Idle? && t < |q.clients| && Q.InFlight(q.clients[t])
      && forall u :: 0 <= u < |q.clients| && Q.InFlight(q.clients[u]) ==> u == t
    case Halting => (q.halter.HaltSet? || q.halter.Joining?) && Q.NoneInFlight(q)
  }

  /** Where the thread with the mutex is. */
  function Position(s: State): Pc {
    if s.owner.Some? && s.owner.value in s.inside then s.inside[s.owner.value] else Between
  }

  ghost predicate Inv(s: State) {
    && s.inside.Keys == (if s.owner.Some? then {s.owner.value} else {})
    && (s.context.None? ==> Position(s).Between?)
    && (s.context.Some? ==> Q.SerialReachable(s.context.value) && Agrees(Position(s), s.context.value))
  }

  lemma {:induction false} OwnStep(s: State, a: Step)
    requires Inv(s) && Enabled(s, a) && !a.Worker? && !a.Lock?
    ensures s.owner == Some(a.p) && PcOf(s, a) == Position(s)
  {
    assert a.p in s.inside.Keys;
  }

  /** A step of the queue that some thread takes is one of serial use. */
  lemma {:induction false} QueueStepIsSerial(s: State, a: Step)
    requires Inv(s) && Enabled(s, a) && s.context.Some? && QueueStep(PcOf(s, a), a).Some?
    ensures Q.SerialEnabled(s.context.value, QueueStep(PcOf(s, a), a).value)
    ensures Q.SerialReachable(Q.Next(s.context.value, QueueStep(PcOf(s, a), a).value))
  {
    if !a.Worker? && !a.Lock? {
      OwnStep(s, a);
    }
    Q.SerialReachableStep(s.context.value, QueueStep(PcOf(s, a), a).value);
  }

  lemma {:induction false} StepAgrees(pc: Pc, q: Q.State, a: Step)
    requires Q.SerialInv(q) && Agrees(pc, q) && QueueStep(pc, a).Some? && Q.Enabled(q, QueueStep(pc, a).value)
    ensures !a.Join? ==> Agrees(PcAfter(pc, q, a), Q.Next(q, QueueStep(pc, a).value))
  {
  }

  lemma {:induction false} StepKeepsInv(s: State, a: Step)
    requires Inv(s) && Enabled(s, a)
    ensures Inv(Next(s, a))
  {
    if !a.Worker? && !a.Lock? {
      OwnStep(s, a);
    }
    if a.EnsureContext? {
      assert Q.IsSerialRun(Q.INITIAL, [], Q.INITIAL);
    } else if s.context.Some? {
      Q.SerialReachableInv(s.context.value);
      if QueueStep(PcOf(s, a), a).Some? {
        QueueStepIsSerial(s, a);
        StepAgrees(Position(s), s.context.value, a);
      }
    }
  }

  lemma {:induction false} RunKeepsInv(s: State, steps: seq<Step>, s': State)
    requires Inv(s) && IsRun(s, steps, s')
    ensures Inv(s')
    decreases steps
  {
    if steps != [] {
      StepKeepsInv(s, steps[0]);
      RunKeepsInv(Next(s, steps[0]), steps[1..], s');
    }
  }

  /** Whatever the threads do, at most one is in a public call, and the context is used serially. */
  lemma {:induction false} ManagerIsSerial(s: State)
    requires Reachable(s)
    ensures Inv(s)
    ensures forall p, p' :: p in s.inside && p' in s.inside ==> p == p'
    ensures s.context.Some? ==> Q.SerialReachable(s.context.value)
  {
    var steps :| IsRun(INITIAL, steps, s);
    RunKeepsInv(INITIAL, steps, s);
    forall p, p' | p in s.inside && p' in s.inside ensures p == p' {
      assert p in s.inside.Keys && p' in s.inside.Keys;
    }
  }

  ghost predicate AllReturned(q: Q.State) {
    && q.executed == q.pushed && q.queue == [] && Q.Batch(q) == []
    && forall t :: 0 <= t < |q.clients| ==> t in q.executed && t in q.results && q.clients[t] == Q.Returned(q.results[t])
  }

  /**
   Whenever no HandleTask call is under way, every task that was handed over has run and its call has returned
   its own result; and no call is ever refused. So each public call can be taken as one step.
   */
  lemma {:induction false} CallsHaveRun(s: State)
    requires Reachable(s) && s.context.Some?
    ensures (forall p :: p in s.inside ==> !s.inside[p].InTask?) ==> AllReturned(s.context.value)
    ensures forall p :: !Enabled(s, Refused(p))
  {
    ManagerIsSerial(s);
    var q := s.context.value;
    Q.SerialReachableInv(q);
    if !Position(s).InTask? {
      Q.NothingLeft(q);
      assert forall t :: 0 <= t < |q.clients| ==> !Q.InFlight(q.clients[t]) && !q.clients[t].Rejected?;
    }
  }

  /**
   The life of a context: it begins empty, then changes by steps of the queue protocol only and is never
   replaced, and goes away only after its thread has left, with every task run and every call returned.
   */
  lemma {:induction false} ContextLives(s: State, a: Step)
    requires Reachable(s) && Enabled(s, a)
    ensures var next := Next(s, a).context;
      match s.context
      case None => next.None? || next == Some(Q.INITIAL)
      case Some(q) =>
        || next == Some(q)
        || (next.Some? && exists b :: Q.SerialEnabled(q, b) && next.value == Q.Next(q, b))
        || (next.None? && q.worker.Exited? && AllReturned(q))
  {
    ManagerIsSerial(s);
    if s.context.Some? && QueueStep(PcOf(s, a), a).Some? {
      QueueStepIsSerial(s, a);
      if a.Join? {
        DestroyedAfterExit(s, a);
      }
    }
  }

  /** A context is destroyed only after its thread has left, with every task run and every call returned. */
  lemma {:induction false} DestroyedAfterExit(s: State, a: Step)
    requires Reachable(s) && Enabled(s, a) && s.context.Some? && Next(s, a).context.None?
    ensures s.context.value.worker.Exited? && AllReturned(s.context.value)
  {
    ManagerIsSerial(s);
    OwnStep(s, a);
    CallsHaveRun(s);
    var q := s.context.value;
    Q.SerialReachableInv(q);
    Q.StepKeepsInv(q, Q.Join);
  }

  lemma {:induction false} ReachableStep(s: State, a: Step) returns (s': State)
    requires Reachable(s) && Enabled(s, a)
    ensures Reachable(s') && s' == Next(s, a)
  {
    s' := Next(s, a);
    var steps :| IsRun(INITIAL, steps, s);
    RunExtends(INITIAL, steps, s, a);
  }

  lemma {:induction false} RunExtends(s: State, steps: seq<Step>, s': State, a: Step)
    requires IsRun(s, steps, s') && Enabled(s', a)
    ensures IsRun(s, steps + [a], Next(s', a))
    decreases steps
  {
    if steps == [] {
      assert [a][1..] == [];
    } else {
      assert (steps + [a])[1..] == steps[1..] + [a];
      RunExtends(Next(s, steps[0]), steps[1..], s', a);
    }
  }

  /** The state while thread p is in a call. */
  function During(p: Thread, pc: Pc, q: Q.State): State {
    State(Some(p), map[p := pc], Some(q))
  }

  lemma {:induction false} Moves(p: Thread, pc: Pc, q: Q.State, a: Step, b: Q.Step)
    requires Reachable(During(p, pc, q)) && (a.Worker? || a.Begin? || a.Push? || a.Notify? || a.Finish? || a.Halt? || a.NotifyHalt?)
    requires (a.Worker? || a.p == p) && QueueStep(pc, a) == Some(b) && Q.Enabled(q, b)
    ensures Reachable(During(p, PcAfter(pc, q, a), Q.Next(q, b)))
  {
    var s := During(p, pc, q);
    var s' := ReachableStep(s, a);
    assert s'.inside == map[p := PcAfter(pc, q, a)];
  }

  /** The calls do happen: any thread can create the context and have a task run with any result. */
  lemma {:induction false} CallRun(p: Thread, result: bool) returns (q: Q.State)
    ensures Reachable(During(p, Between, q))
    ensures q.clients == [Q.Returned(result)] && q.worker == Q.Running([], false) && q.halter.Idle? && !q.halt && q.queue == []
  {
    Entry(p);
    q := HandOver(p);
    q := Execution(p, q, result);
    Moves(p, InTask(0), q, Finish(p), Q.Return(0));
    q := Q.Next(q, Q.Return(0));
  }

  lemma {:induction false} Entry(p: Thread)
    ensures Reachable(During(p, Between, Q.INITIAL))
  {
    assert IsRun(INITIAL, [], INITIAL);
    var s := ReachableStep(INITIAL, Lock(p));
    s := ReachableStep(s, EnsureContext(p));
    assert s == During(p, Between, Q.INITIAL);
  }

  /** The first task has been pushed and its call waits. */
  ghost predicate IsWaiting(q: Q.State) {
    && q.clients == [Q.Waiting] && q.halter.Idle? && !q.halt
    && q.worker.Starting? && q.queue == [0] && q.executed == [] && q.results == map[]
  }

  lemma {:induction false} HandOver(p: Thread) returns (q: Q.State)
    requires Reachable(During(p, Between, Q.INITIAL))
    ensures Reachable(During(p, InTask(0), q)) && IsWaiting(q)
  {
    Moves(p, Between, Q.INITIAL, Begin(p), Q.Check);
    q := Q.Next(Q.INITIAL, Q.Check);
    assert q.clients == [Q.Checked];
    Moves(p, InTask(0), q, Push(p), Q.PushTask(0));
    q := Q.Next(q, Q.PushTask(0));
    assert q.clients == [Q.Pushed] && q.queue == [0];
    Moves(p, InTask(0), q, Notify(p), Q.NotifyPush(0));
    q := Q.Next(q, Q.NotifyPush(0));
    assert q.clients == [Q.Waiting];
  }

  lemma {:induction false} Execution(p: Thread, q: Q.State, result: bool) returns (end: Q.State)
    requires Reachable(During(p, InTask(0), q)) && IsWaiting(q)
    ensures Reachable(During(p, InTask(0), end))
    ensures end.clients == [Q.Waiting] && end.results == map[0 := result] && end.worker == Q.Running([], false)
    ensures end.halter.Idle? && !end.halt && end.queue == []
  {
    Moves(p, InTask(0), q, Worker(Q.Start), Q.Start);
    var taken := Q.Next(q, Q.Start);
    assert taken.worker == Q.Running([0], false) && taken.queue == [];
    Moves(p, InTask(0), taken, Worker(Q.Execute(result)), Q.Execute(result));
    end := Q.Next(taken, Q.Execute(result));
    assert [0][1..] == [];
  }

  /** And the thread can destroy the context again and leave. */
  lemma {:induction false} DestroyRun(p: Thread, q: Q.State) returns (s: State)
    requires Reachable(During(p, Between, q)) && q.worker == Q.Running([], false) && q.halter.Idle? && !q.halt && q.queue == []
    ensures Reachable(s) && s == INITIAL
  {
    Moves(p, Between, q, Worker(Q.Relock), Q.Relock);
    var q1 := q.(worker := Q.Sleeping);
    assert Q.Next(q, Q.Relock) == q1;
    Moves(p, Between, q1, Halt(p), Q.SetHalt);
    var q2 := q1.(halt := true, halter := Q.HaltSet, atHalt := |q.pushed|);
    assert Q.Next(q1, Q.SetHalt) == q2;
    Moves(p, Halting, q2, NotifyHalt(p), Q.NotifyHalt);
    var q3 := q2.(halter := Q.Joining, worker := Q.Awake);
    assert Q.Next(q2, Q.NotifyHalt) == q3;
    s := LeaveRun(p, q3);
  }

  lemma {:induction false} LeaveRun(p: Thread, q: Q.State) returns (s: State)
    requires Reachable(During(p, Halting, q)) && q.worker.Awake? && q.halter.Joining? && q.halt && q.queue == []
    ensures Reachable(s) && s == INITIAL
  {
    Moves(p, Halting, q, Worker(Q.Resume), Q.Resume);
    var q1 := Q.Next(q, Q.Resume);
    assert q1.worker == Q.Running([], true) && q1.halter.Joining?;
    Moves(p, Halting, q1, Worker(Q.Relock), Q.Relock);
    var q2 := Q.Next(q1, Q.Relock);
    assert q2.worker.Exited? && q2.halter.Joining?;
    s := JoinRun(p, q2);
  }

  lemma {:induction false} JoinRun(p: Thread, q: Q.State) returns (s: State)
    requires Reachable(During(p, Halting, q)) && q.worker.Exited? && q.halter.Joining?
    ensures Reachable(s) && s == INITIAL
  {
    s := ReachableStep(During(p, Halting, q), Join(p));
    assert s.owner == Some(p) && s.inside == map[p := Between] && s.context.None?;
    s := ReachableStep(s, Unlock(p));
    assert s.inside == map[];
  }

  /** The step is possible and brings the queue's begun work closer to its end. */
  ghost predicate Advances(s: State, a: Step) {
    && Enabled(s, a) && s.context.Some?
    && match QueueStep(PcOf(s, a), a)
       case Some(b) => Q.Enabled(s.context.value, b) && Q.Work(Q.Next(s.context.value, b)) < Q.Work(s.context.value)
       case None => false
  }

  /**
   A public call does not get stuck in HandleTask or in the destructor: some thread can take a step of work
   that has begun, and such steps cannot go on for longer than `Work` says.
   */
  lemma {:induction false} CallsMakeProgress(s: State, p: Thread)
    requires Reachable(s) && p in s.inside && !s.inside[p].Between?
    ensures exists a :: Advances(s, a)
  {
    ManagerIsSerial(s);
    assert p in s.inside.Keys;
    var b := MovingStep(s);
    Q.InternalStepsMakeProgress(s.context.value, b);
    var a := StepOf(s, b);
    assert Advances(s, a);
  }

  lemma {:induction false} MovingStep(s: State) returns (b: Q.Step)
    requires Inv(s) && !Position(s).Between?
    ensures Q.Internal(b) && Q.Enabled(s.context.value, b)
  {
    NotQuiescent(s);
    b :| Q.Internal(b) && Q.Enabled(s.context.value, b);
  }

  lemma {:induction false} NotQuiescent(s: State)
    requires Inv(s) && !Position(s).Between?
    ensures !Q.Quiescent(s.context.value)
  {
    var q := s.context.value;
    Q.SerialReachableInv(q);
    if Position(s).InTask? {
      Q.SerialCompletion(q);
    } else if q.halter.HaltSet? {
      assert Q.Enabled(q, Q.NotifyHalt);
    } else if q.worker.Exited? {
      assert Q.Enabled(q, Q.Join);
    } else if Q.Quiescent(q) {
      Q.QuiescentThreads(q);
    }
  }

  /** Every internal step that the queue offers belongs to the thread with the mutex or to the worker. */
  lemma {:induction false} StepOf(s: State, b: Q.Step) returns (a: Step)
    requires Inv(s) && !Position(s).Between? && Q.Internal(b) && Q.Enabled(s.context.value, b)
    ensures Enabled(s, a) && QueueStep(PcOf(s, a), a) == Some(b)
  {
    var p := s.owner.value;
    match b
    case PushTask(t) => assert Q.InFlight(s.context.value.clients[t]); a := Push(p);
    case NotifyPush(t) => assert Q.InFlight(s.context.value.clients[t]); a := Notify(p);
    case Return(t) => assert Q.InFlight(s.context.value.clients[t]); a := Finish(p);
    case NotifyHalt => a := NotifyHalt(p);
    case Join => a := Join(p);
    case _ => a := Worker(b);
  }
}
