/**
 The shared fields of CAContextHandle and its regions under the mutex. Each method is one atomic region
 (or, for RunBatch, the worker's unlocked loop) and follows the steps of the protocol.
 */
module ContextHandle {
  import opened ContextQueue

  class CAContextHandle {
    var tasks: seq<Task>
    var halt: bool
    ghost var model: State

    ghost predicate Valid()
      reads this
    {
      tasks == model.queue && halt == model.halt
    }

    constructor ()
      ensures Valid() && model == INITIAL
    {
      tasks, halt, model := [], false, INITIAL;
    }

    /** First region of HandleTask. */
    method CheckHalt() returns (accepted: bool)
      requires Valid()
      modifies this`model
      ensures Valid() && model == Next(old(model), Check)
      ensures accepted <==> model.clients[|old(model.clients)|].Checked?
    {
      model := Next(model, Check);
      accepted := !halt;
    }

    /** Second region of HandleTask: halt is not looked at again. */
    method PushTask(t: Task)
      requires Valid() && Enabled(model, Step.PushTask(t))
      modifies this
      ensures Valid() && model == Next(old(model), Step.PushTask(t))
    {
      tasks := tasks + [t];
      model := Next(model, Step.PushTask(t));
    }

    /** The region of HaltContext. */
    method SetHalt()
      requires Valid() && Enabled(model, Step.SetHalt)
      modifies this
      ensures Valid() && model == Next(old(model), Step.SetHalt)
    {
      halt := true;
      model := Next(model, Step.SetHalt);
    }

    /** The worker with the mutex: sleep, or take the whole queue and remember halt. */
    method WaitAndSwap(ghost a: Step) returns (sleeps: bool, batch: seq<Task>, cache: bool)
      requires Valid() && Enabled(model, a)
      requires (a.Start? && !halt) || a.Resume? || (a.Relock? && !model.worker.cache)
      modifies this
      ensures Valid() && model == Next(old(model), a)
      ensures if sleeps then model.worker.Sleeping? else model.worker == Running(batch, cache)
    {
      model := Next(model, a);
      sleeps := !(halt || tasks != []);
      batch, cache := [], halt;
      if !sleeps {
        batch, tasks := tasks, [];
      }
    }

    /** The unlocked loop: every swapped task runs once, in order. */
    method RunBatch(batch: seq<Task>, cache: bool, call: Task -> bool)
      requires Valid() && model.worker == Running(batch, cache)
      modifies this`model
      ensures Valid() && model.worker == Running([], cache)
      ensures model.executed == old(model.executed) + batch
      ensures forall t :: t in batch ==> t in model.results && model.results[t] == call(t)
      ensures exists steps :: IsRun(old(model), steps, model)
    {
      var queue := batch;
      ghost var start, steps: seq<Step> := model, [];
      while queue != []
        invariant Valid() && model.worker == Running(queue, cache)
        invariant model.executed + queue == start.executed + batch
        invariant forall t :: t in batch ==> t in queue || (t in model.results && model.results[t] == call(t))
        invariant IsRun(start, steps, model)
        decreases queue
      {
        var result := call(queue[0]);
        ghost var a := Execute(result);
        RunExtends(start, steps, model, a);
        steps := steps + [a];
        model := Next(model, a);
        queue := queue[1..];
      }
    }
  }
}
