/**
 Draining: the worker loop, run at least as many times as the queue has work
 left, destroys every task queued at the start and every task constructed
 meanwhile, each once, and then `wait` returns.
 */
module Drain {
  import opened Spawner
  import opened Scheduler
  import opened Progress
  import opened Program

  /** `n` iterations of the worker loop, as an execution. */
  function Ticks(n: nat): (acts: seq<Action>)
    ensures |acts| == n
  {
    if n == 0 then [] else [Tick] + Ticks(n - 1)
  }

  /** Running the worker loop is an execution made of worker turns only. */
  lemma {:induction false} RunIsTicks(rt: Runtime, fuel: nat)
    ensures Run(rt, fuel) == Exec(rt, Ticks(fuel))
    decreases fuel
  {
    if fuel > 0 {
      var acts := Ticks(fuel);
      assert acts[0] == Tick && acts[1..] == Ticks(fuel - 1);
      RunIsTicks(Turn(rt).rt, fuel - 1);
    }
  }

  /** With at least as many worker iterations as the queue has work left, the
      queue empties and `wait` returns: every task queued at the start and
      every task constructed meanwhile has been destroyed, once. */
  lemma RunDrains(rt: Runtime, fuel: nat)
    requires Valid(rt)
    requires fuel >= QueueWork(rt.queue)
    ensures Run(rt, fuel).rt.queue == []
    ensures Wait(Run(rt, fuel).rt)
    ensures DroppedSet(Run(rt, fuel).events) == Ids(rt.queue) + Ids(CreatedTasks(Run(rt, fuel).events))
    ensures |DroppedIds(Run(rt, fuel).events)| == |rt.queue| + |CreatedTasks(Run(rt, fuel).events)|
  {
    var s := Run(rt, fuel);
    RunEmpties(rt, fuel);
    RunIsTicks(rt, fuel);
    ExecLiveIds(rt, Ticks(fuel));
    assert Ids(s.rt.queue) == {};
    AllDestroyed(Ids(rt.queue) + Ids(CreatedTasks(s.events)), DroppedSet(s.events));
  }

  /** When nothing is left alive, what was destroyed is all there was. */
  lemma AllDestroyed(all: set<nat>, d: set<nat>)
    requires all - d == {} && d <= all
    ensures d == all
  {
    forall x | x in all
      ensures x in d
    {
      assert x !in all - d;
    }
  }
}
