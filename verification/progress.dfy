/**
 Progress of the worker loop. Every future needs finitely many polls, so the
 work left in the queue, counted over every task and everything those tasks
 will spawn, shrinks by one with every poll. Enough iterations of the worker
 loop therefore empty the queue, after which `wait` returns.
 */
module Progress {
  import opened Futures
  import opened Tasks
  import opened Spawner
  import opened Scheduler

  /** The polls still needed by a future and by every task it will spawn, transitively. */
  function Work(f: Future): nat
  {
    match f
    case Done(calls) => 1 + CallsWork(calls)
    case Yield(calls, next) => 1 + CallsWork(calls) + Work(next)
  }

  function CallsWork(cs: seq<Child>): nat
  {
    if cs == [] then 0 else ChildWork(cs[0]) + CallsWork(cs[1..])
  }

  function ChildWork(c: Child): nat
  {
    Work(c.fut)
  }

  /** The polls still needed by every task in a queue. */
  function QueueWork(q: seq<Task>): nat
  {
    if q == [] then 0 else Work(q[0].fut) + QueueWork(q[1..])
  }

  lemma {:induction false} QueueWorkAppend(a: seq<Task>, b: seq<Task>)
    ensures QueueWork(a + b) == QueueWork(a) + QueueWork(b)
    decreases |a|
  {
    if a == [] {
      assert a + b == b;
    } else {
      assert (a + b)[1..] == a[1..] + b;
      QueueWorkAppend(a[1..], b);
    }
  }

  /** Placing tasks in the queue adds exactly their work. */
  lemma {:induction false} QueueWorkPlace(q: seq<Task>, ts: seq<Task>)
    ensures QueueWork(Place(q, ts)) == QueueWork(q) + QueueWork(ts)
    decreases |ts|
  {
    if ts != [] {
      var t := ts[0];
      if t.block {
        assert ([t] + q)[1..] == q;
      } else {
        QueueWorkAppend(q, [t]);
      }
      QueueWorkPlace(Enqueue(q, t), ts[1..]);
    }
  }

  /** The tasks built for a series of calls carry exactly the calls' work. */
  lemma {:induction false} QueueWorkInstantiate(n: nat, cs: seq<Child>)
    ensures QueueWork(Instantiate(n, cs)) == CallsWork(cs)
    decreases |cs|
  {
    if cs != [] {
      QueueWorkInstantiate(n + 1, cs[1..]);
    }
  }

  /** Driving a blocking task to completion turns all of its work but its own
      polls into work of the tasks it constructed. */
  lemma {:induction false} DriveBlockingWork(rt: Runtime, t: Task)
    ensures QueueWork(CreatedTasks(DriveBlocking(rt, t).events)) + PollsToReady(t.fut) == Work(t.fut)
    decreases t.fut
  {
    var p := PollTask(rt, t);
    QueueWorkInstantiate(rt.nextId, t.fut.spawns);
    if p.result == Ready {
      EventsAppend(p.events, [Dropped(t.id)]);
      DropEvent(t.id);
      assert CreatedTasks(p.events + [Dropped(t.id)]) == CreatedTasks(p.events);
    } else {
      var s := DriveBlocking(p.rt, p.task);
      EventsAppend(p.events, s.events);
      DriveBlockingWork(p.rt, p.task);
      QueueWorkAppend(CreatedTasks(p.events), CreatedTasks(s.events));
    }
  }

  /** Each poll of a turn consumes exactly one unit of the queue's work. */
  lemma TurnWork(rt: Runtime)
    requires rt.queue != []
    ensures QueueWork(Turn(rt).rt.queue) + |PollLog(Turn(rt).events)| == QueueWork(rt.queue)
  {
    var t, tail := rt.queue[0], rt.queue[1..];
    var s := Serve(rt.(queue := tail), t);
    assert Turn(rt) == s;
    var created := CreatedTasks(s.events);
    QueueWorkPlace(tail, created);
    if t.block {
      DriveBlockingWork(rt.(queue := tail), t);
      assert s == DriveBlocking(rt.(queue := tail), t);
    } else {
      QueueWorkInstantiate(rt.nextId, t.fut.spawns);
      if t.fut.Yield? {
        QueueWorkAppend(Place(tail, created), [t.(fut := t.fut.next)]);
      }
    }
  }

  lemma EmptyQueueHasNoWork(q: seq<Task>)
    ensures QueueWork(q) == 0 <==> q == []
  {
  }

  /** Every turn on a non-empty queue polls at least once, so it lowers the work. */
  lemma TurnLowersWork(rt: Runtime)
    requires rt.queue != []
    ensures QueueWork(Turn(rt).rt.queue) < QueueWork(rt.queue)
  {
    TurnWork(rt);
  }

  lemma RunUnfold(rt: Runtime, fuel: nat, next: Runtime)
    requires fuel > 0 && next == Turn(rt).rt
    requires Run(next, fuel - 1).rt.queue == []
    ensures Run(rt, fuel).rt.queue == []
  {
  }

  /** Running the worker loop at least as many times as the queue has work
      left empties the queue. */
  lemma {:induction false} RunEmpties(rt: Runtime, fuel: nat)
    requires fuel >= QueueWork(rt.queue)
    ensures Run(rt, fuel).rt.queue == []
    decreases fuel
  {
    if fuel == 0 {
      EmptyQueueHasNoWork(rt.queue);
    } else {
      var next := Turn(rt).rt;
      TurnWithinFuel(rt, fuel, next);
      RunEmpties(next, fuel - 1);
      RunUnfold(rt, fuel, next);
    }
  }

  /** A turn leaves work within one less iteration. */
  lemma TurnWithinFuel(rt: Runtime, fuel: nat, next: Runtime)
    requires next == Turn(rt).rt
    requires fuel > 0 && fuel >= QueueWork(rt.queue)
    ensures fuel - 1 >= QueueWork(next.queue)
  {
    if rt.queue != [] {
      TurnLowersWork(rt);
    }
  }
}
