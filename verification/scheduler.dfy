/**
 The single worker of the whorl runtime (the loop body of `Runtime::start`),
 `Task::poll`, and `wait`, as pure step functions over the runtime state. A
 step reports what happened as a trace of events: tasks constructed, polls
 with their answers, and tasks destroyed.
 */
module Scheduler {
  import opened Futures
  import opened Tasks
  import opened Spawner

  /** One observable thing the runtime does. */
  datatype Event = Created(task: Task) | Polled(id: nat, result: Poll) | Dropped(id: nat)

  /** The runtime after some work, and the events of that work in order. */
  datatype Step = Step(rt: Runtime, events: seq<Event>)

  /** The tasks constructed in a trace, in order. */
  function CreatedTasks(evs: seq<Event>): seq<Task>
  {
    if evs == [] then []
    else if evs[0].Created? then [evs[0].task] + CreatedTasks(evs[1..])
    else CreatedTasks(evs[1..])
  }

  /** The polls of a trace, in order. */
  function PollLog(evs: seq<Event>): (log: seq<Event>)
    ensures forall i | 0 <= i < |log| :: log[i].Polled?
  {
    if evs == [] then []
    else if evs[0].Polled? then [evs[0]] + PollLog(evs[1..])
    else PollLog(evs[1..])
  }

  /** The identities of the tasks destroyed in a trace, in order. */
  function DroppedIds(evs: seq<Event>): seq<nat>
  {
    if evs == [] then []
    else if evs[0].Dropped? then [evs[0].id] + DroppedIds(evs[1..])
    else DroppedIds(evs[1..])
  }

  lemma {:induction false} CreatedAppend(a: seq<Event>, b: seq<Event>)
    ensures CreatedTasks(a + b) == CreatedTasks(a) + CreatedTasks(b)
    decreases |a|
  {
    if a == [] {
      assert a + b == b;
    } else {
      assert (a + b)[1..] == a[1..] + b;
      CreatedAppend(a[1..], b);
    }
  }

  lemma {:induction false} PollLogAppend(a: seq<Event>, b: seq<Event>)
    ensures PollLog(a + b) == PollLog(a) + PollLog(b)
    decreases |a|
  {
    if a == [] {
      assert a + b == b;
    } else {
      assert (a + b)[1..] == a[1..] + b;
      PollLogAppend(a[1..], b);
    }
  }

  lemma {:induction false} DroppedAppend(a: seq<Event>, b: seq<Event>)
    ensures DroppedIds(a + b) == DroppedIds(a) + DroppedIds(b)
    decreases |a|
  {
    if a == [] {
      assert a + b == b;
    } else {
      assert (a + b)[1..] == a[1..] + b;
      DroppedAppend(a[1..], b);
    }
  }

  lemma DropEvent(id: nat)
    ensures CreatedTasks([Dropped(id)]) == []
    ensures PollLog([Dropped(id)]) == []
    ensures DroppedIds([Dropped(id)]) == [id]
  {
    assert [Dropped(id)][1..] == [];
  }

  /** Splitting a trace splits what it constructs, polls and destroys. */
  lemma EventsAppend(a: seq<Event>, b: seq<Event>)
    ensures CreatedTasks(a + b) == CreatedTasks(a) + CreatedTasks(b)
    ensures PollLog(a + b) == PollLog(a) + PollLog(b)
    ensures DroppedIds(a + b) == DroppedIds(a) + DroppedIds(b)
  {
    CreatedAppend(a, b);
    PollLogAppend(a, b);
    DroppedAppend(a, b);
  }

  /** The tasks `Task::new` builds for a series of calls, numbered from `n`. */
  function Instantiate(n: nat, cs: seq<Child>): (ts: seq<Task>)
    ensures |ts| == |cs|
    decreases |cs|
  {
    if cs == [] then []
    else [Task(n, cs[0].block, cs[0].fut)] + Instantiate(n + 1, cs[1..])
  }

  /** The tasks built for a series of calls are numbered consecutively from `n`. */
  lemma {:induction false} InstantiateConsecutive(n: nat, cs: seq<Child>)
    ensures Consecutive(Instantiate(n, cs), n)
    decreases |cs|
  {
    if cs != [] {
      InstantiateConsecutive(n + 1, cs[1..]);
    }
  }

  /** Numbering two series of calls one after the other numbers their concatenation. */
  lemma {:induction false} InstantiateAppend(n: nat, a: seq<Child>, b: seq<Child>)
    ensures Instantiate(n, a + b) == Instantiate(n, a) + Instantiate(n + |a|, b)
    decreases |a|
  {
    if a == [] {
      assert a + b == b;
    } else {
      assert (a + b)[1..] == a[1..] + b;
      InstantiateAppend(n + 1, a[1..], b);
    }
  }

  /** One `spawn` or `block_on` call, as the child says: builds the task and
      places it where `wake` would place it. */
  function Call(rt: Runtime, c: Child): (r: Runtime)
    ensures r.queue == Enqueue(rt.queue, Task(rt.nextId, c.block, c.fut))
    ensures r.tasks == rt.tasks + 1 && r.nextId == rt.nextId + 1
    ensures Valid(rt) ==> Valid(r)
  {
    if c.block then BlockOn(rt, c.fut) else Spawn(rt, c.fut)
  }

  /** The trace of constructing `ts`, in order. */
  function CreatedEvents(ts: seq<Task>): seq<Event>
  {
    if ts == [] then [] else [Created(ts[0])] + CreatedEvents(ts[1..])
  }

  /** Constructing tasks polls and destroys nothing. */
  lemma {:induction false} CreatedEventsTrace(ts: seq<Task>)
    ensures CreatedTasks(CreatedEvents(ts)) == ts
    ensures PollLog(CreatedEvents(ts)) == [] && DroppedIds(CreatedEvents(ts)) == []
    decreases |ts|
  {
    if ts != [] {
      var evs := CreatedEvents(ts);
      assert evs[1..] == CreatedEvents(ts[1..]);
      CreatedEventsTrace(ts[1..]);
      assert ts == [ts[0]] + ts[1..];
    }
  }

  /** The runtime after a series of `spawn` / `block_on` calls made in order. */
  function CallAll(rt: Runtime, cs: seq<Child>): (r: Runtime)
    ensures r.queue == Place(rt.queue, Instantiate(rt.nextId, cs))
    ensures r.tasks == rt.tasks + |cs| && r.nextId == rt.nextId + |cs|
    decreases |cs|
  {
    if cs == [] then rt
    else
      var t := Task(rt.nextId, cs[0].block, cs[0].fut);
      assert Instantiate(rt.nextId, cs) == [t] + Instantiate(rt.nextId + 1, cs[1..]);
      PlaceCons(rt.queue, t, Instantiate(rt.nextId + 1, cs[1..]));
      CallAll(Call(rt, cs[0]), cs[1..])
  }

  /** A series of `spawn` / `block_on` calls, made in order: each constructs
      one task and places it at the back or the front of the queue. */
  function Submit(rt: Runtime, cs: seq<Child>): (s: Step)
    ensures CreatedTasks(s.events) == Instantiate(rt.nextId, cs)
    ensures PollLog(s.events) == [] && DroppedIds(s.events) == []
    ensures s.rt.queue == Place(rt.queue, Instantiate(rt.nextId, cs))
    ensures s.rt.tasks == rt.tasks + |cs| && s.rt.nextId == rt.nextId + |cs|
  {
    var ts := Instantiate(rt.nextId, cs);
    CreatedEventsTrace(ts);
    Step(CallAll(rt, cs), CreatedEvents(ts))
  }

  /** Calls made on a consistent runtime leave it consistent. */
  lemma SubmitKeepsValid(rt: Runtime, cs: seq<Child>)
    ensures Valid(rt) ==> Valid(Submit(rt, cs).rt)
  {
    if Valid(rt) {
      InstantiateConsecutive(rt.nextId, cs);
      PlaceFresh(rt.queue, Instantiate(rt.nextId, cs), rt.nextId);
      PlaceLength(rt.queue, Instantiate(rt.nextId, cs));
    }
  }

  /** The outcome of polling one task: the runtime afterwards, the task with
      its future advanced, the poll's answer and the events. */
  datatype Polling = Polling(rt: Runtime, task: Task, result: Poll, events: seq<Event>)

  /** `Task::poll`: the future makes its calls and answers; a Pending task
      continues with the rest of its future. */
  function PollTask(rt: Runtime, t: Task): (p: Polling)
    ensures p.result == Ready <==> t.fut.Done?
    ensures p.task.id == t.id && p.task.block == t.block
    ensures t.fut.Yield? ==> p.task.fut == t.fut.next
    ensures PollLog(p.events) == [Polled(t.id, p.result)]
    ensures DroppedIds(p.events) == []
    ensures CreatedTasks(p.events) == Instantiate(rt.nextId, t.fut.spawns)
    ensures Consecutive(CreatedTasks(p.events), rt.nextId)
    ensures p.rt.queue == Place(rt.queue, CreatedTasks(p.events))
    ensures p.rt.tasks == rt.tasks + |t.fut.spawns|
    ensures p.rt.nextId == rt.nextId + |t.fut.spawns|
  {
    var s := Submit(rt, t.fut.spawns);
    var result := if t.fut.Done? then Ready else Pending;
    var task := if t.fut.Done? then t else t.(fut := t.fut.next);
    EventsAppend(s.events, [Polled(t.id, result)]);
    InstantiateConsecutive(rt.nextId, t.fut.spawns);
    Polling(s.rt, task, result, s.events + [Polled(t.id, result)])
  }

  /** The poll log of a task driven to completion: `n - 1` Pending answers,
      then Ready. */
  function ReadyAfter(id: nat, n: nat): (log: seq<Event>)
    requires n >= 1
    ensures |log| == n
    ensures forall i | 0 <= i < n :: log[i] == Polled(id, if i == n - 1 then Ready else Pending)
    decreases n
  {
    if n == 1 then [Polled(id, Ready)]
    else [Polled(id, Pending)] + ReadyAfter(id, n - 1)
  }

  /** The blocking branch of the worker loop: polls the task again and again,
      touching no other task, until it answers Ready, then destroys it. Only
      tasks constructed by its own polls are added to the queue. */
  function DriveBlocking(rt: Runtime, t: Task): (s: Step)
    ensures PollLog(s.events) == ReadyAfter(t.id, PollsToReady(t.fut))
    ensures DroppedIds(s.events) == [t.id]
    ensures Consecutive(CreatedTasks(s.events), rt.nextId)
    ensures s.rt.nextId == rt.nextId + |CreatedTasks(s.events)|
    ensures s.rt.queue == Place(rt.queue, CreatedTasks(s.events))
    ensures s.rt.tasks == rt.tasks + |CreatedTasks(s.events)| - 1
    decreases t.fut
  {
    var p := PollTask(rt, t);
    if p.result == Ready then
      EventsAppend(p.events, [Dropped(t.id)]);
      DropEvent(t.id);
      assert CreatedTasks(p.events + [Dropped(t.id)]) == CreatedTasks(p.events);
      Step(DropTask(p.rt), p.events + [Dropped(t.id)])
    else
      var s := DriveBlocking(p.rt, p.task);
      EventsAppend(p.events, s.events);
      PlaceAppend(rt.queue, CreatedTasks(p.events), CreatedTasks(s.events));
      ConsecutiveAppend(CreatedTasks(p.events), CreatedTasks(s.events), rt.nextId);
      Step(s.rt, p.events + s.events)
  }

  /** The tasks driving a blocking task constructs are exactly those for the
      calls its future makes over all of its polls, numbered in call order. */
  lemma {:induction false} DriveBlockingCalls(rt: Runtime, t: Task)
    ensures CreatedTasks(DriveBlocking(rt, t).events) == Instantiate(rt.nextId, AllCalls(t.fut))
    decreases t.fut
  {
    if t.fut.Done? {
      DriveLast(rt, t);
    } else {
      var p := PollTask(rt, t);
      DriveNext(rt, t);
      DriveBlockingCalls(p.rt, p.task);
      JoinCalls(rt.nextId, p.rt.nextId, t.fut.spawns, AllCalls(p.task.fut),
                CreatedTasks(p.events), CreatedTasks(DriveBlocking(p.rt, p.task).events));
    }
  }

  /** The last poll of a blocking task constructs the tasks for its calls. */
  lemma DriveLast(rt: Runtime, t: Task)
    requires t.fut.Done?
    ensures CreatedTasks(DriveBlocking(rt, t).events) == Instantiate(rt.nextId, t.fut.spawns)
  {
    var p := PollTask(rt, t);
    EventsAppend(p.events, [Dropped(t.id)]);
    DropEvent(t.id);
  }

  /** A Pending poll of a blocking task constructs the tasks for its calls,
      and the drive goes on with the rest of the future. */
  lemma DriveNext(rt: Runtime, t: Task)
    requires t.fut.Yield?
    ensures var p := PollTask(rt, t);
      && CreatedTasks(DriveBlocking(rt, t).events)
         == CreatedTasks(p.events) + CreatedTasks(DriveBlocking(p.rt, p.task).events)
      && CreatedTasks(p.events) == Instantiate(rt.nextId, t.fut.spawns)
      && p.rt.nextId == rt.nextId + |t.fut.spawns|
      && p.task.fut == t.fut.next
  {
    var p := PollTask(rt, t);
    EventsAppend(p.events, DriveBlocking(p.rt, p.task).events);
  }

  lemma JoinCalls(n: nat, m: nat, a: seq<Child>, b: seq<Child>, ta: seq<Task>, tb: seq<Task>)
    requires m == n + |a|
    requires ta == Instantiate(n, a) && tb == Instantiate(m, b)
    ensures ta + tb == Instantiate(n, a + b)
  {
    InstantiateAppend(n, a, b);
  }

  /** One turn of the worker loop in `Runtime::start`: an empty queue changes
      nothing; otherwise the front task, and only it, is popped and served. */
  function Turn(rt: Runtime): (s: Step)
    ensures rt.queue == [] ==> s == Step(rt, [])
    ensures rt.queue != [] ==>
      forall i | 0 <= i < |PollLog(s.events)| :: PollLog(s.events)[i].id == rt.queue[0].id
    ensures rt.queue != [] ==> |PollLog(s.events)| >= 1
    ensures Consecutive(CreatedTasks(s.events), rt.nextId)
    ensures s.rt.nextId == rt.nextId + |CreatedTasks(s.events)|
    ensures s.rt.tasks == rt.tasks + |CreatedTasks(s.events)| - |DroppedIds(s.events)|
    ensures Valid(rt) ==> Valid(s.rt)
  {
    if rt.queue == [] then Step(rt, [])
    else
      var s := Serve(rt.(queue := rt.queue[1..]), rt.queue[0]);
      TurnKeepsValid(rt, s);
      s
  }

  /** What the worker does with the task it popped (`rt` is the runtime after
      the pop): a blocking task is polled until it answers Ready; any other
      task is polled once, then re-submitted through `wake` when it answered
      Pending, or destroyed when it answered Ready. No other task is polled. */
  function Serve(rt: Runtime, t: Task): (s: Step)
    ensures forall i | 0 <= i < |PollLog(s.events)| :: PollLog(s.events)[i].id == t.id
    ensures t.block ==>
      && PollLog(s.events) == ReadyAfter(t.id, PollsToReady(t.fut))
      && DroppedIds(s.events) == [t.id]
      && CreatedTasks(s.events) == Instantiate(rt.nextId, AllCalls(t.fut))
      && s.rt.queue == Place(rt.queue, CreatedTasks(s.events))
    ensures !t.block && t.fut.Yield? ==>
      && PollLog(s.events) == [Polled(t.id, Pending)]
      && DroppedIds(s.events) == []
      && s.rt.queue == Place(rt.queue, CreatedTasks(s.events)) + [t.(fut := t.fut.next)]
    ensures !t.block ==> CreatedTasks(s.events) == Instantiate(rt.nextId, t.fut.spawns)
    ensures !t.block && t.fut.Done? ==>
      && PollLog(s.events) == [Polled(t.id, Ready)]
      && DroppedIds(s.events) == [t.id]
      && s.rt.queue == Place(rt.queue, CreatedTasks(s.events))
    ensures Consecutive(CreatedTasks(s.events), rt.nextId)
    ensures s.rt.nextId == rt.nextId + |CreatedTasks(s.events)|
    ensures s.rt.tasks == rt.tasks + |CreatedTasks(s.events)| - |DroppedIds(s.events)|
  {
    if t.block then DriveBlockingCalls(rt, t); DriveBlocking(rt, t)
    else
      var p := PollTask(rt, t);
      if p.result == Pending then
        Step(Wake(p.rt, p.task), p.events)
      else
        EventsAppend(p.events, [Dropped(t.id)]);
        DropEvent(t.id);
        assert CreatedTasks(p.events + [Dropped(t.id)]) == CreatedTasks(p.events);
        Step(DropTask(p.rt), p.events + [Dropped(t.id)])
  }

  /** The queue a turn leaves behind is still free of duplicates, every
      identity in it is below the next one, and the counter matches it. */
  lemma TurnKeepsValid(rt: Runtime, s: Step)
    requires rt.queue != []
    requires Consecutive(CreatedTasks(s.events), rt.nextId)
    requires s.rt.nextId == rt.nextId + |CreatedTasks(s.events)|
    requires s.rt.tasks == rt.tasks + |CreatedTasks(s.events)| - |DroppedIds(s.events)|
    requires
      var t := rt.queue[0];
      var placed := Place(rt.queue[1..], CreatedTasks(s.events));
      || (s.rt.queue == placed && DroppedIds(s.events) == [t.id])
      || (t.fut.Yield? && s.rt.queue == placed + [t.(fut := t.fut.next)] && DroppedIds(s.events) == [])
    ensures Valid(rt) ==> Valid(s.rt)
  {
    if Valid(rt) {
      var t, tail := rt.queue[0], rt.queue[1..];
      var created := CreatedTasks(s.events);
      PlaceLength(tail, created);
      if s.rt.queue == Place(tail, created) {
        TailValid(rt.queue, rt.nextId);
        PlaceFresh(tail, created, rt.nextId);
      } else {
        RequeueFresh(rt.queue, created, rt.nextId, t.(fut := t.fut.next));
      }
    }
  }

  /** `fuel` iterations of the worker loop. An iteration on an empty queue
      changes nothing, as the source's `continue` does. */
  function Run(rt: Runtime, fuel: nat): (s: Step)
    ensures Consecutive(CreatedTasks(s.events), rt.nextId)
    ensures s.rt.nextId == rt.nextId + |CreatedTasks(s.events)|
    ensures s.rt.tasks == rt.tasks + |CreatedTasks(s.events)| - |DroppedIds(s.events)|
    ensures Valid(rt) ==> Valid(s.rt)
    decreases fuel
  {
    if fuel == 0 then Step(rt, [])
    else
      var first := Turn(rt);
      var rest := Run(first.rt, fuel - 1);
      EventsAppend(first.events, rest.events);
      Step(rest.rt, first.events + rest.events)
  }

  /** `wait`: returns once it reads a counter that is not positive. Between
      turns that happens exactly when no task is left in the queue. */
  function Wait(rt: Runtime): (done: bool)
    ensures Valid(rt) ==> (done <==> rt.queue == [])
  {
    !(rt.tasks > 0)
  }
}
