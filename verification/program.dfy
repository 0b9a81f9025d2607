/**
 Whole executions of the runtime: callers on any thread interleave `spawn` and
 `block_on` calls with turns of the single worker. Starting from the runtime
 `setup_runtime` builds, the live-task counter always equals the number of
 tasks constructed and not yet destroyed, and those are exactly the queued ones.
 */
module Program {
  import opened Tasks
  import opened Spawner
  import opened Scheduler

  /** A `spawn` / `block_on` call from outside the runtime, or one worker turn. */
  datatype Action = Call(c: Child) | Tick

  /** The identities destroyed in a trace. */
  function DroppedSet(evs: seq<Event>): set<nat>
  {
    set i | i in DroppedIds(evs)
  }

  /** Performs one action. */
  function Act(rt: Runtime, a: Action): (s: Step)
    ensures Consecutive(CreatedTasks(s.events), rt.nextId)
    ensures s.rt.nextId == rt.nextId + |CreatedTasks(s.events)|
    ensures s.rt.tasks == rt.tasks + |CreatedTasks(s.events)| - |DroppedIds(s.events)|
    ensures Valid(rt) ==> Valid(s.rt)
  {
    match a
    case Call(c) => SubmitKeepsValid(rt, [c]); Submit(rt, [c])
    case Tick => Turn(rt)
  }

  /** Performs the actions in order. */
  function Exec(rt: Runtime, acts: seq<Action>): (s: Step)
    ensures Consecutive(CreatedTasks(s.events), rt.nextId)
    ensures s.rt.nextId == rt.nextId + |CreatedTasks(s.events)|
    ensures s.rt.tasks == rt.tasks + |CreatedTasks(s.events)| - |DroppedIds(s.events)|
    ensures Valid(rt) ==> Valid(s.rt)
    decreases |acts|
  {
    if acts == [] then Step(rt, [])
    else
      var first := Act(rt, acts[0]);
      var rest := Exec(first.rt, acts[1..]);
      EventsAppend(first.events, rest.events);
      ConsecutiveAppend(CreatedTasks(first.events), CreatedTasks(rest.events), rt.nextId);
      Step(rest.rt, first.events + rest.events)
  }

  lemma DroppedAppendSet(a: seq<Event>, b: seq<Event>)
    ensures DroppedSet(a + b) == DroppedSet(a) + DroppedSet(b)
  {
    EventsAppend(a, b);
  }

  /** A turn either destroys the front task or puts it back at the end, and
      places what it constructed around the rest of the queue. */
  lemma TurnOutcome(rt: Runtime)
    requires rt.queue != []
    ensures var s, t := Turn(rt), rt.queue[0];
      var placed := Place(rt.queue[1..], CreatedTasks(s.events));
      || (s.rt.queue == placed && DroppedIds(s.events) == [t.id])
      || (t.fut.Yield? && s.rt.queue == placed + [t.(fut := t.fut.next)] && DroppedIds(s.events) == [])
  {
    assert Turn(rt) == Serve(rt.(queue := rt.queue[1..]), rt.queue[0]);
  }

  /** A turn removes from the live identities exactly the ones it destroys,
      which were live, and adds the ones it constructs. */
  lemma TurnLiveIds(rt: Runtime)
    requires Valid(rt)
    ensures var s := Turn(rt);
      && Ids(s.rt.queue) == (Ids(rt.queue) + Ids(CreatedTasks(s.events))) - DroppedSet(s.events)
      && DroppedSet(s.events) <= Ids(rt.queue)
  {
    var s := Turn(rt);
    if rt.queue == [] {
      assert DroppedIds(s.events) == [];
    } else {
      TurnOutcome(rt);
      OutcomeLiveIds(rt.queue, rt.nextId, CreatedTasks(s.events), s.rt.queue, DroppedIds(s.events));
    }
  }

  /** The live identities after a turn of either outcome, stated over the
      queue before the turn, the tasks constructed, the queue after and the
      identities destroyed. */
  lemma OutcomeLiveIds(q: seq<Task>, n: nat, created: seq<Task>, after: seq<Task>, dropped: seq<nat>)
    requires q != [] && Distinct(q) && Below(q, n)
    requires Consecutive(created, n)
    requires var t, placed := q[0], Place(q[1..], created);
      || (after == placed && dropped == [t.id])
      || (t.fut.Yield? && after == placed + [t.(fut := t.fut.next)] && dropped == [])
    ensures var d := set i | i in dropped;
      && Ids(after) == (Ids(q) + Ids(created)) - d
      && d <= Ids(q)
  {
    var t, tail := q[0], q[1..];
    var placed := Place(tail, created);
    var d := set i | i in dropped;
    IdsPlace(tail, created);
    IdsTail(q);
    ConsecutiveIds(created, n);
    BelowIds(q, n);
    if dropped == [] {
      var u := t.(fut := t.fut.next);
      IdsAppend(placed, [u]);
      assert Ids([u]) == {t.id};
      assert d == {};
    } else {
      assert d == {t.id};
    }
    TurnSets(Ids(q), Ids(tail), Ids(created), d, Ids(after), t.id, n);
  }

  /** The set algebra of one turn: the front `x` is either destroyed or put
      back, and the constructed identities are all above the queued ones. */
  lemma TurnSets(q: set<nat>, tail: set<nat>, c: set<nat>, d: set<nat>, l: set<nat>, x: nat, n: nat)
    requires x in q && tail == q - {x}
    requires forall y | y in q :: y < n
    requires forall y | y in c :: y >= n
    requires (l == tail + c && d == {x}) || (l == (tail + c) + {x} && d == {})
    ensures l == (q + c) - d && d <= q
  {
  }

  /** Calls made from outside construct and queue tasks and destroy none. */
  lemma SubmitLiveIds(rt: Runtime, c: Child)
    ensures var s := Submit(rt, [c]);
      && Ids(s.rt.queue) == Ids(rt.queue) + Ids(CreatedTasks(s.events))
      && DroppedSet(s.events) == {}
  {
    var s := Submit(rt, [c]);
    IdsPlace(rt.queue, Instantiate(rt.nextId, [c]));
  }

  /** One action removes from the live identities exactly the ones it
      destroys, which were live, and adds the ones it constructs. */
  lemma ActLiveIds(rt: Runtime, a: Action)
    requires Valid(rt)
    ensures var s := Act(rt, a);
      && Ids(s.rt.queue) == (Ids(rt.queue) + Ids(CreatedTasks(s.events))) - DroppedSet(s.events)
      && DroppedSet(s.events) <= Ids(rt.queue) + Ids(CreatedTasks(s.events))
  {
    if a.Call? {
      SubmitLiveIds(rt, a.c);
    } else {
      TurnLiveIds(rt);
    }
  }

  /** Over any execution the live identities are the starting ones plus those
      constructed, minus those destroyed; every destroyed task was either queued
      at the start or constructed during the execution. */
  lemma {:induction false} ExecLiveIds(rt: Runtime, acts: seq<Action>)
    requires Valid(rt)
    ensures var s := Exec(rt, acts);
      && Ids(s.rt.queue) == (Ids(rt.queue) + Ids(CreatedTasks(s.events))) - DroppedSet(s.events)
      && DroppedSet(s.events) <= Ids(rt.queue) + Ids(CreatedTasks(s.events))
    decreases |acts|
  {
    var s := Exec(rt, acts);
    if acts == [] {
      assert DroppedIds(s.events) == [];
    } else {
      var first := Act(rt, acts[0]);
      var rest := Exec(first.rt, acts[1..]);
      assert s == Step(rest.rt, first.events + rest.events);
      ActLiveIds(rt, acts[0]);
      ExecLiveIds(first.rt, acts[1..]);
      EventsAppend(first.events, rest.events);
      DroppedAppendSet(first.events, rest.events);
      var c1, c2 := CreatedTasks(first.events), CreatedTasks(rest.events);
      IdsAppend(c1, c2);
      ConsecutiveIds(c1, rt.nextId);
      ConsecutiveIds(c2, first.rt.nextId);
      BelowIds(rt.queue, rt.nextId);
      LiveSetsCompose(Ids(rt.queue), Ids(c1), DroppedSet(first.events), Ids(first.rt.queue),
                      Ids(c2), DroppedSet(rest.events), Ids(s.rt.queue), first.rt.nextId);
    }
  }

  /** Two steps whose second constructs only identities above everything the
      first could destroy compose into one step. */
  lemma LiveSetsCompose(l0: set<nat>, c1: set<nat>, d1: set<nat>, l1: set<nat>,
                        c2: set<nat>, d2: set<nat>, l2: set<nat>, n: nat)
    requires l1 == (l0 + c1) - d1 && d1 <= l0 + c1
    requires l2 == (l1 + c2) - d2 && d2 <= l1 + c2
    requires forall x | x in l0 + c1 :: x < n
    requires forall x | x in c2 :: x >= n
    ensures l2 == (l0 + (c1 + c2)) - (d1 + d2)
    ensures d1 + d2 <= l0 + (c1 + c2)
  {
  }

  /** In a queue without duplicates there are as many identities as entries. */
  lemma {:induction false} DistinctIdsCount(q: seq<Task>)
    requires Distinct(q)
    ensures |Ids(q)| == |q|
    decreases |q|
  {
    if q != [] {
      IdsTail(q);
      DistinctIdsCount(q[1..]);
      assert q[0].id in Ids(q);
    } else {
      assert Ids(q) == {};
    }
  }

  /** From the runtime `setup_runtime` builds, after any interleaving of calls
      and worker turns, the counter equals the number of tasks constructed
      and not yet destroyed (so it never underflows), those are exactly the
      queued tasks, and `wait` returns exactly when every constructed task has
      been destroyed. */
  lemma CounterCountsLiveTasks(acts: seq<Action>)
    ensures var s := Exec(Setup(), acts);
      var live := Ids(CreatedTasks(s.events)) - DroppedSet(s.events);
      && Ids(s.rt.queue) == live
      && s.rt.tasks == |live|
      && (Wait(s.rt) <==> live == {})
  {
    var s := Exec(Setup(), acts);
    assert Ids(Setup().queue) == {};
    ExecLiveIds(Setup(), acts);
    DistinctIdsCount(s.rt.queue);
  }

  /** No task is destroyed twice: from the runtime `setup_runtime` builds,
      after any execution, the destructions are as many as the identities
      destroyed. */
  lemma NoTaskDestroyedTwice(acts: seq<Action>)
    ensures var s := Exec(Setup(), acts);
      && |DroppedIds(s.events)| == |DroppedSet(s.events)|
      && DroppedSet(s.events) <= Ids(CreatedTasks(s.events))
  {
    var s := Exec(Setup(), acts);
    var created, d := CreatedTasks(s.events), DroppedSet(s.events);
    CounterCountsLiveTasks(acts);
    ExecLiveIds(Setup(), acts);
    assert Ids(Setup().queue) == {};
    assert Distinct(created);
    DistinctIdsCount(created);
    CountsAgree(Ids(created), d, |created|, |DroppedIds(s.events)|, s.rt.tasks);
  }

  /** If the counter is both "built minus destructions" and the number of
      built identities not destroyed, destructions and destroyed identities
      are equally many. */
  lemma CountsAgree(c: set<nat>, d: set<nat>, built: nat, destructions: nat, tasks: int)
    requires |c| == built && d <= c
    requires tasks == built - destructions && tasks == |c - d|
    ensures destructions == |d|
  {
    assert c * d == d;
  }

  /** `block_on` followed by a worker turn: the new task is polled, and no
      other, until it answers Ready; the tasks queued before keep their order. */
  lemma BlockOnMonopolizes(rt: Runtime, fut: Future)
    ensures var s := Turn(BlockOn(rt, fut));
      && PollLog(s.events) == ReadyAfter(rt.nextId, PollsToReady(fut))
      && DroppedIds(s.events) == [rt.nextId]
      && s.rt.queue == Place(rt.queue, CreatedTasks(s.events))
  {
  }

  /** `block_on(x)` then `spawn(y)`: the worker's next turn finishes `x`
      without ever polling `y`, which is still queued afterwards. */
  lemma BlockOnStarvesSpawned(rt: Runtime, x: Future, y: Future)
    ensures var s := Turn(Spawn(BlockOn(rt, x), y));
      var yTask := Task(rt.nextId + 1, false, y);
      && (forall i | 0 <= i < |PollLog(s.events)| :: PollLog(s.events)[i].id == rt.nextId)
      && PollLog(s.events) == ReadyAfter(rt.nextId, PollsToReady(x))
      && DroppedIds(s.events) == [rt.nextId]
      && yTask in s.rt.queue
  {
    var q := Spawn(BlockOn(rt, x), y).queue;
    var yTask := Task(rt.nextId + 1, false, y);
    assert q[1..] == rt.queue + [yTask];
    var s := Turn(Spawn(BlockOn(rt, x), y));
    PlaceMultiset(q[1..], CreatedTasks(s.events));
    assert yTask in multiset(s.rt.queue);
  }

  /** Two `block_on` calls made before the worker's next turn: the later one
      is at the front, so it is driven to completion first. */
  lemma LaterBlockOnRunsFirst(rt: Runtime, x1: Future, x2: Future)
    ensures var s := Turn(BlockOn(BlockOn(rt, x1), x2));
      && PollLog(s.events) == ReadyAfter(rt.nextId + 1, PollsToReady(x2))
      && Task(rt.nextId, true, x1) in s.rt.queue
  {
    var q := BlockOn(BlockOn(rt, x1), x2).queue;
    assert q[1..] == [Task(rt.nextId, true, x1)] + rt.queue;
    var s := Turn(BlockOn(BlockOn(rt, x1), x2));
    PlaceMultiset(q[1..], CreatedTasks(s.events));
    assert Task(rt.nextId, true, x1) in multiset(s.rt.queue);
  }
}
