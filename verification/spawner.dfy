/**
 The runtime's shared state and the `Spawner` operations on it: task
 construction and destruction (which move the live-task counter), insertion at
 the back or the front of the queue, and the `Wake` implementation for `Task`.
 */
module Spawner {
  import opened Tasks

  /** The runtime: the queue of task handles and the live-task counter
      `tasks`. `nextId` is the identity the next constructed task receives. */
  datatype Runtime = Runtime(queue: seq<Task>, tasks: int, nextId: nat)

  /** `setup_runtime`: an empty queue and a zero counter. */
  function Setup(): (rt: Runtime)
    ensures Valid(rt) && rt.queue == [] && rt.tasks == 0
  {
    Runtime([], 0, 0)
  }

  /** No task handle occurs twice in the queue. */
  predicate Distinct(q: seq<Task>)
  {
    forall i, j | 0 <= i < j < |q| :: q[i].id != q[j].id
  }

  /** Every task in the queue was constructed before identity `n` was handed out. */
  predicate Below(q: seq<Task>, n: nat)
  {
    forall i | 0 <= i < |q| :: q[i].id < n
  }

  /** Between scheduler turns the live tasks are exactly the queued ones, each
      queued once, and the counter equals their number. */
  predicate Valid(rt: Runtime)
  {
    && rt.tasks == |rt.queue|
    && Distinct(rt.queue)
    && Below(rt.queue, rt.nextId)
  }

  /** A constructed task together with the runtime after its construction. */
  datatype Made = Made(rt: Runtime, task: Task)

  /** `Task::new`: bumps the counter by one and yields a task that is not in the queue. */
  function NewTask(rt: Runtime, block: bool, fut: Future): (m: Made)
    ensures m.rt.tasks == rt.tasks + 1
    ensures m.rt.queue == rt.queue
    ensures m.task.block == block && m.task.fut == fut
    ensures m.task.id == rt.nextId && m.rt.nextId == rt.nextId + 1
    ensures Below(rt.queue, rt.nextId) ==> forall i | 0 <= i < |rt.queue| :: rt.queue[i].id != m.task.id
  {
    Made(rt.(tasks := rt.tasks + 1, nextId := rt.nextId + 1), Task(rt.nextId, block, fut))
  }

  /** `Drop for Task`: lowers the counter by one and touches nothing else. */
  function DropTask(rt: Runtime): (r: Runtime)
    ensures r.tasks == rt.tasks - 1
    ensures r.queue == rt.queue && r.nextId == rt.nextId
  {
    rt.(tasks := rt.tasks - 1)
  }

  /** `Spawner::inner_spawn`: the task goes to the back, every other entry keeps its place. */
  function InnerSpawn(rt: Runtime, t: Task): (r: Runtime)
    ensures |r.queue| == |rt.queue| + 1
    ensures r.queue[|rt.queue|] == t
    ensures forall i | 0 <= i < |rt.queue| :: r.queue[i] == rt.queue[i]
    ensures r.tasks == rt.tasks && r.nextId == rt.nextId
  {
    rt.(queue := rt.queue + [t])
  }

  /** `Spawner::inner_spawn_blocking`: the task goes to the front, every other
      entry moves back by exactly one place. */
  function InnerSpawnBlocking(rt: Runtime, t: Task): (r: Runtime)
    ensures |r.queue| == |rt.queue| + 1
    ensures r.queue[0] == t
    ensures forall i | 0 <= i < |rt.queue| :: r.queue[i + 1] == rt.queue[i]
    ensures r.tasks == rt.tasks && r.nextId == rt.nextId
  {
    rt.(queue := [t] + rt.queue)
  }

  /** Where a task handed to the queue by `wake` ends up: the front for a
      blocking task, the back otherwise. */
  function Enqueue(q: seq<Task>, t: Task): seq<Task>
  {
    if t.block then [t] + q else q + [t]
  }

  /** `Wake for Task`: re-submits the handle, front or back chosen by its
      `block` flag alone. There is no guard against a handle already queued:
      the queue gains one more occurrence of it whatever it held. */
  function Wake(rt: Runtime, t: Task): (r: Runtime)
    ensures r.queue == Enqueue(rt.queue, t)
    ensures multiset(r.queue) == multiset(rt.queue) + multiset{t}
    ensures r.tasks == rt.tasks && r.nextId == rt.nextId
  {
    if t.block then InnerSpawnBlocking(rt, t) else InnerSpawn(rt, t)
  }

  /** Waking a task that is already queued queues it a second time. */
  lemma WakeDuplicatesQueuedTask(rt: Runtime, t: Task)
    requires t in rt.queue
    ensures multiset(Wake(rt, t).queue)[t] >= 2
  {
  }

  /** `Spawner::spawn` (and the public `spawn`): constructs a non-blocking
      task and appends it at the back. */
  function Spawn(rt: Runtime, fut: Future): (r: Runtime)
    ensures r.queue == rt.queue + [Task(rt.nextId, false, fut)]
    ensures r.tasks == rt.tasks + 1 && r.nextId == rt.nextId + 1
    ensures Valid(rt) ==> Valid(r)
  {
    var m := NewTask(rt, false, fut);
    InnerSpawn(m.rt, m.task)
  }

  /** `Spawner::spawn_blocking` (and the public `block_on`): constructs a
      blocking task and inserts it at the front. The caller does not wait. */
  function BlockOn(rt: Runtime, fut: Future): (r: Runtime)
    ensures r.queue == [Task(rt.nextId, true, fut)] + rt.queue
    ensures r.tasks == rt.tasks + 1 && r.nextId == rt.nextId + 1
    ensures Valid(rt) ==> Valid(r)
  {
    var m := NewTask(rt, true, fut);
    InnerSpawnBlocking(m.rt, m.task)
  }

  /** The queue after handing tasks to it one by one, each at the place `wake`
      would choose for it. */
  function Place(q: seq<Task>, ts: seq<Task>): seq<Task>
    decreases |ts|
  {
    if ts == [] then q else Place(Enqueue(q, ts[0]), ts[1..])
  }

  /** The blocking tasks of `ts`, in order. */
  function Blocking(ts: seq<Task>): seq<Task>
  {
    if ts == [] then [] else (if ts[0].block then [ts[0]] else []) + Blocking(ts[1..])
  }

  /** The non-blocking tasks of `ts`, in order. */
  function NonBlocking(ts: seq<Task>): seq<Task>
  {
    if ts == [] then [] else (if ts[0].block then [] else [ts[0]]) + NonBlocking(ts[1..])
  }

  function Reverse(ts: seq<Task>): seq<Task>
  {
    if ts == [] then [] else Reverse(ts[1..]) + [ts[0]]
  }

  /** Placement never reorders what was queued: blocking newcomers end up in
      front of it, latest first, and the others behind it, earliest first. */
  lemma {:induction false} PlaceShape(q: seq<Task>, ts: seq<Task>)
    ensures Place(q, ts) == Reverse(Blocking(ts)) + q + NonBlocking(ts)
    decreases |ts|
  {
    if ts != [] {
      var t, rest := ts[0], ts[1..];
      PlaceShape(Enqueue(q, t), rest);
      assert Place(q, ts) == Place(Enqueue(q, t), rest);
      if t.block {
        assert Blocking(ts) == [t] + Blocking(rest);
        ReverseCons(t, Blocking(rest));
        assert NonBlocking(ts) == NonBlocking(rest);
        SeqAssoc(Reverse(Blocking(rest)), [t], q, NonBlocking(rest));
      } else {
        assert Blocking(ts) == Blocking(rest);
        assert NonBlocking(ts) == [t] + NonBlocking(rest);
        SeqAssoc(Reverse(Blocking(rest)), q, [t], NonBlocking(rest));
      }
    }
  }

  lemma ReverseCons(t: Task, s: seq<Task>)
    ensures Reverse([t] + s) == Reverse(s) + [t]
  {
    assert ([t] + s)[1..] == s;
  }

  lemma SeqAssoc(a: seq<Task>, b: seq<Task>, c: seq<Task>, d: seq<Task>)
    ensures a + (b + c) + d == (a + b) + c + d
  {
  }

  lemma PlaceCons(q: seq<Task>, t: Task, ts: seq<Task>)
    ensures Place(q, [t] + ts) == Place(Enqueue(q, t), ts)
  {
    assert ([t] + ts)[1..] == ts;
  }

  /** Placing two batches is placing their concatenation. */
  lemma {:induction false} PlaceAppend(q: seq<Task>, a: seq<Task>, b: seq<Task>)
    ensures Place(Place(q, a), b) == Place(q, a + b)
    decreases |a|
  {
    if a == [] {
      assert a + b == b;
    } else {
      assert (a + b)[0] == a[0];
      assert (a + b)[1..] == a[1..] + b;
      PlaceAppend(Enqueue(q, a[0]), a[1..], b);
    }
  }

  /** Placement loses and invents nothing. */
  lemma {:induction false} PlaceMultiset(q: seq<Task>, ts: seq<Task>)
    ensures multiset(Place(q, ts)) == multiset(q) + multiset(ts)
    decreases |ts|
  {
    if ts != [] {
      PlaceMultiset(Enqueue(q, ts[0]), ts[1..]);
      assert ts == [ts[0]] + ts[1..];
    }
  }

  /** The tasks of `ts` carry the consecutive identities `n`, `n + 1`, ... */
  predicate Consecutive(ts: seq<Task>, n: nat)
  {
    forall i | 0 <= i < |ts| :: ts[i].id == n + i
  }

  lemma ConsecutiveAppend(a: seq<Task>, b: seq<Task>, n: nat)
    requires Consecutive(a, n) && Consecutive(b, n + |a|)
    ensures Consecutive(a + b, n)
  {
  }

  /** Placing freshly constructed tasks keeps the queue free of duplicates and
      all of its identities below the next one to hand out. */
  lemma {:induction false} PlaceFresh(q: seq<Task>, ts: seq<Task>, n: nat)
    requires Distinct(q) && Below(q, n)
    requires Consecutive(ts, n)
    ensures Distinct(Place(q, ts)) && Below(Place(q, ts), n + |ts|)
    decreases |ts|
  {
    if ts != [] {
      var q' := Enqueue(q, ts[0]);
      assert Distinct(q') && Below(q', n + 1) by {
        if ts[0].block {
          assert forall i | 0 < i < |q'| :: q'[i] == q[i - 1];
        } else {
          assert forall i | 0 <= i < |q| :: q'[i] == q[i];
        }
      }
      PlaceFresh(q', ts[1..], n + 1);
    }
  }

  /** The identities of a sequence of tasks. */
  function Ids(q: seq<Task>): set<nat>
  {
    set t | t in q :: t.id
  }

  lemma ConsecutiveIds(ts: seq<Task>, n: nat)
    requires Consecutive(ts, n)
    ensures forall x | x in Ids(ts) :: n <= x < n + |ts|
  {
  }

  lemma BelowIds(q: seq<Task>, n: nat)
    requires Below(q, n)
    ensures forall x | x in Ids(q) :: x < n
  {
  }

  /** The identities in a placed queue are those of the queue and of the newcomers. */
  lemma IdsPlace(q: seq<Task>, ts: seq<Task>)
    ensures Ids(Place(q, ts)) == Ids(q) + Ids(ts)
  {
    PlaceMultiset(q, ts);
    forall t | t in Place(q, ts)
      ensures t in q || t in ts
    {
      assert t in multiset(Place(q, ts));
    }
    forall t | t in q || t in ts
      ensures t in Place(q, ts)
    {
      assert t in multiset(q) + multiset(ts);
    }
  }

  /** In a queue without duplicates, the identities behind the front exclude the front's. */
  lemma IdsTail(q: seq<Task>)
    requires q != [] && Distinct(q)
    ensures Ids(q[1..]) == Ids(q) - {q[0].id}
  {
    forall t | t in q[1..]
      ensures t.id != q[0].id
    {
      var k :| 0 <= k < |q[1..]| && q[1..][k] == t;
      assert q[k + 1] == t;
    }
    assert q == [q[0]] + q[1..];
  }

  lemma {:induction false} PlaceLength(q: seq<Task>, ts: seq<Task>)
    ensures |Place(q, ts)| == |q| + |ts|
    decreases |ts|
  {
    if ts != [] {
      PlaceLength(Enqueue(q, ts[0]), ts[1..]);
    }
  }

  /** Popping the front keeps the rest free of duplicates and below the bound. */
  lemma TailValid(q: seq<Task>, n: nat)
    requires q != [] && Distinct(q) && Below(q, n)
    ensures Distinct(q[1..]) && Below(q[1..], n)
  {
    assert forall i | 0 <= i < |q| - 1 :: q[1..][i] == q[i + 1];
  }

  /** Re-queueing the popped front at the back, behind the queue's rest and
      freshly constructed tasks, queues no handle twice. */
  lemma RequeueFresh(q: seq<Task>, ts: seq<Task>, n: nat, u: Task)
    requires q != [] && Distinct(q) && Below(q, n)
    requires Consecutive(ts, n)
    requires u.id == q[0].id
    ensures Distinct(Place(q[1..], ts) + [u]) && Below(Place(q[1..], ts) + [u], n + |ts|)
  {
    var placed := Place(q[1..], ts);
    TailValid(q, n);
    PlaceFresh(q[1..], ts, n);
    IdsPlace(q[1..], ts);
    IdsTail(q);
    ConsecutiveIds(ts, n);
    assert u.id !in Ids(placed);
    forall i | 0 <= i < |placed|
      ensures placed[i].id != u.id
    {
      assert placed[i] in placed;
    }
  }

  lemma IdsAppend(a: seq<Task>, b: seq<Task>)
    ensures Ids(a + b) == Ids(a) + Ids(b)
  {
  }
}
