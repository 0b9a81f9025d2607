# whorl executor — a Dafny model

whorl is a small single-worker executor for Rust futures. One background
worker pops task handles from a shared queue and polls them. `spawn` queues a
task at the back. `block_on` queues a task at the front, and the worker then
polls that task again and again, ignoring everything else, until it is Ready.
A non-blocking task that answers Pending re-queues itself through `wake`.
A live-task counter goes up when a `Task` is built and down when it is
destroyed, and `wait` spins until the counter reads zero. Alongside sit
`Lazy<T>`, a cell initialised at most once (used for the global runtime), and
`Sleep`, a timer future.

This project models that policy as immutable datatypes and pure step
functions, and proves properties of it.

| file | module | models |
|---|---|---|
| wrappers.dfy | `Wrappers` | `Option` and `Result` |
| futures.dfy | `Futures` | `Poll`, `Sleep::new`, `Sleep::poll` |
| lazy.dfy | `LazyCell` | `Lazy::{new, is_initialized, get_or_init}`, `Drop for Lazy` |
| tasks.dfy | `Tasks` | futures as sequences of polls, `Task` |
| spawner.dfy | `Spawner` | the runtime state, `Task::new`, `Drop for Task`, `Spawner`, `Wake for Task` |
| scheduler.dfy | `Scheduler` | `Task::poll`, the loop body of `Runtime::start`, `wait` |
| progress.dfy | `Progress` | the work left in the queue, and a proof that the worker empties it |
| program.dfy | `Program` | callers' `spawn`/`block_on` interleaved with worker turns |
| drain.dfy | `Drain` | the worker loop as an execution, and what draining the queue destroys |

How the model represents things:

- **Futures.** A future is a finite script. Each poll makes some `spawn` /
  `block_on` calls (a `Child` each). A `Yield` poll then answers Pending; a
  `Done` poll answers Ready. A `Task` has an identity (`id`, standing for its
  `Arc` allocation), its `block` flag and its future.
- **The runtime.** The runtime is a value: the queue, the counter `tasks`, and
  the next identity to hand out. Every step returns the new runtime and a
  trace of events: `Created(task)`, `Polled(id, answer)` and `Dropped(id)`.
  A poll's `Created` events come before its `Polled` event; the `Polled`
  event marks the moment the poll returns.
- **Invariant.** `Spawner.Valid` holds between worker turns: the counter
  equals the queue length, no handle is queued twice, and every identity in
  the queue was already handed out.
- **Clock.** `Sleep` takes the clock reading, in nanoseconds, as a parameter.

Two behaviours of the code worth stating plainly:

- Both `block_on` calls reach `push_front` (`inner_spawn_blocking`,
  src/lib.rs:851-853, called from `block_on` at src/lib.rs:865-868). So of two
  `block_on` calls made before the worker's next turn, the later one is popped
  first and driven to completion first. `Program.LaterBlockOnRunsFirst`
  proves it.
- A panicking factory leaves `Lazy` poisoned. Every later `get_or_init` then
  panics too; it does not return an error value. This is how
  `std::sync::Once` behaves. `LazyCell.PanicPoisonsForever` proves it.

## Model

| member | source | states |
|---|---|---|
| Futures.NewSleep | src/lib.rs:108-113 | A new sleep remembers the clock reading. Polled at any earlier reading it panics, because the clock went backwards. From that reading on, it is Pending until `ms`·10⁶ ns have passed and Ready after. So at the creation instant it is Pending unless it asked for 0 ms. |
| Futures.ElapsedMillis | src/lib.rs:143 | Fails exactly when the clock reads earlier than the creation instant, which makes `unwrap` panic. Otherwise it gives the whole milliseconds elapsed: the largest m with m·10⁶ ns ≤ elapsed. |
| Futures.PollSleep | src/lib.rs:138-148 | Answers Ready exactly when at least `ms`·10⁶ ns have passed since creation. Answers Pending exactly when the clock is between creation and that point. Panics exactly when the clock went backwards. |
| Futures.SleepStaysReady | src/lib.rs:138-148 | A sleep that was Ready at one clock reading is Ready at every later reading. |
| Futures.SleepPendingThenReady | src/lib.rs:138-148 | Over non-decreasing clock readings, none earlier than creation, the answers are some Pendings followed only by Readys: after a Ready every later answer is Ready, and before a Pending every earlier answer is Pending. |
| LazyCell.New | src/lib.rs:438-443 | A new cell is consistent and not initialised. The first `get_or_init` on it runs its factory, whatever the factory does. |
| LazyCell.IsInitialized | src/lib.rs:448-450 | On a consistent cell, it reports initialised exactly when a value is stored. |
| LazyCell.GetOrInit | src/lib.rs:455-481 | The factory runs only if the `Once` never ran. On an initialised cell the call returns the stored value and changes nothing. A value is returned exactly when the cell ends up initialised, and it is the stored value. A panicking factory poisons the cell. A poisoned cell panics and never runs the factory. |
| LazyCell.FactoryRunsAtMostOnce | src/lib.rs:455-467 | Over any series of `get_or_init` calls the factory runs at most once. It runs zero times if the cell was already initialised or poisoned. |
| LazyCell.FactoryRunsExactlyOnceFromNew | src/lib.rs:438-467 | From a new cell, any non-empty series of calls runs exactly one factory, and it is the first call's. |
| LazyCell.LaterCallsSeeSameValue | src/lib.rs:455-481 | Once a call has returned a value, every later call returns that same value. |
| LazyCell.FirstValueIsKept | src/lib.rs:455-481 | On an initialised cell, every call of any series returns the stored value and leaves the cell unchanged. |
| LazyCell.PoisonedCellStaysPoisoned | src/lib.rs:455-467 | On a poisoned cell, every call of any series panics, never runs its factory, and leaves the cell unchanged. |
| LazyCell.PanicPoisonsForever | src/lib.rs:455-467 | Once a call of a series has panicked, every later call panics too without running its factory, and the cell stays poisoned. |
| LazyCell.Drop | src/lib.rs:491-497 | Dropping destroys a value exactly when the cell is initialised, and the value destroyed is the stored one. Dropping an uninitialised or poisoned cell destroys nothing. |
| LazyCell.DropDestroysFirstStoredValue | src/lib.rs:491-497 | Take a new cell and any series of calls. Dropping it destroys a value exactly when some call succeeded. That value is the one every successful call returned. |
| Spawner.Setup | src/lib.rs:773-792 | The runtime starts with an empty queue and a zero counter, and satisfies the invariant. |
| Spawner.NewTask | src/lib.rs:902-908 | Building a task raises the counter by exactly one and leaves the queue alone. The new task carries the given flag and future. Its identity is not in the queue. |
| Spawner.DropTask | src/lib.rs:948-952 | Destroying a task lowers the counter by exactly one and changes nothing else. |
| Spawner.InnerSpawn | src/lib.rs:843-845 | The task lands at the back. Every other entry keeps its position. The counter does not change. |
| Spawner.InnerSpawnBlocking | src/lib.rs:851-853 | The task lands at the front. Every other entry moves back by exactly one place. The counter does not change. |
| Spawner.Wake | src/lib.rs:960-967 | The handle goes to the front if its `block` flag is set and to the back otherwise. The queue gains exactly one more occurrence of it. The counter does not change. |
| Spawner.WakeDuplicatesQueuedTask | src/lib.rs:960-967 | `wake` has no guard: waking a task that is already queued leaves it queued twice. |
| Spawner.Spawn | src/lib.rs:825-827 | `spawn` appends a new non-blocking task at the back. The counter and the next identity each go up by one. The invariant is kept. |
| Spawner.BlockOn | src/lib.rs:835-837 | `block_on` puts a new blocking task at the front, ahead of everything already queued. The counter and the next identity each go up by one. The invariant is kept. |
| Spawner.PlaceShape | src/lib.rs:825-853 | Queueing a batch of tasks one at a time never reorders what was already queued. Blocking newcomers end up in front of it, latest first. The others end up behind it, earliest first. |
| Spawner.PlaceFresh | src/lib.rs:902-908 | Queueing newly built tasks keeps the queue free of duplicates. Every identity in it stays below the next one to hand out. |
| Scheduler.Submit | src/lib.rs:858-868 | A series of `spawn` / `block_on` calls builds one task per call, numbered consecutively. It places each one where `wake` would, polls and destroys nothing, and raises the counter by the number of calls. |
| Scheduler.SubmitKeepsValid | src/lib.rs:858-868 | Calls made on a consistent runtime leave it consistent: no handle queued twice, identities below the next one, counter equal to the queue length. |
| Scheduler.PollTask | src/lib.rs:929-933 | One poll answers Ready exactly when the future is at its last step. It records one poll of this task and nothing else, and builds and queues exactly the tasks for that step's calls. A Pending task continues with the rest of its future. |
| Scheduler.DriveBlocking | src/lib.rs:725-736 | The blocking task is polled exactly as many times as its future needs: Pending every time but the last, then Ready. No other task is polled. The task is then destroyed. Only tasks built by its own polls are added to the queue, and the old entries keep their order. |
| Scheduler.DriveBlockingCalls | src/lib.rs:725-736 | The tasks built while driving a blocking task are exactly those for the `spawn` / `block_on` calls its future makes over all of its polls, in call order and numbered consecutively. |
| Scheduler.Serve | src/lib.rs:725-750 | Only the popped task is polled. A blocking task is driven to completion and destroyed, and the tasks built are those for every call its future makes. A non-blocking task is polled once and the tasks built are those for that poll's calls. If it answers Pending it goes to the back and nothing is destroyed. If it answers Ready it is destroyed and not re-queued. |
| Scheduler.Turn | src/lib.rs:721-724 | A turn on an empty queue changes nothing and records nothing. Otherwise only the front task is polled, at least once. The counter changes by tasks built minus tasks destroyed. The invariant is kept. |
| Scheduler.TurnKeepsValid | src/lib.rs:721-750 | After a turn the counter equals the queue length again, no handle is queued twice, and all identities are below the next one. |
| Scheduler.Run | src/lib.rs:718-753 | Any number of worker iterations keep the invariant. The counter moves by exactly tasks built minus tasks destroyed. |
| Scheduler.Wait | src/lib.rs:873-877 | Between turns, `wait` stops spinning exactly when no task is left. |
| Progress.DriveBlockingWork | src/lib.rs:725-736 | Driving a blocking task uses up one unit of work per poll. The rest of its work becomes work of the tasks it built. |
| Progress.TurnWork | src/lib.rs:725-750 | Each poll in a turn consumes exactly one unit of the queue's remaining work, counted transitively over everything still to be spawned. |
| Progress.RunEmpties | src/lib.rs:718-753 | With at least as many worker iterations as the queue has work left, the queue ends up empty, whatever the futures spawn. |
| Program.Exec | src/lib.rs:858-877 | Any interleaving of outside calls and worker turns keeps the invariant. The counter moves by exactly tasks built minus tasks destroyed. |
| Program.TurnOutcome | src/lib.rs:721-750 | A turn on a non-empty queue ends one of two ways. The front task is destroyed and the rest of the queue, with the new tasks placed around it, remains. Or the front task was not finished, nothing is destroyed, and it goes to the back, advanced by one step. |
| Program.OutcomeLiveIds | src/lib.rs:721-750 | Whether a turn destroys the popped task or puts it back at the end, the queued identities afterwards are those before, plus those built, minus those destroyed, and only a queued identity is destroyed. |
| Program.TurnLiveIds | src/lib.rs:721-750 | A turn removes from the live identities exactly those it destroys, which were live, and adds those it builds. |
| Program.ExecLiveIds | src/lib.rs:902-952 | Over any execution, the queued identities are the starting ones, plus those built, minus those destroyed. Only a task queued at the start or built during the execution is destroyed. |
| Program.CounterCountsLiveTasks | src/lib.rs:902-952 | From a new runtime, after any execution, the counter equals the number of tasks built and not yet destroyed, so it is never negative. Those tasks are exactly the queued ones. `wait` returns exactly when every built task has been destroyed. |
| Program.NoTaskDestroyedTwice | src/lib.rs:902-952 | From a new runtime, after any execution, no task is destroyed twice: there are as many destructions as identities destroyed, and each of them was built. |
| Drain.RunIsTicks | src/lib.rs:718-753 | Running the worker loop a number of times is the execution made of that many worker turns and no outside call. |
| Drain.RunDrains | src/lib.rs:718-753 | With at least as many worker iterations as the queue has work left, the queue empties and `wait` returns. The identities destroyed are exactly those queued at the start plus those built meanwhile, and there are as many destructions as those tasks, so each is destroyed once. |
| Program.BlockOnMonopolizes | src/lib.rs:725-736 | After `block_on`, the worker's next turn polls only the new task until it is Ready, then destroys it. Tasks queued before keep their order. |
| Program.BlockOnStarvesSpawned | src/lib.rs:725-736 | After `block_on(x)` then `spawn(y)`, the next turn polls only `x`, until it answers Ready, and then destroys `x`. It never polls `y`, and `y` is still queued. |
| Program.LaterBlockOnRunsFirst | src/lib.rs:865-868 | Of two `block_on` calls made before a turn, the later one is driven to completion first, and the earlier one is still queued. |

## Left out

- The worker thread, the `Mutex` on the queue and the per-task `Mutex`, and the `AtomicUsize` memory orderings are not modelled. The worker's iterations are sequential steps. Outside callers' calls interleave with whole worker turns, not inside one.
- The endless `loop` of `Runtime::start` and the spin in `wait` are not modelled as loops. `Run` performs a given number of iterations. `Wait` is a single read of the counter.
- The `SystemTime` modulo checks in the worker loop do nothing and are not modelled.
- `SystemTime::now` and `SystemTime::elapsed` are replaced by a clock reading passed as a parameter.
- The `UnsafeCell` / `MaybeUninit` storage and the `Send` / `Sync` impls of `Lazy` are not modelled. The slot is an `Option`.
- `Pin`, `Box`, `Waker` and `Context` construction are not modelled. Model futures never call their own waker, so `Serve` never queues a handle twice. `wake` itself has no guard, as `Spawner.WakeDuplicatesQueuedTask` shows.
- `Runtime::get`, `Runtime::spawner` and the `RUNTIME` static are not modelled. The runtime state is passed explicitly. `LazyCell` models `Lazy` on its own, not composed with the runtime.
- `Task::will_block` is not a separate member. The model reads the task's `block` field directly.
- A panic inside a future's poll, and lock poisoning, are not modelled. Model futures never panic.
- `Sleep` is modelled only through its poll answer. The scheduler's futures are abstract scripts, not sleeps.
- `current_thread_id`, `current_time` and `library_test` are not modelled.
- DriveBlocking, RunDrains: a future that never answers Ready is not modelled. `Future` is an inductive datatype, so every future needs finitely many polls and spawns finitely many tasks. In the source such a future makes the blocking loop spin forever, a Pending non-blocking task get re-queued forever, and `wait` never return. "Then destroyed" in `DriveBlocking` and the draining in `RunDrains` rely on this finiteness.
- DropTask: does not model the `usize` wrap-around of `fetch_sub`. The counter is an unbounded integer, and `Program.CounterCountsLiveTasks` shows it never goes below zero. Overflow past 2⁶⁴ live tasks is not modelled.
