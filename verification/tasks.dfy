/**
 Tasks of the whorl runtime. A future is modelled abstractly by what each of
 its polls does: the `spawn` / `block_on` calls the poll makes, and whether it
 then answers Pending (and continues) or Ready.
 */
module Tasks {

  /** An abstract future. `Yield` answers Pending after making its calls and
      continues as `next`; `Done` answers Ready after making its calls. */
  datatype Future = Done(spawns: seq<Child>) | Yield(spawns: seq<Child>, next: Future)

  /** A call made by a poll: `spawn(fut)` when `block` is false,
      `block_on(fut)` when it is true. */
  datatype Child = Child(block: bool, fut: Future)

  /** `Task`: the allocation it lives in (`id`, standing for the `Arc`), the
      `block` flag fixed at construction, and the future it drives. */
  datatype Task = Task(id: nat, block: bool, fut: Future)

  /** How many polls a future needs before it answers Ready. */
  function PollsToReady(f: Future): (n: nat)
    ensures n >= 1
    ensures f.Done? <==> n == 1
  {
    match f
    case Done(_) => 1
    case Yield(_, next) => 1 + PollsToReady(next)
  }

  /** Every call a future makes over all of its polls, in order. */
  function AllCalls(f: Future): seq<Child>
  {
    match f
    case Done(spawns) => spawns
    case Yield(spawns, next) => spawns + AllCalls(next)
  }
}
