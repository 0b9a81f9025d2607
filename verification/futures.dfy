/**
 The `futures` module of whorl: the poll answer every future gives, and the
 `Sleep` timer future. The wall clock is not read here: every poll takes the
 current clock reading, in nanoseconds since an arbitrary origin, as an input.
 */
module Futures {
  import opened Wrappers

  /** What polling a future answers: it has finished, or it must be polled again. */
  datatype Poll = Ready | Pending

  /** `Sleep::ms` is a `u128`. */
  const U128_LIMIT: nat := 0x1_0000_0000_0000_0000_0000_0000_0000_0000
  type U128 = x: nat | x < U128_LIMIT

  /** `Duration::as_millis` counts whole milliseconds of a nanosecond duration. */
  const NANOS_PER_MILLI: nat := 1_000_000

  /** A timer future: the clock reading when it was built, and how many
      milliseconds after that it becomes ready. */
  datatype Sleep = Sleep(created: int, ms: U128)

  /** `SystemTime::elapsed` fails when the clock now reads earlier than the
      creation instant; the source unwraps that result, so the poll panics. */
  datatype ClockError = ClockWentBackwards

  /** `Sleep::new`: remembers the current clock reading, so polling at any
      earlier reading panics, a sleep polled at its creation instant is ready
      only when it asked for no time at all, and it is ready once `ms` whole
      milliseconds have passed. */
  function NewSleep(ms: U128, now: int): (s: Sleep)
    ensures forall t: int ::
              PollSleep(s, t) ==
                if t < now then Err(ClockWentBackwards)
                else if t - now >= ms * NANOS_PER_MILLI then Ok(Ready)
                else Ok(Pending)
    ensures PollSleep(s, now) == (if ms == 0 then Ok(Ready) else Ok(Pending))
    ensures PollSleep(s, now + ms * NANOS_PER_MILLI) == Ok(Ready)
    ensures ms > 0 ==> PollSleep(s, now + ms * NANOS_PER_MILLI - 1) == Ok(Pending)
  {
    Sleep(now, ms)
  }

  /** `self.now.elapsed().unwrap().as_millis()`: whole milliseconds since creation. */
  function ElapsedMillis(s: Sleep, now: int): (r: Result<nat, ClockError>)
    ensures r.Err? <==> now < s.created
    ensures r.Ok? ==> r.value * NANOS_PER_MILLI <= now - s.created < (r.value + 1) * NANOS_PER_MILLI
  {
    if now < s.created then Err(ClockWentBackwards)
    else Ok((now - s.created) / NANOS_PER_MILLI)
  }

  /** `Sleep::poll`: ready once at least `ms` whole milliseconds have elapsed. */
  function PollSleep(s: Sleep, now: int): (r: Result<Poll, ClockError>)
    ensures r.Err? <==> now < s.created
    ensures r == Ok(Ready) <==> now - s.created >= s.ms * NANOS_PER_MILLI
    ensures r == Ok(Pending) <==> s.created <= now < s.created + s.ms * NANOS_PER_MILLI
  {
    match ElapsedMillis(s, now)
    case Err(e) => Err(e)
    case Ok(elapsed) => if elapsed >= s.ms then Ok(Ready) else Ok(Pending)
  }

  /** Over non-decreasing clock readings, a sleep that was ready stays ready. */
  lemma SleepStaysReady(s: Sleep, earlier: int, later: int)
    requires earlier <= later
    requires PollSleep(s, earlier) == Ok(Ready)
    ensures PollSleep(s, later) == Ok(Ready)
  {
  }

  /** Polling a sleep at non-decreasing clock readings, none earlier than its
      creation, answers Pending some number of times and then Ready from then
      on: a Ready answer is followed only by Ready answers, and a Pending
      answer is preceded only by Pending answers. */
  lemma {:induction false} SleepPendingThenReady(s: Sleep, times: seq<int>, i: nat, j: nat)
    requires forall k | 0 <= k < |times| :: s.created <= times[k]
    requires forall k | 0 < k < |times| :: times[k - 1] <= times[k]
    requires i <= j < |times|
    ensures PollSleep(s, times[i]) == Ok(Ready) ==> PollSleep(s, times[j]) == Ok(Ready)
    ensures PollSleep(s, times[j]) == Ok(Pending) ==> PollSleep(s, times[i]) == Ok(Pending)
    decreases j - i
  {
    if i < j {
      SleepPendingThenReady(s, times, i + 1, j);
      if PollSleep(s, times[i]) == Ok(Ready) {
        SleepStaysReady(s, times[i], times[i + 1]);
      }
    }
  }
}
