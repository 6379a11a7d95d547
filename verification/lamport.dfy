/**
 * The Lamport logical clock shared by the GET client: a counter that starts
 * at 0, steps by one on `increment` and jumps past a received value on
 * `update`.  The Java class mutates a field under `synchronized`; here each
 * operation maps the old clock to the new one.
 */
module Lamport {

  datatype Clock = Clock(value: nat)

  /** `new LamportClock()`. */
  function Init(): (c: Clock)
    ensures GetClock(c) == 0
  {
    Clock(0)
  }

  /** `getClock()`: reads the counter; being a function it changes nothing. */
  function GetClock(c: Clock): nat {
    c.value
  }

  /** `increment()`: the next clock reads exactly one more. */
  function Increment(c: Clock): (r: Clock)
    ensures GetClock(r) > GetClock(c)
    ensures GetClock(r) - GetClock(c) == 1
  {
    Clock(c.value + 1)
  }

  /**
   * `update(received)`: the new value is the least one exceeding both the
   * current value and the received one, i.e. `max(clock, received) + 1`.
   * `received` is a Java `int`, so it may be negative.
   */
  function Update(c: Clock, received: int): (r: Clock)
    ensures GetClock(r) > GetClock(c) && GetClock(r) > received
    ensures GetClock(r) - 1 == GetClock(c) || GetClock(r) - 1 == received
  {
    Clock(if received > c.value then received + 1 else c.value + 1)
  }

  /** One call on the clock. */
  datatype Event = Tick | Receive(received: int) | Read

  /** The clock after one call. */
  function Step(c: Clock, e: Event): Clock {
    match e
    case Tick => Increment(c)
    case Receive(r) => Update(c, r)
    case Read => c
  }

  /** The clock after a sequence of calls, in order. */
  function Run(c: Clock, events: seq<Event>): Clock
    decreases |events|
  {
    if |events| == 0 then c else Run(Step(c, events[0]), events[1..])
  }

  /** How many of `events` advance the clock. */
  function Advances(events: seq<Event>): nat {
    if |events| == 0 then 0
    else (if events[0].Read? then 0 else 1) + Advances(events[1..])
  }

  /**
   * Monotonicity: the clock never goes back, every `increment` or `update`
   * moves it by at least one, and reads leave it alone.
   */
  lemma {:induction false} RunAdvances(c: Clock, events: seq<Event>)
    ensures GetClock(Run(c, events)) >= GetClock(c) + Advances(events)
    ensures Advances(events) == 0 ==> Run(c, events) == c
    decreases |events|
  {
    if |events| > 0 {
      RunAdvances(Step(c, events[0]), events[1..]);
    }
  }

  /** The clock after `n` increments. */
  function Increments(c: Clock, n: nat): Clock {
    if n == 0 then c else Increment(Increments(c, n - 1))
  }

  /** `n` increments add exactly `n`. */
  lemma {:induction false} IncrementsAdd(c: Clock, n: nat)
    ensures GetClock(Increments(c, n)) == GetClock(c) + n
  {
    if n > 0 {
      IncrementsAdd(c, n - 1);
    }
  }

  /** A loop calling `increment()` `n` times. */
  method IncrementLoop(c: Clock, n: nat) returns (r: Clock)
    ensures r == Increments(c, n)
    ensures GetClock(r) == GetClock(c) + n
  {
    r := c;
    var i := 0;
    while i < n
      invariant i <= n
      invariant r == Increments(c, i)
      invariant GetClock(r) == GetClock(c) + i
    {
      r := Increment(r);
      i := i + 1;
    }
  }

  /**
   * The two-thread counting test, run one thread after the other: each
   * thread increments a fresh shared clock 1000 times and the final read is
   * 2000.
   */
  method TwoThreadCount() returns (total: nat)
    ensures total == 2000
  {
    var c := Init();
    c := IncrementLoop(c, 1000);
    c := IncrementLoop(c, 1000);
    total := GetClock(c);
  }

  /** The unit-test traces: a fresh clock reads 0, then 1 after one increment;
   *  from a fresh clock `update(5)` gives 6 and a further `update(3)` gives 7. */
  lemma ClockTraces()
    ensures GetClock(Init()) == 0
    ensures GetClock(Increment(Init())) == 1
    ensures GetClock(Update(Init(), 5)) == 6
    ensures GetClock(Update(Update(Init(), 5), 3)) == 7
  {
  }
}
