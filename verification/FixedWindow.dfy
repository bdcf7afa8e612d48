/**
  The fixed-window limiter: a counter with an expiry, the script that counts one
  occurrence, the script that gives one back, and the limiter that calls them.
*/
module FixedWindow {
  import opened Options
  import opened Limits

  datatype Counter = Absent | Counter(count: int, expiry: Option<int>)

  datatype Reply = Reply(count: int, ttl: int)

  // A key past its expiry reads as a key that was never written. Times are milliseconds on
  // the server's clock.
  function Live(c: Counter, time: int): Counter {
    if c.Counter? && c.expiry.Some? && time > c.expiry.value then Absent else c
  }

  // The counting script: the expiry is armed when the count becomes one, and repaired when
  // the key turns out to have none.
  function Increment(c: Counter, time: int, seconds: int): (Counter, Reply) {
    var live := Live(c, time);
    var n := (if live.Absent? then 0 else live.count) + 1;
    var armed := if n == 1 then Some(time + 1000 * seconds) else live.expiry;
    match armed
    case None => (Counter(n, Some(time + 1000 * seconds)), Reply(n, 1000 * seconds))
    case Some(expiry) => (Counter(n, armed), Reply(n, expiry - time))
  }

  // The releasing script: a missing key stays missing and a count never goes below zero.
  function GiveOne(c: Counter, time: int): (Counter, int) {
    var live := Live(c, time);
    if live.Absent? || live.count <= 0 then (live, 0)
    else (Counter(live.count - 1, live.expiry), live.count - 1)
  }

  // ----- the server's counter, command by command -----

  class CounterKey {
    var present: bool
    var count: int
    var expiry: Option<int>

    function View(): Counter
      reads this
    {
      if present then Counter(count, expiry) else Absent
    }

    constructor ()
      ensures View() == Absent
    {
      present, count, expiry := false, 0, None;
    }

    method Touch(time: int)
      modifies this
      ensures View() == Live(old(View()), time)
    {
      if present && expiry.Some? && time > expiry.value {
        present := false;
      }
    }

    method Incr() returns (n: int)
      modifies this
      ensures present && count == n
      ensures n == if old(present) then old(count) + 1 else 1
      ensures expiry == if old(present) then old(expiry) else None
    {
      if !present {
        present, count, expiry := true, 0, None;
      }
      count := count + 1;
      n := count;
    }

    method Expire(time: int, seconds: int)
      modifies this`expiry
      ensures expiry == if present then Some(time + 1000 * seconds) else old(expiry)
    {
      if present {
        expiry := Some(time + 1000 * seconds);
      }
    }

    // The remaining life, or a negative number for a key without expiry or without existence.
    function PTTL(time: int): int
      reads this
    {
      if !present then -2 else if expiry.None? then -1 else expiry.value - time
    }

    method Decr() returns (n: int)
      requires present
      modifies this`count
      ensures count == n == old(count) - 1
    {
      count := count - 1;
      n := count;
    }
  }

  // ----- the two scripts -----

  method IncrementWithTTL(key: CounterKey, time: int, seconds: int) returns (reply: Reply)
    requires seconds > 0
    modifies key
    ensures (key.View(), reply) == Increment(old(key.View()), time, seconds)
  {
    key.Touch(time);
    var n := key.Incr();
    if n == 1 {
      key.Expire(time, seconds);
    }
    var ttl := key.PTTL(time);
    if ttl < 0 {
      key.Expire(time, seconds);
      ttl := seconds * 1000;
    }
    reply := Reply(n, ttl);
  }

  method ReleaseOne(key: CounterKey, time: int) returns (n: int)
    modifies key
    ensures (key.View(), n) == GiveOne(old(key.View()), time)
  {
    key.Touch(time);
    if !key.present {
      return 0;
    }
    if key.count <= 0 {
      return 0;
    }
    n := key.Decr();
  }

  // ----- the limiter -----

  datatype Policy = Policy(max: int, windowNanos: int)
  {
    predicate Enforceable() {
      max > 0 && windowNanos >= NANOS_PER_SECOND
    }

    // The window in whole seconds, as the script receives it.
    function Seconds(): int {
      windowNanos / NANOS_PER_SECOND
    }
  }

  datatype Answer = Answer(count: int, allowed: bool, retryAfterSeconds: int)

  method Allow(key: CounterKey, policy: Policy, time: int, reachable: bool)
    returns (answer: Result<Answer, LimiterError>)
    modifies key
    ensures !policy.Enforceable() ==> answer == Err(InvalidPolicy) && key.View() == old(key.View())
    ensures policy.Enforceable() && !reachable ==> answer == Err(Unreachable) && key.View() == old(key.View())
    ensures policy.Enforceable() && reachable ==>
              var (after, reply) := Increment(old(key.View()), time, policy.Seconds());
              && key.View() == after
              && answer == Ok(Answer(reply.count, reply.count <= policy.max, RetryAfterSeconds(reply.ttl)))
  {
    if !policy.Enforceable() {
      return Err(InvalidPolicy);
    }
    if !reachable {
      return Err(Unreachable);
    }
    var reply := IncrementWithTTL(key, time, policy.Seconds());
    answer := Ok(Answer(reply.count, reply.count <= policy.max, RetryAfterSeconds(reply.ttl)));
  }

  method Release(key: CounterKey, time: int, reachable: bool) returns (answer: Result<Answer, LimiterError>)
    modifies key
    ensures !reachable ==> answer == Err(Unreachable) && key.View() == old(key.View())
    ensures reachable ==>
              var (after, n) := GiveOne(old(key.View()), time);
              key.View() == after && answer == Ok(Answer(n, true, 0))
  {
    if !reachable {
      return Err(Unreachable);
    }
    var n := ReleaseOne(key, time);
    answer := Ok(Answer(n, true, 0));
  }
}
