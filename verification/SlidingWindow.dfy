/**
  The rolling-window limiter: the Redis sorted set behind one subject, the two
  scripts that act on it, and the limiter that calls them.

  Two clocks appear throughout. `time` is the server's own clock, which decides key
  expiry; `now` is what the calling process put into the script's arguments.
*/
module SlidingWindow {
  import opened Options
  import opened Limits

  // The opaque identifier of one admission. The empty string names no admission.
  type Member = string

  // What the server stores under one key. An empty set is no key at all, and a key
  // that does not exist carries no deadline.
  datatype SlidingSet = SlidingSet(scores: map<Member, int>, deadline: Option<int>)
  {
    ghost predicate Valid() {
      scores == map[] ==> deadline == None
    }
  }

  const MISSING := SlidingSet(map[], None)

  datatype Reply = Reply(count: int, admitted: bool, retry: int)

  // A key past its deadline reads as a key that was never written.
  function Live(s: SlidingSet, time: int): SlidingSet {
    if s.deadline.Some? && time > s.deadline.value then MISSING else s
  }

  // The entries whose score lies strictly after the cutoff.
  function Prune(scores: map<Member, int>, cutoff: int): map<Member, int> {
    map m | m in scores && scores[m] > cutoff :: scores[m]
  }

  ghost predicate IsOldest(scores: map<Member, int>, x: int) {
    (exists m :: m in scores && scores[m] == x) && forall m :: m in scores ==> x <= scores[m]
  }

  lemma OldestExists(scores: map<Member, int>)
    requires scores != map[]
    ensures exists x :: IsOldest(scores, x)
    decreases |scores|
  {
    var m :| m in scores;
    var rest := scores - {m};
    assert rest.Keys == scores.Keys - {m};
    if rest == map[] {
      assert scores.Keys - {m} == {};
      assert forall k :: k in scores ==> k == m || k in scores.Keys - {m};
      assert IsOldest(scores, scores[m]);
    } else {
      OldestExists(rest);
      var y :| IsOldest(rest, y);
      var w :| w in rest && rest[w] == y;
      var x := if y <= scores[m] then y else scores[m];
      assert x == scores[w] || x == scores[m];
      assert IsOldest(scores, x) by {
        forall k | k in scores ensures x <= scores[k] {
          if k != m { assert k in rest; }
        }
      }
    }
  }

  // The score of the first entry of the sorted set.
  ghost function Oldest(scores: map<Member, int>): (x: int)
    requires scores != map[]
    ensures IsOldest(scores, x)
  {
    OldestExists(scores);
    var x :| IsOldest(scores, x);
    x
  }

  // How long until the oldest entry leaves the window, never negative.
  ghost function Wait(scores: map<Member, int>, window: int, now: int): int {
    if scores == map[] then 0
    else if Oldest(scores) + window - now < 0 then 0
    else Oldest(scores) + window - now
  }

  // The admission script as one atomic step on the stored value.
  //
  // The expiry is armed between pruning and recording, so it reaches only a key that
  // pruning left in existence.
  ghost function Admit(s: SlidingSet, time: int, now: int, window: int, max: int, member: Member): (SlidingSet, Reply)
  {
    var kept := Prune(Live(s, time).scores, now - window);
    var deadline := if kept == map[] then None else Some(time + window);
    if |kept| >= max then
      (SlidingSet(kept, deadline), Reply(|kept|, false, Wait(kept, window, now)))
    else
      (SlidingSet(kept[member := now], deadline), Reply(|kept| + 1, true, 0))
  }

  // The refund script: remove the one named member. Removing the last member removes
  // the key and its deadline with it.
  function Refund(s: SlidingSet, time: int, member: Member): SlidingSet {
    var live := Live(s, time);
    var left := live.scores - {member};
    if left == map[] then MISSING else SlidingSet(left, live.deadline)
  }

  // ----- the server's sorted set, command by command -----

  class SortedSetKey {
    var scores: map<Member, int>
    var deadline: Option<int>

    ghost predicate Valid()
      reads this
    {
      View().Valid()
    }

    ghost function View(): SlidingSet
      reads this
    {
      SlidingSet(scores, deadline)
    }

    constructor ()
      ensures Valid() && View() == MISSING
    {
      scores, deadline := map[], None;
    }

    // The server drops an expired key before a script sees it.
    method Touch(time: int)
      requires Valid()
      modifies this
      ensures Valid() && View() == Live(old(View()), time)
    {
      if deadline.Some? && time > deadline.value {
        scores, deadline := map[], None;
      }
    }

    predicate Exists()
      reads this
    {
      scores != map[]
    }

    function ZCard(): nat
      reads this
    {
      |scores|
    }

    method ZRemRangeByScore(cutoff: int)
      requires Valid()
      modifies this
      ensures Valid()
      ensures scores == Prune(old(scores), cutoff)
      ensures deadline == if scores == map[] then None else old(deadline)
    {
      scores := map m | m in scores && scores[m] > cutoff :: scores[m];
      if scores == map[] { deadline := None; }
    }

    // Arming a deadline on a missing key does nothing.
    method PExpire(time: int, ttl: int)
      requires Valid()
      modifies this`deadline
      ensures Valid()
      ensures deadline == if scores == map[] then None else Some(time + ttl)
    {
      if scores != map[] { deadline := Some(time + ttl); }
    }

    // The first entry's score, or nothing when there is no entry.
    method ZRangeFirst() returns (oldest: Option<int>)
      ensures oldest.None? <==> scores == map[]
      ensures oldest.Some? ==> IsOldest(scores, oldest.value)
    {
      oldest := None;
      var rest := scores.Keys;
      while rest != {}
        invariant rest <= scores.Keys
        invariant oldest.None? <==> rest == scores.Keys
        invariant oldest.Some? ==> exists m :: m in scores.Keys - rest && scores[m] == oldest.value
        invariant oldest.Some? ==> forall m :: m in scores.Keys - rest ==> oldest.value <= scores[m]
        decreases rest
      {
        var m :| m in rest;
        if oldest.None? || scores[m] < oldest.value {
          oldest := Some(scores[m]);
        }
        rest := rest - {m};
        assert m in scores.Keys - rest;
      }
    }

    method ZAdd(score: int, member: Member)
      requires Valid()
      modifies this`scores
      ensures Valid() && scores == old(scores)[member := score]
    {
      scores := scores[member := score];
    }

    method ZRem(member: Member) returns (removed: int)
      requires Valid()
      modifies this
      ensures Valid()
      ensures removed == if member in old(scores) then 1 else 0
      ensures scores == old(scores) - {member}
      ensures deadline == if scores == map[] then None else old(deadline)
    {
      removed := if member in scores then 1 else 0;
      scores := scores - {member};
      if scores == map[] { deadline := None; }
    }
  }

  // ----- the two scripts -----

  method AdmitToSlidingWindow(key: SortedSetKey, time: int, now: int, window: int, max: int, member: Member)
    returns (reply: Reply)
    requires key.Valid()
    modifies key
    ensures key.Valid()
    ensures (key.View(), reply) == Admit(old(key.View()), time, now, window, max, member)
  {
    key.Touch(time);
    key.ZRemRangeByScore(now - window);
    var count := key.ZCard();
    key.PExpire(time, window);

    if count >= max {
      var oldest := key.ZRangeFirst();
      var retry := 0;
      if oldest.Some? {
        retry := oldest.value + window - now;
        if retry < 0 {
          retry := 0;
        }
        OldestIsUnique(key.scores, oldest.value, Oldest(key.scores));
      }
      return Reply(count, false, retry);
    }

    key.ZAdd(now, member);
    return Reply(count + 1, true, 0);
  }

  lemma OldestIsUnique(scores: map<Member, int>, x: int, y: int)
    requires IsOldest(scores, x) && IsOldest(scores, y)
    ensures x == y
  {
  }

  method RefundSlidingWindow(key: SortedSetKey, time: int, member: Member) returns (removed: int)
    requires key.Valid()
    modifies key
    ensures key.Valid()
    ensures key.View() == Refund(old(key.View()), time, member)
    ensures removed == if member in Live(old(key.View()), time).scores then 1 else 0
  {
    key.Touch(time);
    if !key.Exists() {
      return 0;
    }
    removed := key.ZRem(member);
  }

  // ----- the limiter -----

  datatype SlidingPolicy = SlidingPolicy(max: int, windowNanos: int)
  {
    predicate Enforceable() {
      max > 0 && windowNanos >= NANOS_PER_SECOND
    }

    // The window in whole milliseconds, as the script receives it.
    function Millis(): int {
      windowNanos / NANOS_PER_MILLI
    }
  }

  // RetryAfter is in whole seconds, as the duration the limiter reports always is.
  datatype SlidingResult = SlidingResult(count: int, allowed: bool, retryAfterSeconds: int, admission: Member)

  // One limiter call on the key that the namespace and subject select. `reachable`
  // says whether the server answered; a call that got no answer is taken not to have
  // run the script.
  method Allow(key: SortedSetKey, policy: SlidingPolicy, time: int, now: int, member: Member, reachable: bool)
    returns (result: Result<SlidingResult, LimiterError>)
    requires key.Valid()
    modifies key
    ensures key.Valid()
    ensures !policy.Enforceable() ==> result == Err(InvalidPolicy) && key.View() == old(key.View())
    ensures policy.Enforceable() && !reachable ==> result == Err(Unreachable) && key.View() == old(key.View())
    ensures policy.Enforceable() && reachable ==>
              var (after, reply) := Admit(old(key.View()), time, now, policy.Millis(), policy.max, member);
              && key.View() == after
              && result == Ok(SlidingResult(reply.count, reply.admitted, RetryAfterSeconds(reply.retry),
                                            if reply.admitted then member else ""))
  {
    if !policy.Enforceable() {
      return Err(InvalidPolicy);
    }
    if !reachable {
      return Err(Unreachable);
    }
    var reply := AdmitToSlidingWindow(key, time, now, policy.Millis(), policy.max, member);
    result := Ok(SlidingResult(reply.count, reply.admitted, RetryAfterSeconds(reply.retry),
                               if reply.admitted then member else ""));
  }

  method Release(key: SortedSetKey, time: int, admission: Member, reachable: bool)
    returns (result: Result<(), LimiterError>)
    requires key.Valid()
    modifies key
    ensures key.Valid()
    ensures result == if admission == "" || reachable then Ok(()) else Err(Unreachable)
    ensures key.View() == if admission == "" || !reachable then old(key.View())
                          else Refund(old(key.View()), time, admission)
  {
    if admission == "" {
      return Ok(());
    }
    if !reachable {
      return Err(Unreachable);
    }
    var _ := RefundSlidingWindow(key, time, admission);
    return Ok(());
  }
}
