/**
  What a policy promises to the callers of the limiters, in the policy's own unit: which calls
  are allowed, by counting the calls that were allowed before them.
*/
module PolicyRuns {
  import opened Options
  import opened SetFacts
  import opened Limits
  import opened SlidingWindow
  import opened SlidingRuns
  import Fixed = FixedWindow
  import FixedRun = FixedRuns

  // ----- the rolling window -----

  // The window that reaches the script is the policy's, short of less than a millisecond.
  lemma WindowInMillis(policy: SlidingPolicy)
    requires policy.Enforceable()
    ensures 1_000_000 * policy.Millis() <= policy.windowNanos < 1_000_000 * policy.Millis() + 1_000_000
    ensures policy.Millis() >= 1000
  {
  }

  // The policies that can be enforced: a budget of at least one over at least one second.
  lemma EnforceableSliding(policy: SlidingPolicy)
    ensures policy.Enforceable() <==> policy.max >= 1 && policy.windowNanos >= 1_000_000_000
  {
  }

  // Step i was admitted, has not been given back before step j, and was less than `window`
  // milliseconds before the time `t`.
  ghost predicate CountsAt(steps: seq<Step>, p: Params, i: int, j: nat, t: int, window: int)
    requires j <= |steps|
  {
    0 <= i < j && Admitted(steps, p, i) && Kept(steps, i, j) && t - steps[i].time < window
  }

  // The admissions that count against step j.
  ghost function Counting(steps: seq<Step>, p: Params, j: nat, window: int): set<int>
    requires j < |steps|
  {
    set i | 0 <= i < j && CountsAt(steps, p, i, j, steps[j].time, window)
  }

  ghost predicate CountsAs(steps: seq<Step>, p: Params, i: int, t: int, member: Member) {
    CountsAt(steps, p, i, |steps|, t, p.window) && steps[i].member == member
  }

  lemma PrefixCounts(steps: seq<Step>, p: Params, i: int, j: nat, t: int)
    requires j <= |steps|
    ensures CountsAt(steps, p, i, j, t, p.window) <==> CountsAt(steps[..j], p, i, j, t, p.window)
  {
    if 0 <= i < j {
      AdmittedInPrefix(steps[..j], steps, p, i);
    }
  }

  lemma PrefixRun(steps: seq<Step>, j: nat)
    requires Run(steps, 0) && j <= |steps|
    ensures Run(steps[..j], 0)
  {
  }

  // What the last step does to the members that count at `t`.
  ghost function CountedAfter(counted: bool, step: Step, admitted: bool, p: Params, t: int, member: Member): bool {
    match step
    case Attempt(time, _, m) => if m == member && admitted then t - time < p.window else counted
    case GiveBack(_, m) => counted && m != member
    case Idle(_) => counted
  }

  lemma StoredStep(steps: seq<Step>, p: Params, t: int, member: Member)
    requires steps != [] && p.window > 0 && Run(steps, 0) && steps[|steps| - 1].time <= t
    ensures var n := |steps| - 1;
            member in Prune(AfterForever(steps, p).scores, t - p.window)
            <==> CountedAfter(member in Prune(AfterForever(steps[..n], p).scores, t - p.window), steps[n],
                              Admitted(steps, p, n), p, t, member)
  {
    var n := |steps| - 1;
    var f := AfterForever(steps[..n], p);
    if steps[n].Attempt? {
      ExpiryIsGarbageCollection(steps, p, n);
      PruneTwice(f.scores, steps[n].time - p.window, t - p.window);
    }
  }

  lemma CountsStep(steps: seq<Step>, p: Params, t: int, member: Member)
    requires steps != [] && Run(steps, 0)
    ensures var n := |steps| - 1;
            (exists i :: CountsAs(steps, p, i, t, member))
            <==> CountedAfter(exists i :: CountsAs(steps[..n], p, i, t, member), steps[n],
                              Admitted(steps, p, n), p, t, member)
  {
    var n := |steps| - 1;
    forall i | 0 <= i < n
      ensures CountsAs(steps, p, i, t, member)
          <==> CountsAs(steps[..n], p, i, t, member) && !(steps[n].GiveBack? && steps[n].member == member)
    {
      AdmittedInPrefix(steps[..n], steps, p, i);
    }
    if i :| CountsAs(steps[..n], p, i, t, member) {
      assert CountsAs(steps, p, i, t, member) <==> !(steps[n].GiveBack? && steps[n].member == member);
    }
    if i :| CountsAs(steps, p, i, t, member) {
      assert i < n ==> CountsAs(steps[..n], p, i, t, member);
    }
    if steps[n].Attempt? && steps[n].member == member && Admitted(steps, p, n) {
      assert CountsAs(steps, p, n, t, member) <==> t - steps[n].time < p.window;
      forall i ensures CountsAs(steps[..n], p, i, t, member) ==> false {
      }
    }
  }

  // With one clock, what the server can still count at `t` are the members of the admissions
  // that count then.
  lemma {:induction false} StoredAreCounting(steps: seq<Step>, p: Params, t: int, member: Member)
    requires p.window > 0 && Run(steps, 0) && forall i :: 0 <= i < |steps| ==> steps[i].time <= t
    ensures member in Prune(AfterForever(steps, p).scores, t - p.window)
        <==> exists i :: CountsAs(steps, p, i, t, member)
    decreases |steps|
  {
    if steps == [] {
    } else {
      var n := |steps| - 1;
      PrefixRun(steps, n);
      StoredAreCounting(steps[..n], p, t, member);
      StoredStep(steps, p, t, member);
      CountsStep(steps, p, t, member);
    }
  }

  lemma CountedMembers(steps: seq<Step>, p: Params, j: nat)
    requires p.window > 0 && Run(steps, 0) && j < |steps|
    ensures |Prune(AfterForever(steps[..j], p).scores, steps[j].time - p.window)| == |Counting(steps, p, j, p.window)|
  {
    var kept := Prune(AfterForever(steps[..j], p).scores, steps[j].time - p.window);
    var ids := Counting(steps, p, j, p.window);
    var name := map i | i in ids :: steps[i].member;
    PrefixRun(steps, j);
    forall m ensures m in kept <==> exists i :: i in ids && name[i] == m {
      StoredAreCounting(steps[..j], p, steps[j].time, m);
      if i :| CountsAs(steps[..j], p, i, steps[j].time, m) {
        PrefixCounts(steps, p, i, j, steps[j].time);
        assert i in ids && name[i] == m;
      }
      if i :| i in ids && name[i] == m {
        PrefixCounts(steps, p, i, j, steps[j].time);
        assert CountsAs(steps[..j], p, i, steps[j].time, m);
      }
    }
    ImageSize(ids, name, kept.Keys);
    assert |kept| == |kept.Keys|;
  }

  // With one clock, a call is admitted if and only if fewer than the maximum were admitted, and
  // not given back, less than a window before it; and it is told how many there are with it.
  lemma AdmittedByCounting(steps: seq<Step>, p: Params, j: nat)
    requires p.window > 0 && Run(steps, 0) && j < |steps| && steps[j].Attempt?
    ensures var before := |Counting(steps, p, j, p.window)|;
            && (Admitted(steps, p, j) <==> before < p.max)
            && ReplyAt(steps, p, j).count == before + if before < p.max then 1 else 0
  {
    ExpiryIsGarbageCollection(steps, p, j);
    CountedMembers(steps, p, j);
  }

  // The same by the policy: what counts is whatever was admitted less than its window before,
  // in nanoseconds, but for the fraction of a millisecond that the script does not see.
  lemma AdmittedByPolicy(policy: SlidingPolicy, steps: seq<Step>, j: nat)
    requires policy.max >= 1 && policy.windowNanos >= 1_000_000_000
    requires Run(steps, 0) && j < |steps| && steps[j].Attempt?
    ensures var p := Params(policy.Millis(), policy.max);
            var inWindow := set i | 0 <= i < j && Admitted(steps, p, i) && Kept(steps, i, j)
                                    && 1_000_000 * (steps[j].time - steps[i].time + 1) <= policy.windowNanos;
            Admitted(steps, p, j) <==> |inWindow| < policy.max
  {
    var p := Params(policy.Millis(), policy.max);
    WindowInMillis(policy);
    AdmittedByCounting(steps, p, j);
    assert Counting(steps, p, j, p.window)
        == set i | 0 <= i < j && Admitted(steps, p, i) && Kept(steps, i, j)
                   && 1_000_000 * (steps[j].time - steps[i].time + 1) <= policy.windowNanos;
  }

  // And the promise for any stretch, in nanoseconds.
  lemma StretchByPolicy(policy: SlidingPolicy, steps: seq<Step>, from: int, length: int)
    requires policy.max >= 1 && policy.windowNanos >= 1_000_000_000
    requires Run(steps, 0) && 1_000_000 * length <= policy.windowNanos
    ensures |Spent(steps, Params(policy.Millis(), policy.max), from, length)| <= policy.max
  {
    WindowInMillis(policy);
    RollingBound(steps, Params(policy.Millis(), policy.max), 0, from, length);
  }

  // ----- the fixed window -----

  // The window that reaches the script is the policy's, short of less than a second.
  lemma WindowInSeconds(policy: Fixed.Policy)
    requires policy.Enforceable()
    ensures 1_000_000_000 * policy.Seconds() <= policy.windowNanos < 1_000_000_000 * policy.Seconds() + 1_000_000_000
    ensures policy.Seconds() >= 1
  {
  }

  lemma EnforceableFixed(policy: Fixed.Policy)
    ensures policy.Enforceable() <==> policy.max >= 1 && policy.windowNanos >= 1_000_000_000
  {
  }

  // Without releases, the calls of one window are counted from the rise that opened it.
  lemma {:induction false} CountedFromRise(
      init: Fixed.Counter, steps: seq<FixedRun.Step>, p: FixedRun.Params, r: nat, j: nat)
    requires p.Enforceable() && FixedRun.CallsOnly(steps) && FixedRun.InOrder(steps)
    requires r <= j < |steps| && FixedRun.RiseAt(init, steps, p, r)
    requires steps[j].time <= steps[r].time + p.Window()
    ensures FixedRun.CountAt(init, steps, p, j) == j - r + 1
    decreases j
  {
    if j == r {
    } else {
      assert steps[j - 1].time <= steps[j].time;
      CountedFromRise(init, steps, p, r, j - 1);
      FixedRun.WindowStands(init, steps, p, r, j);
      FixedRun.PrefixStep(init, steps, p, j - 1);
    }
  }

  // By the policy: the first `max` calls of a window are allowed and the later ones refused for
  // as long as the window lasts, which is the policy's in nanoseconds but for the fraction of a
  // second that the script does not see.
  lemma AllowedByPolicy(policy: Fixed.Policy, init: Fixed.Counter, steps: seq<FixedRun.Step>, r: nat, j: nat)
    requires policy.max >= 1 && policy.windowNanos >= 1_000_000_000
    requires FixedRun.CallsOnly(steps) && FixedRun.InOrder(steps) && r <= j < |steps|
    requires var p := FixedRun.Params(policy.Seconds(), policy.max);
             FixedRun.RiseAt(init, steps, p, r)
    requires 1_000_000 * (steps[j].time - steps[r].time) + 1_000_000_000 <= policy.windowNanos
    ensures var p := FixedRun.Params(policy.Seconds(), policy.max);
            FixedRun.AllowedAt(init, steps, p, j) <==> j - r < policy.max
  {
    var p := FixedRun.Params(policy.Seconds(), policy.max);
    WindowInSeconds(policy);
    CountedFromRise(init, steps, p, r, j);
  }

  // Once the window is over, a new one has opened.
  lemma {:induction false} RiseComes(
      init: Fixed.Counter, steps: seq<FixedRun.Step>, p: FixedRun.Params, r: nat, j: nat) returns (k: nat)
    requires p.Enforceable() && FixedRun.CallsOnly(steps) && FixedRun.InOrder(steps)
    requires r < j < |steps| && FixedRun.RiseAt(init, steps, p, r)
    requires steps[j].time > steps[r].time + p.Window()
    ensures r < k <= j && FixedRun.RiseAt(init, steps, p, k)
    decreases j
  {
    if steps[j - 1].time <= steps[r].time + p.Window() {
      FixedRun.WindowStands(init, steps, p, r, j);
      k := j;
    } else {
      k := RiseComes(init, steps, p, r, j - 1);
    }
  }

  // By the policy: a call later than its window after the rise finds that another has opened.
  lemma ReopenedByPolicy(policy: Fixed.Policy, init: Fixed.Counter, steps: seq<FixedRun.Step>, r: nat, j: nat)
    requires policy.max >= 1 && policy.windowNanos >= 1_000_000_000
    requires FixedRun.CallsOnly(steps) && FixedRun.InOrder(steps) && r < j < |steps|
    requires var p := FixedRun.Params(policy.Seconds(), policy.max);
             FixedRun.RiseAt(init, steps, p, r)
    requires 1_000_000 * (steps[j].time - steps[r].time) > policy.windowNanos
    ensures var p := FixedRun.Params(policy.Seconds(), policy.max);
            exists k :: r < k <= j && FixedRun.RiseAt(init, steps, p, k)
  {
    WindowInSeconds(policy);
    var k := RiseComes(init, steps, FixedRun.Params(policy.Seconds(), policy.max), r, j);
  }

  // The remaining life is never negative in a refusal.
  lemma RefusalRemains(init: Fixed.Counter, steps: seq<FixedRun.Step>, p: FixedRun.Params, k: nat)
    requires p.Enforceable() && k < |steps| && steps[k].Call? && FixedRun.CountAt(init, steps, p, k) > p.max
    ensures FixedRun.Remaining(init, steps, p, k) >= 0
  {
  }

  // A refusal tells its client to wait a number of whole seconds, so as not to be refused again.
  // A client that calls again after exactly that is refused again if and only if the window had
  // a whole number of seconds to go, since it lasts through its last millisecond.
  lemma WaitAsReported(
      init: Fixed.Counter, steps: seq<FixedRun.Step>, p: FixedRun.Params, k: nat, j: nat, seconds: int)
    requires p.Enforceable() && FixedRun.InOrder(steps)
    requires k < j < |steps| && steps[k].Call? && FixedRun.CountAt(init, steps, p, k) > p.max
    requires forall i :: k < i <= j ==> steps[i].Call?
    requires forall i :: k < i < j ==> steps[i].time <= steps[k].time + FixedRun.Remaining(init, steps, p, k)
    requires seconds == RetryAfterSeconds(FixedRun.Remaining(init, steps, p, k))
    requires steps[j].time == steps[k].time + 1000 * seconds
    ensures FixedRun.AllowedAt(init, steps, p, j) <==> FixedRun.Remaining(init, steps, p, k) % 1000 != 0
    ensures 0 <= 1000 * seconds - FixedRun.Remaining(init, steps, p, k) < 1000
  {
    RefusalRemains(init, steps, p, k);
    FixedRun.RefusedUntilReset(init, steps, p, k, j);
  }
}
