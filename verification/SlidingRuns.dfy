/**
  Whole runs against one rolling-window key under one fixed policy.

  A run starts from a key that was never written. Each step carries the server's time;
  an admission attempt also carries the caller's own reading of the clock.
*/
module SlidingRuns {
  import opened Options
  import opened SetFacts
  import opened Limits
  import opened SlidingWindow

  datatype Params = Params(window: int, max: int)

  datatype Step =
    | Attempt(time: int, now: int, member: Member)
    | GiveBack(time: int, member: Member)
    | Idle(time: int)

  ghost function Apply(s: SlidingSet, step: Step, p: Params): SlidingSet {
    match step
    case Attempt(time, now, member) => Admit(s, time, now, p.window, p.max, member).0
    case GiveBack(time, member) => Refund(s, time, member)
    case Idle(_) => s
  }

  // The stored value after every step of the run.
  ghost function After(steps: seq<Step>, p: Params): SlidingSet {
    if steps == [] then MISSING
    else Apply(After(steps[..|steps| - 1], p), steps[|steps| - 1], p)
  }

  ghost function ReplyAt(steps: seq<Step>, p: Params, i: nat): Reply
    requires i < |steps| && steps[i].Attempt?
  {
    Admit(After(steps[..i], p), steps[i].time, steps[i].now, p.window, p.max, steps[i].member).1
  }

  ghost predicate Admitted(steps: seq<Step>, p: Params, i: nat)
    requires i < |steps|
  {
    steps[i].Attempt? && ReplyAt(steps, p, i).admitted
  }

  // No later step gives the admission of step i back.
  ghost predicate Kept(steps: seq<Step>, i: nat, j: nat)
    requires i < |steps| && steps[i].Attempt? && j <= |steps|
  {
    forall k :: i < k < j && steps[k].GiveBack? ==> steps[k].member != steps[i].member
  }

  ghost predicate InOrder(steps: seq<Step>) {
    forall i, j :: 0 <= i < j < |steps| ==> steps[i].time <= steps[j].time
  }

  // Every admission attempt names a member of its own.
  ghost predicate FreshMembers(steps: seq<Step>) {
    forall i, j :: 0 <= i < j < |steps| && steps[i].Attempt? && steps[j].Attempt? ==> steps[i].member != steps[j].member
  }

  // Every caller's clock is within skew of the server's time.
  ghost predicate Synchronised(steps: seq<Step>, skew: int) {
    forall i :: 0 <= i < |steps| && steps[i].Attempt? ==> -skew <= steps[i].now - steps[i].time <= skew
  }

  ghost predicate Run(steps: seq<Step>, skew: int) {
    InOrder(steps) && FreshMembers(steps) && Synchronised(steps, skew)
  }

  // The never-refunded admissions whose script ran in the half-open stretch [from, from + length).
  ghost function Spent(steps: seq<Step>, p: Params, from: int, length: int): set<int> {
    set i | 0 <= i < |steps| && Admitted(steps, p, i) && Kept(steps, i, |steps|)
            && from <= steps[i].time < from + length
  }

  // ----- prefixes -----

  lemma PrefixStep(steps: seq<Step>, p: Params, j: nat)
    requires j < |steps|
    ensures After(steps[..j + 1], p) == Apply(After(steps[..j], p), steps[j], p)
  {
    assert steps[..j + 1][..j] == steps[..j];
  }

  lemma LastStep(before: seq<Step>, step: Step, p: Params)
    ensures After(before + [step], p) == Apply(After(before, p), step, p)
  {
    assert (before + [step])[..|before|] == before;
  }

  // ----- the size of the set -----

  lemma PruneShrinks(scores: map<Member, int>, cutoff: int)
    ensures |Prune(scores, cutoff)| <= |scores|
  {
    var kept := Prune(scores, cutoff);
    assert kept.Keys <= scores.Keys;
    SubsetSize(kept.Keys, scores.Keys);
    assert |kept| == |kept.Keys| && |scores| == |scores.Keys|;
  }

  // However many calls are refused, a key never holds more than the maximum, and it
  // carries a deadline only while it holds something.
  lemma {:induction false} NeverOverfull(steps: seq<Step>, p: Params)
    requires p.max > 0
    ensures |After(steps, p).scores| <= p.max
    ensures After(steps, p).Valid()
    decreases |steps|
  {
    if steps == [] {
    } else {
      var n := |steps| - 1;
      var s := After(steps[..n], p);
      NeverOverfull(steps[..n], p);
      match steps[n]
      case Attempt(time, now, member) =>
        PruneShrinks(Live(s, time).scores, now - p.window);
      case GiveBack(time, member) =>
        var live := Live(s, time);
        SubsetSize((live.scores - {member}).Keys, live.scores.Keys);
      case Idle(_) =>
    }
  }

  // ----- an admission stays in the set -----

  // One step leaves an entry alone when it neither names it, nor prunes up to its score,
  // nor comes after the key's deadline.
  predicate Spares(step: Step, p: Params, member: Member, score: int, bound: int) {
    && step.time <= bound <= step.time + p.window
    && (!step.Idle? ==> step.member != member)
    && (step.Attempt? ==> step.now - p.window < score)
  }

  // The set holds the member with this score, and its deadline is not before `bound`.
  ghost predicate Recorded(s: SlidingSet, member: Member, score: int, bound: int) {
    member in s.scores && s.scores[member] == score && (s.deadline.Some? ==> s.deadline.value >= bound)
  }

  lemma StepKeepsEntry(s: SlidingSet, step: Step, p: Params, member: Member, score: int, bound: int)
    requires Recorded(s, member, score, bound) && Spares(step, p, member, score, bound)
    ensures Recorded(Apply(s, step, p), member, score, bound)
  {
    if step.Attempt? {
      assert member in Prune(Live(s, step.time).scores, step.now - p.window);
    } else if step.GiveBack? {
      assert member in Live(s, step.time).scores - {step.member};
    }
  }

  lemma RecordedAtOnce(steps: seq<Step>, p: Params, i: nat)
    requires i < |steps| && Admitted(steps, p, i)
    ensures Recorded(After(steps[..i + 1], p), steps[i].member, steps[i].now, steps[i].time + p.window)
  {
    PrefixStep(steps, p, i);
  }

  lemma {:induction false} SparedStaysRecorded(
      steps: seq<Step>, p: Params, i: nat, j: nat, member: Member, score: int, bound: int)
    requires i < j <= |steps| && Recorded(After(steps[..i + 1], p), member, score, bound)
    requires forall k :: i < k < j ==> Spares(steps[k], p, member, score, bound)
    ensures Recorded(After(steps[..j], p), member, score, bound)
    decreases j
  {
    if j == i + 1 {
    } else {
      SparedStaysRecorded(steps, p, i, j - 1, member, score, bound);
      PrefixStep(steps, p, j - 1);
      StepKeepsEntry(After(steps[..j - 1], p), steps[j - 1], p, member, score, bound);
    }
  }

  // Within the window less twice the clock error, nothing but its own refund removes an
  // admission: neither another caller's pruning nor the key's deadline reaches it.
  lemma StaysRecorded(steps: seq<Step>, p: Params, skew: int, i: nat, j: nat)
    requires Run(steps, skew) && skew >= 0
    requires i < j <= |steps| && Admitted(steps, p, i) && Kept(steps, i, j)
    requires steps[j - 1].time < steps[i].time + p.window - 2 * skew
    ensures Recorded(After(steps[..j], p), steps[i].member, steps[i].now, steps[i].time + p.window)
  {
    RecordedAtOnce(steps, p, i);
    forall k | i < k < j ensures Spares(steps[k], p, steps[i].member, steps[i].now, steps[i].time + p.window) {
      assert steps[i].time <= steps[k].time <= steps[j - 1].time;
    }
    SparedStaysRecorded(steps, p, i, j, steps[i].member, steps[i].now, steps[i].time + p.window);
  }

  // ----- counting -----

  // The rolling bound. When every caller's clock is within `skew` of the server's, no
  // stretch of the window less twice that error holds more than the maximum.
  lemma RollingBound(steps: seq<Step>, p: Params, skew: int, from: int, length: int)
    requires p.max > 0 && skew >= 0 && Run(steps, skew)
    requires length <= p.window - 2 * skew
    ensures |Spent(steps, p, from, length)| <= p.max
  {
    var ids := Spent(steps, p, from, length);
    if ids != {} {
      var k := Greatest(ids);
      HeldAtOnce(steps, p, skew, ids, k);
      NeverOverfull(steps[..k + 1], p);
    }
  }

  lemma HeldStill(steps: seq<Step>, p: Params, skew: int, i: nat, k: nat)
    requires skew >= 0 && Run(steps, skew)
    requires i <= k < |steps| && Admitted(steps, p, i) && Kept(steps, i, |steps|)
    requires steps[k].time < steps[i].time + p.window - 2 * skew
    ensures steps[i].member in After(steps[..k + 1], p).scores
  {
    StaysRecorded(steps, p, skew, i, k + 1);
  }

  // Admissions that all ran within the safe stretch are in the set together at the last of them.
  lemma HeldAtOnce(steps: seq<Step>, p: Params, skew: int, ids: set<int>, k: nat)
    requires skew >= 0 && Run(steps, skew)
    requires k < |steps|
    requires forall i :: i in ids ==>
      0 <= i <= k && Admitted(steps, p, i) && Kept(steps, i, |steps|)
      && steps[k].time < steps[i].time + p.window - 2 * skew
    ensures |ids| <= |After(steps[..k + 1], p).scores|
  {
    var name := map i | i in ids :: steps[i].member;
    var held := After(steps[..k + 1], p).scores;
    forall i | i in ids ensures name[i] in held.Keys {
      HeldStill(steps, p, skew, i, k);
    }
    DistinctImages(ids, name, held.Keys);
    assert |held| == |held.Keys|;
  }

  // ----- the bound is the best possible -----

  // A member name of length n + 1.
  function Name(n: nat): Member {
    seq(n + 1, _ => 'a')
  }

  // `n` attempts at server time 0 by callers whose clocks are `skew` slow.
  function Burst(n: nat, skew: int): (steps: seq<Step>)
    ensures |steps| == n
    ensures forall i :: 0 <= i < n ==> steps[i] == Attempt(0, -skew, Name(i))
  {
    seq(n, i requires 0 <= i < n => Attempt(0, -skew, Name(i)))
  }

  // What a run admits depends only on the steps before it.
  lemma AdmittedInPrefix(a: seq<Step>, steps: seq<Step>, p: Params, i: nat)
    requires i < |a| && a <= steps
    ensures Admitted(a, p, i) == Admitted(steps, p, i)
  {
    assert a[..i] == steps[..i];
  }

  ghost predicate Filled(s: SlidingSet, n: nat, score: int, deadline: int) {
    && |s.scores| == n
    && (forall m :: m in s.scores ==> |m| <= n && s.scores[m] == score)
    && (s.deadline.Some? ==> s.deadline.value == deadline)
  }

  lemma OneMore(s: SlidingSet, n: nat, p: Params, skew: int)
    requires p.window > 0 && n < p.max && Filled(s, n, -skew, p.window)
    ensures var (after, reply) := Admit(s, 0, -skew, p.window, p.max, Name(n));
            reply.admitted && Filled(after, n + 1, -skew, p.window)
  {
    assert Prune(s.scores, -skew - p.window) == s.scores;
    assert |Name(n)| == n + 1;
  }

  lemma {:induction false} BurstFills(n: nat, p: Params, skew: int)
    requires p.window > 0 && n <= p.max
    ensures Filled(After(Burst(n, skew), p), n, -skew, p.window)
    decreases n
  {
    if n <= 0 {
    } else {
      BurstFills(n - 1, p, skew);
      OneMore(After(Burst(n - 1, skew), p), n - 1, p, skew);
      BurstStep(n, p, skew);
    }
  }

  lemma BurstStep(n: nat, p: Params, skew: int)
    requires n > 0
    ensures After(Burst(n, skew), p) == Admit(After(Burst(n - 1, skew), p), 0, -skew, p.window, p.max, Name(n - 1)).0
  {
    LastStep(Burst(n - 1, skew), Attempt(0, -skew, Name(n - 1)), p);
    assert Burst(n, skew) == Burst(n - 1, skew) + [Attempt(0, -skew, Name(n - 1))];
  }

  lemma BurstAdmits(n: nat, p: Params, skew: int, i: nat)
    requires p.window > 0 && i < n <= p.max
    ensures Admitted(Burst(n, skew), p, i)
  {
    BurstPrefix(n, skew, i);
    BurstFills(i, p, skew);
    OneMore(After(Burst(i, skew), p), i, p, skew);
    AdmittedAfter(Burst(n, skew), p, i, Burst(i, skew));
  }

  // What a step replies depends only on the run before it.
  lemma AdmittedAfter(steps: seq<Step>, p: Params, i: nat, before: seq<Step>)
    requires i < |steps| && steps[i].Attempt? && steps[..i] == before
    ensures Admitted(steps, p, i)
        <==> Admit(After(before, p), steps[i].time, steps[i].now, p.window, p.max, steps[i].member).1.admitted
  {
  }

  lemma BurstPrefix(n: nat, skew: int, i: nat)
    requires i <= n
    ensures Burst(n, skew)[..i] == Burst(i, skew)
  {
  }

  // A full burst by slow clocks, then one caller whose fast clock prunes all of it.
  function Overrun(p: Params, skew: int): seq<Step>
    requires p.max >= 0
  {
    var late := if p.window - 2 * skew > 0 then p.window - 2 * skew else 0;
    Burst(p.max, skew) + [Attempt(late, late + skew, Name(p.max))]
  }

  lemma OverrunAdmitsAll(p: Params, skew: int)
    requires p.max > 0 && p.window > 0 && skew >= 0
    ensures forall i :: 0 <= i <= p.max ==> Admitted(Overrun(p, skew), p, i)
  {
    var steps, n := Overrun(p, skew), p.max;
    BurstFills(n, p, skew);
    forall i | 0 <= i <= n ensures Admitted(steps, p, i) {
      if i < n {
        BurstAdmits(n, p, skew, i);
        AdmittedInPrefix(Burst(n, skew), steps, p, i);
      } else {
        assert steps[..n] == Burst(n, skew);
        var last := steps[n];
        assert Prune(Live(After(steps[..n], p), last.time).scores, last.now - p.window) == map[];
      }
    }
  }

  lemma OverrunIsRun(p: Params, skew: int)
    requires p.max > 0 && skew >= 0
    ensures Run(Overrun(p, skew), skew)
  {
    var steps := Overrun(p, skew);
    assert forall i :: 0 <= i <= p.max ==> steps[i].Attempt? && |steps[i].member| == i + 1;
  }

  lemma OverrunBreaks(p: Params, skew: int, length: int)
    requires p.max > 0 && p.window > 0 && skew >= 0
    requires length > p.window - 2 * skew && length > 0
    ensures |Spent(Overrun(p, skew), p, 0, length)| > p.max
  {
    OverrunIsRun(p, skew);
    OverrunAdmitsAll(p, skew);
    SubsetSize(Upto(p.max + 1), Spent(Overrun(p, skew), p, 0, length));
  }

  // A stretch of `length` is safe for every run exactly when it is no longer than the
  // window less twice the clock error (or is empty). The promise about any stretch of
  // one whole window therefore holds exactly when clocks do not disagree at all.
  lemma SafeStretches(p: Params, skew: int, length: int)
    requires p.max > 0 && p.window > 0 && skew >= 0
    ensures (forall steps, from :: Run(steps, skew) ==> |Spent(steps, p, from, length)| <= p.max)
            <==> (length <= p.window - 2 * skew || length <= 0)
  {
    if length <= p.window - 2 * skew {
      forall steps, from | Run(steps, skew) ensures |Spent(steps, p, from, length)| <= p.max {
        RollingBound(steps, p, skew, from, length);
      }
    } else if length <= 0 {
      forall steps, from | Run(steps, skew) ensures |Spent(steps, p, from, length)| <= p.max {
        assert Spent(steps, p, from, length) == {};
      }
    } else {
      OverrunIsRun(p, skew);
      OverrunBreaks(p, skew, length);
    }
  }

  // ----- the wait a refusal reports -----

  // No entry is newer than `time`, and an armed deadline lies at least one window after
  // every entry.
  ghost predicate Past(s: SlidingSet, time: int, p: Params) {
    forall m :: m in s.scores ==>
      s.scores[m] <= time && (s.deadline.Some? ==> s.scores[m] + p.window <= s.deadline.value)
  }

  lemma {:induction false} EntriesArePast(steps: seq<Step>, p: Params, time: int)
    requires Run(steps, 0)
    requires forall i :: 0 <= i < |steps| ==> steps[i].time <= time
    ensures Past(After(steps, p), time, p)
    decreases |steps|
  {
    if steps == [] {
    } else {
      var n := |steps| - 1;
      EntriesArePast(steps[..n], p, steps[n].time);
      StepKeepsPast(After(steps[..n], p), steps[n], p);
    }
  }

  lemma StepKeepsPast(s: SlidingSet, step: Step, p: Params)
    requires Past(s, step.time, p)
    requires step.Attempt? ==> step.now == step.time
    ensures Past(Apply(s, step, p), step.time, p)
  {
  }

  lemma RefusalLeavesThePruned(s: SlidingSet, step: Step, p: Params)
    requires p.max > 0 && step.Attempt?
    requires !Admit(s, step.time, step.now, p.window, p.max, step.member).1.admitted
    ensures var after, reply := Apply(s, step, p), Admit(s, step.time, step.now, p.window, p.max, step.member).1;
            && after.scores == Prune(Live(s, step.time).scores, step.now - p.window)
            && |after.scores| >= p.max && after.scores != map[]
            && after.deadline == Some(step.time + p.window)
            && reply.retry == Wait(after.scores, p.window, step.now)
  {
  }

  // What a refusal leaves behind: a full set whose oldest entry explains the wait.
  lemma RefusalState(steps: seq<Step>, p: Params, k: nat)
    requires p.max > 0 && p.window > 0 && Run(steps, 0)
    requires k < |steps| && steps[k].Attempt? && !ReplyAt(steps, p, k).admitted
    ensures var s := After(steps[..k + 1], p);
            && s.scores != map[] && |s.scores| == p.max
            && ReplyAt(steps, p, k).retry == Oldest(s.scores) + p.window - steps[k].time
            && steps[k].time < Oldest(s.scores) + p.window <= steps[k].time + p.window
            && s.deadline == Some(steps[k].time + p.window)
  {
    PrefixStep(steps, p, k);
    NeverOverfull(steps[..k + 1], p);
    RefusalLeavesThePruned(After(steps[..k], p), steps[k], p);
    EntriesArePast(steps[..k + 1], p, steps[k].time);
    var s := After(steps[..k + 1], p);
    OldestExists(s.scores);
    var m :| m in s.scores && s.scores[m] == Oldest(s.scores);
  }

  lemma WaitIsPositive(steps: seq<Step>, p: Params, k: nat)
    requires p.max > 0 && p.window > 0 && Run(steps, 0)
    requires k < |steps| && steps[k].Attempt? && !ReplyAt(steps, p, k).admitted
    ensures 0 < ReplyAt(steps, p, k).retry <= p.window
  {
    RefusalState(steps, p, k);
  }

  // A set that is full, none of whose entries a call at `time` prunes, and whose deadline
  // has not passed.
  ghost predicate FullAt(s: SlidingSet, time: int, p: Params) {
    && |s.scores| >= p.max
    && s.deadline.Some? && time <= s.deadline.value
    && forall m :: m in s.scores ==> s.scores[m] > time - p.window
  }

  lemma FullRefuses(s: SlidingSet, step: Step, p: Params)
    requires p.max > 0 && step.Attempt? && step.now == step.time && FullAt(s, step.time, p)
    ensures !Admit(s, step.time, step.now, p.window, p.max, step.member).1.admitted
    ensures var s' := Apply(s, step, p); s'.scores == s.scores && s'.deadline == Some(step.time + p.window)
  {
    assert Prune(s.scores, step.now - p.window) == s.scores;
  }

  // Attempts that come before `time` leave a set that is full at `time` as it is.
  lemma {:induction false} StaysFull(steps: seq<Step>, p: Params, from: nat, j: nat, time: int)
    requires p.max > 0 && Synchronised(steps, 0)
    requires from <= j <= |steps|
    requires forall i :: from <= i < j ==> !steps[i].GiveBack? && steps[i].time <= time <= steps[i].time + p.window
    requires FullAt(After(steps[..from], p), time, p)
    ensures FullAt(After(steps[..j], p), time, p)
    decreases j
  {
    if j <= from {
    } else {
      StaysFull(steps, p, from, j - 1, time);
      PrefixStep(steps, p, j - 1);
      if steps[j - 1].Attempt? {
        FullRefuses(After(steps[..j - 1], p), steps[j - 1], p);
      } else {
        assert steps[j - 1].Idle?;
      }
    }
  }

  // Every call made before the reported wait has passed is refused, unless something was
  // given back.
  lemma RefusedBeforeWait(steps: seq<Step>, p: Params, k: nat, j: nat)
    requires p.max > 0 && p.window > 0 && Run(steps, 0)
    requires k < j < |steps| && steps[k].Attempt? && !ReplyAt(steps, p, k).admitted
    requires forall i :: k < i < j ==> !steps[i].GiveBack?
    requires steps[j].Attempt? && steps[j].time < steps[k].time + ReplyAt(steps, p, k).retry
    ensures !ReplyAt(steps, p, j).admitted
  {
    RefusalState(steps, p, k);
    StaysFull(steps, p, k + 1, j, steps[j].time);
    FullRefuses(After(steps[..j], p), steps[j], p);
  }

  ghost predicate Within(b: map<Member, int>, a: map<Member, int>) {
    forall m :: m in b ==> m in a && b[m] == a[m]
  }

  lemma StepOnlyLoses(s: SlidingSet, step: Step, p: Params)
    requires step.Attempt? ==> !Admit(s, step.time, step.now, p.window, p.max, step.member).1.admitted
    ensures Within(Apply(s, step, p).scores, s.scores)
  {
  }

  // With nothing admitted in between, the set only loses entries.
  lemma {:induction false} OnlyLoses(steps: seq<Step>, p: Params, k: nat, j: nat)
    requires k < j <= |steps|
    requires forall i :: k < i < j ==> !Admitted(steps, p, i)
    ensures Within(After(steps[..j], p).scores, After(steps[..k + 1], p).scores)
    decreases j
  {
    if j <= k + 1 {
    } else {
      OnlyLoses(steps, p, k, j - 1);
      PrefixStep(steps, p, j - 1);
      assert !Admitted(steps, p, j - 1);
      StepOnlyLoses(After(steps[..j - 1], p), steps[j - 1], p);
    }
  }

  // Once the oldest entry of a full set has left the window, whatever remains of that set
  // has room.
  lemma RoomOnceOldestLeaves(full: map<Member, int>, s: SlidingSet, step: Step, p: Params)
    requires full != map[] && |full| == p.max && Within(s.scores, full)
    requires step.Attempt? && step.now >= Oldest(full) + p.window
    ensures Admit(s, step.time, step.now, p.window, p.max, step.member).1.admitted
  {
    var kept := Prune(Live(s, step.time).scores, step.now - p.window);
    var m :| m in full && full[m] == Oldest(full);
    assert m !in kept;
    SubsetSize(kept.Keys, full.Keys - {m});
    assert |kept| == |kept.Keys| && |full| == |full.Keys|;
  }

  // A call made once the reported wait has passed is admitted, when nothing else was
  // admitted in the meantime.
  lemma AdmittedAfterWait(steps: seq<Step>, p: Params, k: nat, j: nat)
    requires p.max > 0 && p.window > 0 && Run(steps, 0)
    requires k < j < |steps| && steps[k].Attempt? && !ReplyAt(steps, p, k).admitted
    requires forall i :: k < i < j ==> !Admitted(steps, p, i)
    requires steps[j].Attempt? && steps[j].time >= steps[k].time + ReplyAt(steps, p, k).retry
    ensures ReplyAt(steps, p, j).admitted
  {
    RefusalState(steps, p, k);
    OnlyLoses(steps, p, k, j);
    RoomOnceOldestLeaves(After(steps[..k + 1], p).scores, After(steps[..j], p), steps[j], p);
  }

  // The two roundings together, from milliseconds to a duration in whole seconds and from
  // that duration to the header's seconds, never name an earlier moment and add less than
  // one second.
  function HeaderSeconds(durationSeconds: int): int {
    if durationSeconds < 0 then 0 else durationSeconds
  }

  lemma RoundingIsTight(millis: int)
    ensures var s := HeaderSeconds(RetryAfterSeconds(millis));
            if millis <= 0 then s == 0 else millis <= s * 1000 < millis + 1000
  {
  }

  // A refused client that waits out the seconds it was told is admitted, if nothing else
  // was admitted meanwhile, and it waited less than a second longer than it had to.
  lemma HeaderWaitSuffices(steps: seq<Step>, p: Params, k: nat, j: nat)
    requires p.max > 0 && p.window > 0 && Run(steps, 0)
    requires k < j < |steps| && steps[k].Attempt? && !ReplyAt(steps, p, k).admitted
    requires forall i :: k < i < j ==> !Admitted(steps, p, i)
    requires steps[j].Attempt?
    requires steps[j].time >= steps[k].time + 1000 * HeaderSeconds(RetryAfterSeconds(ReplyAt(steps, p, k).retry))
    ensures ReplyAt(steps, p, j).admitted
    ensures 1000 * HeaderSeconds(RetryAfterSeconds(ReplyAt(steps, p, k).retry)) < ReplyAt(steps, p, k).retry + 1000
  {
    WaitIsPositive(steps, p, k);
    RoundingIsTight(ReplyAt(steps, p, k).retry);
    AdmittedAfterWait(steps, p, k, j);
  }

  // ----- key expiry is only garbage collection -----

  function WithoutDeadline(s: SlidingSet): SlidingSet {
    SlidingSet(s.scores, None)
  }

  // The same run on a server that never expires a key.
  ghost function AfterForever(steps: seq<Step>, p: Params): (s: SlidingSet)
    ensures s.deadline == None
  {
    if steps == [] then MISSING
    else WithoutDeadline(Apply(AfterForever(steps[..|steps| - 1], p), steps[|steps| - 1], p))
  }

  ghost function ForeverReplyAt(steps: seq<Step>, p: Params, i: nat): Reply
    requires i < |steps| && steps[i].Attempt?
  {
    Admit(AfterForever(steps[..i], p), steps[i].time, steps[i].now, p.window, p.max, steps[i].member).1
  }

  // What a call at `t` can still count.
  function Countable(s: SlidingSet, t: int, p: Params): map<Member, int> {
    Prune(Live(s, t).scores, t - p.window)
  }

  // From `time` on, the two servers agree on everything a call can still count.
  ghost predicate SameFrom(a: SlidingSet, b: SlidingSet, time: int, p: Params) {
    forall t :: t >= time ==> Countable(a, t, p) == Countable(b, t, p)
  }

  lemma ExpiredIsPruned(s: SlidingSet, t: int, p: Params)
    requires forall m :: m in s.scores && s.deadline.Some? ==> s.scores[m] + p.window <= s.deadline.value
    ensures Countable(s, t, p) == Prune(s.scores, t - p.window)
  {
  }

  lemma {:induction false} ServersAgree(steps: seq<Step>, p: Params, time: int)
    requires p.window > 0 && Run(steps, 0)
    requires forall i :: 0 <= i < |steps| ==> steps[i].time <= time
    ensures SameFrom(After(steps, p), AfterForever(steps, p), time, p)
    decreases |steps|
  {
    if steps == [] {
    } else {
      var n := |steps| - 1;
      var a, b := After(steps[..n], p), AfterForever(steps[..n], p);
      ServersAgree(steps[..n], p, steps[n].time);
      EntriesArePast(steps[..n], p, steps[n].time);
      StepKeepsAgreement(a, b, steps[n], p);
      SameFromLater(After(steps, p), AfterForever(steps, p), steps[n].time, time, p);
    }
  }

  lemma SameFromLater(a: SlidingSet, b: SlidingSet, time: int, later: int, p: Params)
    requires SameFrom(a, b, time, p) && time <= later
    ensures SameFrom(a, b, later, p)
  {
  }

  lemma StepKeepsAgreement(a: SlidingSet, b: SlidingSet, step: Step, p: Params)
    requires b.deadline == None
    requires SameFrom(a, b, step.time, p) && Past(a, step.time, p)
    requires step.Attempt? ==> step.now == step.time
    ensures SameFrom(Apply(a, step, p), WithoutDeadline(Apply(b, step, p)), step.time, p)
  {
    match step
    case Attempt(_, _, _) => AttemptKeepsAgreement(a, b, step, p);
    case GiveBack(_, _) => GiveBackKeepsAgreement(a, b, step, p);
    case Idle(_) =>
  }

  lemma AttemptKeepsAgreement(a: SlidingSet, b: SlidingSet, step: Step, p: Params)
    requires b.deadline == None
    requires SameFrom(a, b, step.time, p) && Past(a, step.time, p)
    requires step.Attempt? && step.now == step.time
    ensures SameFrom(Apply(a, step, p), WithoutDeadline(Apply(b, step, p)), step.time, p)
  {
    var a', b' := Apply(a, step, p), WithoutDeadline(Apply(b, step, p));
    StepKeepsPast(a, step, p);
    assert Countable(a, step.time, p) == Countable(b, step.time, p);
    forall t | t >= step.time ensures Countable(a', t, p) == Countable(b', t, p) {
      ExpiredIsPruned(a', t, p);
    }
  }

  lemma GiveBackKeepsAgreement(a: SlidingSet, b: SlidingSet, step: Step, p: Params)
    requires b.deadline == None
    requires SameFrom(a, b, step.time, p) && Past(a, step.time, p)
    requires step.GiveBack?
    ensures SameFrom(Apply(a, step, p), WithoutDeadline(Apply(b, step, p)), step.time, p)
  {
    var a', b' := Apply(a, step, p), WithoutDeadline(Apply(b, step, p));
    StepKeepsPast(a, step, p);
    var live := Live(a, step.time);
    assert Countable(a, step.time, p) == Countable(b, step.time, p);
    forall t | t >= step.time ensures Countable(a', t, p) == Countable(b', t, p) {
      ExpiredIsPruned(a', t, p);
      PruneWithout(live.scores, step.member, t - p.window);
      PruneWithout(b.scores, step.member, t - p.window);
      PruneTwice(live.scores, step.time - p.window, t - p.window);
      PruneTwice(b.scores, step.time - p.window, t - p.window);
    }
  }

  lemma PruneTwice(scores: map<Member, int>, early: int, late: int)
    requires early <= late
    ensures Prune(Prune(scores, early), late) == Prune(scores, late)
  {
  }

  lemma PruneWithout(scores: map<Member, int>, member: Member, cutoff: int)
    ensures Prune(scores - {member}, cutoff) == Prune(scores, cutoff) - {member}
  {
  }

  // With one monotone clock, a server that drops keys at their deadline answers every
  // admission attempt of every run as one that never drops a key.
  lemma ExpiryIsGarbageCollection(steps: seq<Step>, p: Params, i: nat)
    requires p.window > 0 && Run(steps, 0)
    requires i < |steps| && steps[i].Attempt?
    ensures ReplyAt(steps, p, i) == ForeverReplyAt(steps, p, i)
  {
    ServersAgree(steps[..i], p, steps[i].time);
    assert Countable(After(steps[..i], p), steps[i].time, p)
        == Countable(AfterForever(steps[..i], p), steps[i].time, p);
  }

  // ----- which keys the server will ever collect -----

  // The expiry is armed before the entry is recorded, so an admission leaves a key with a
  // deadline exactly when an earlier entry survived the pruning. The documented claim
  // that every call re-arms it fails for the first admission of a quiet subject: that key
  // is left with no deadline at all.
  lemma DeadlineAfterAdmission(s: SlidingSet, time: int, now: int, p: Params, member: Member)
    requires s.Valid() && p.max > 0
    ensures var (after, reply) := Admit(s, time, now, p.window, p.max, member);
            && (after.deadline.Some?
                <==> exists m :: m in Live(s, time).scores && Live(s, time).scores[m] > now - p.window)
            && (!reply.admitted ==> after.deadline == Some(time + p.window))
  {
    var kept := Prune(Live(s, time).scores, now - p.window);
    if m :| m in Live(s, time).scores && Live(s, time).scores[m] > now - p.window {
      assert m in kept;
    } else {
      assert kept == map[];
    }
  }

  lemma FirstAdmissionIsNeverCollected(time: int, now: int, later: int, p: Params, member: Member)
    requires p.max > 0
    ensures var after := Admit(MISSING, time, now, p.window, p.max, member).0;
            after.deadline == None && Live(after, later).scores == map[member := now]
  {
    assert Prune(MISSING.scores, now - p.window) == map[];
  }
}
