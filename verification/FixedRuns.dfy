/**
  Whole runs against one fixed-window counter under one policy, from any counter that may
  already be there, including one without an expiry.
*/
module FixedRuns {
  import opened Options
  import opened FixedWindow

  datatype Params = Params(seconds: int, max: int)
  {
    function Window(): int {
      1000 * seconds
    }

    predicate Enforceable() {
      seconds > 0 && max > 0
    }
  }

  datatype Step = Call(time: int) | Back(time: int)

  function Apply(c: Counter, step: Step, p: Params): Counter {
    match step
    case Call(time) => Increment(c, time, p.seconds).0
    case Back(time) => GiveOne(c, time).0
  }

  function After(init: Counter, steps: seq<Step>, p: Params): Counter {
    if steps == [] then init
    else Apply(After(init, steps[..|steps| - 1], p), steps[|steps| - 1], p)
  }

  // The count that call `i` is answered with.
  function CountAt(init: Counter, steps: seq<Step>, p: Params, i: nat): int
    requires i < |steps| && steps[i].Call?
  {
    Increment(After(init, steps[..i], p), steps[i].time, p.seconds).1.count
  }

  predicate AllowedAt(init: Counter, steps: seq<Step>, p: Params, i: nat)
    requires i < |steps|
  {
    steps[i].Call? && CountAt(init, steps, p, i) <= p.max
  }

  // The call takes the counter to one: it creates the key, or finds it at zero.
  predicate RiseAt(init: Counter, steps: seq<Step>, p: Params, i: nat)
    requires i < |steps|
  {
    steps[i].Call? && CountAt(init, steps, p, i) == 1
  }

  // The release took something off the count.
  predicate TookEffect(init: Counter, steps: seq<Step>, p: Params, i: nat)
    requires i < |steps|
  {
    steps[i].Back? && var live := Live(After(init, steps[..i], p), steps[i].time); live.Counter? && live.count > 0
  }

  // Calls allowed among steps a, ..., b - 1.
  function AllowedIn(init: Counter, steps: seq<Step>, p: Params, a: nat, b: nat): nat
    requires a <= b <= |steps|
  {
    if a == b then 0
    else AllowedIn(init, steps, p, a, b - 1) + if AllowedAt(init, steps, p, b - 1) then 1 else 0
  }

  // Releases that took effect among steps a, ..., b - 1.
  function ReturnedIn(init: Counter, steps: seq<Step>, p: Params, a: nat, b: nat): nat
    requires a <= b <= |steps|
  {
    if a == b then 0
    else ReturnedIn(init, steps, p, a, b - 1) + if TookEffect(init, steps, p, b - 1) then 1 else 0
  }

  predicate InOrder(steps: seq<Step>) {
    forall i, j :: 0 <= i < j < |steps| ==> steps[i].time <= steps[j].time
  }

  predicate NonNegative(c: Counter) {
    Debt(c) == 0
  }

  // How far below zero the count stands.
  function Debt(c: Counter): nat {
    if c.Counter? && c.count < 0 then -c.count else 0
  }

  predicate CallsOnly(steps: seq<Step>) {
    forall i :: 0 <= i < |steps| ==> steps[i].Call?
  }

  lemma PrefixStep(init: Counter, steps: seq<Step>, p: Params, j: nat)
    requires j < |steps|
    ensures After(init, steps[..j + 1], p) == Apply(After(init, steps[..j], p), steps[j], p)
  {
    assert steps[..j + 1][..j] == steps[..j];
  }

  // ----- what holds of every run -----

  // A count below zero never goes further below, and one that is not never gets there.
  lemma {:induction false} DebtNeverGrows(init: Counter, steps: seq<Step>, p: Params)
    ensures Debt(After(init, steps, p)) <= Debt(init)
    decreases |steps|
  {
    if steps == [] {
    } else {
      DebtNeverGrows(init, steps[..|steps| - 1], p);
    }
  }

  lemma CountStaysNonNegative(init: Counter, steps: seq<Step>, p: Params)
    requires NonNegative(init)
    ensures NonNegative(After(init, steps, p))
  {
    DebtNeverGrows(init, steps, p);
  }

  // From the first call on, the key has an expiry whenever it exists, whatever was there
  // before: a key without one is repaired and no key loses one.
  lemma {:induction false} ExpiryFromFirstCall(init: Counter, steps: seq<Step>, p: Params, i: nat)
    requires i < |steps| && steps[i].Call?
    ensures var c := After(init, steps, p); c.Counter? ==> c.expiry.Some?
    ensures steps[|steps| - 1].Call? ==> After(init, steps, p).Counter?
    decreases |steps|
  {
    var n := |steps| - 1;
    if i < n {
      ExpiryFromFirstCall(init, steps[..n], p, i);
    }
  }

  // A release never creates a key, never touches an expiry, and takes at most one off the
  // count, never below zero.
  lemma ReleaseOnlyLowers(c: Counter, time: int)
    ensures var live, after := Live(c, time), GiveOne(c, time).0;
            && (live.Absent? <==> after.Absent?)
            && (live.Counter? ==> after.expiry == live.expiry)
            && (live.Counter? ==> after.count == if live.count > 0 then live.count - 1 else live.count)
  {
  }

  // A call moves an existing expiry exactly when it takes the counter from zero to one and
  // the window it arms differs from the one that was there.
  lemma CallMovesExpiryOnlyFromZero(c: Counter, time: int, p: Params)
    requires Live(c, time).Counter? && Live(c, time).expiry.Some?
    ensures Increment(c, time, p.seconds).0.expiry != c.expiry
            <==> c.count == 0 && c.expiry != Some(time + p.Window())
  {
  }

  // The documented claim that a release cannot postpone a reset fails for exactly one count.
  // When a live counter stands at one, releasing it and calling again starts a whole new
  // window; at any higher count the reset stays where it was.
  lemma ReleaseThenCall(c: Counter, release: int, call: int, p: Params)
    requires c.Counter? && c.count > 0 && c.expiry.Some? && release <= call <= c.expiry.value
    ensures var after := Apply(Apply(c, Back(release), p), Call(call), p);
            && after.count == c.count
            && after.expiry == if c.count == 1 then Some(call + p.Window()) else c.expiry
  {
  }

  // ----- how much one span admits -----

  // What a span has allowed is covered by the count it leaves, by what was given back and by
  // what the count was short of at first.
  ghost predicate Covered(c: Counter, max: int, allowed: nat, returned: nat, debt: nat) {
    allowed <= max + returned + debt && (c.Counter? ==> allowed <= c.count + returned + debt)
  }

  lemma StepKeepsCovered(c: Counter, step: Step, p: Params, allowed: nat, returned: nat, debt: nat)
    requires p.max > 0 && Covered(c, p.max, allowed, returned, debt)
    requires step.Call? && Increment(c, step.time, p.seconds).1.count == 1 ==> allowed == 0
    ensures var live := Live(c, step.time);
            var allows := step.Call? && Increment(c, step.time, p.seconds).1.count <= p.max;
            var gives := step.Back? && live.Counter? && live.count > 0;
            Covered(Apply(c, step, p), p.max, allowed + if allows then 1 else 0, returned + if gives then 1 else 0,
                debt)
  {
  }

  lemma RiseIsCovered(init: Counter, steps: seq<Step>, p: Params, a: nat, debt: nat)
    requires p.max > 0 && a < |steps| && RiseAt(init, steps, p, a)
    ensures Covered(After(init, steps[..a + 1], p), p.max, AllowedIn(init, steps, p, a, a + 1),
                    ReturnedIn(init, steps, p, a, a + 1), debt)
  {
    PrefixStep(init, steps, p, a);
    assert AllowedIn(init, steps, p, a, a) == 0 && ReturnedIn(init, steps, p, a, a) == 0;
  }

  lemma SpanStep(init: Counter, steps: seq<Step>, p: Params, a: nat, j: nat, debt: nat)
    requires p.max > 0 && a <= j < |steps| && (a < j ==> !RiseAt(init, steps, p, j))
    requires Covered(After(init, steps[..j], p), p.max, AllowedIn(init, steps, p, a, j),
        ReturnedIn(init, steps, p, a, j), debt)
    ensures Covered(After(init, steps[..j + 1], p), p.max,
                    AllowedIn(init, steps, p, a, j + 1), ReturnedIn(init, steps, p, a, j + 1), debt)
  {
    PrefixStep(init, steps, p, j);
    StepKeepsCovered(After(init, steps[..j], p), steps[j], p,
                     AllowedIn(init, steps, p, a, j), ReturnedIn(init, steps, p, a, j), debt);
  }

  // The span starts with a count no further below zero than `debt`, or with a rise.
  lemma {:induction false} SpanIsCovered(init: Counter, steps: seq<Step>, p: Params, a: nat, b: nat, debt: nat)
    requires p.max > 0 && a <= b <= |steps|
    requires Debt(After(init, steps[..a], p)) <= debt || (a < b && RiseAt(init, steps, p, a))
    requires forall i :: a < i < b ==> !RiseAt(init, steps, p, i)
    ensures Covered(After(init, steps[..b], p), p.max, AllowedIn(init, steps, p, a, b),
        ReturnedIn(init, steps, p, a, b), debt)
    decreases b
  {
    if a == b {
    } else if b == a + 1 && RiseAt(init, steps, p, a) {
      RiseIsCovered(init, steps, p, a, debt);
    } else {
      SpanIsCovered(init, steps, p, a, b - 1, debt);
      SpanStep(init, steps, p, a, b - 1, debt);
    }
  }

  // Between two rises the calls allowed are at most the maximum plus the releases that took
  // effect among them, plus what the count fell short of zero at the start of the run.
  lemma SpanBound(init: Counter, steps: seq<Step>, p: Params, a: nat, b: nat)
    requires p.max > 0 && a <= b <= |steps|
    requires forall i :: a < i < b ==> !RiseAt(init, steps, p, i)
    ensures AllowedIn(init, steps, p, a, b) <= p.max + ReturnedIn(init, steps, p, a, b) + Debt(init)
    ensures a < b && RiseAt(init, steps, p, a) ==>
              AllowedIn(init, steps, p, a, b) <= p.max + ReturnedIn(init, steps, p, a, b)
  {
    DebtNeverGrows(init, steps[..a], p);
    SpanIsCovered(init, steps, p, a, b, Debt(init));
    if a < b && RiseAt(init, steps, p, a) {
      SpanIsCovered(init, steps, p, a, b, 0);
    }
  }

  function Larger(x: int, y: int): int {
    if x < y then y else x
  }

  // What calls away from any rise leave: the count stands at least one above what they were
  // allowed, or has not yet come up to zero.
  ghost predicate Inside(c: Counter, allowed: nat, debt: nat) {
    allowed > 0 ==> c.Counter? && if c.count >= 1 then allowed <= c.count - 1 else allowed <= c.count + debt
  }

  lemma StepKeepsInside(c: Counter, step: Step, p: Params, allowed: nat, debt: nat)
    requires p.max > 0 && step.Call? && Debt(c) <= debt
    requires Inside(c, allowed, debt) && allowed <= Larger(p.max - 1, debt)
    requires Increment(c, step.time, p.seconds).1.count != 1
    ensures var allowed' := allowed + if Increment(c, step.time, p.seconds).1.count <= p.max then 1 else 0;
            Inside(Apply(c, step, p), allowed', debt) && allowed' <= Larger(p.max - 1, debt)
  {
  }

  // Without releases, and away from any rise, at most the maximum less one are allowed, or
  // what it takes to come up to zero.
  lemma {:induction false} InsideSpan(init: Counter, steps: seq<Step>, p: Params, a: nat, b: nat)
    requires p.max > 0 && CallsOnly(steps)
    requires a <= b <= |steps|
    requires forall i :: a <= i < b ==> !RiseAt(init, steps, p, i)
    ensures Inside(After(init, steps[..b], p), AllowedIn(init, steps, p, a, b), Debt(init))
    ensures AllowedIn(init, steps, p, a, b) <= Larger(p.max - 1, Debt(init))
    decreases b
  {
    if a == b {
    } else {
      InsideSpan(init, steps, p, a, b - 1);
      PrefixStep(init, steps, p, b - 1);
      DebtNeverGrows(init, steps[..b - 1], p);
      assert !RiseAt(init, steps, p, b - 1);
      StepKeepsInside(After(init, steps[..b - 1], p), steps[b - 1], p, AllowedIn(init, steps, p, a, b - 1), Debt(init));
    }
  }

  // Without releases, the key a rise opened lives out its whole window.
  lemma {:induction false} WindowStands(init: Counter, steps: seq<Step>, p: Params, r: nat, j: nat)
    requires p.Enforceable() && CallsOnly(steps) && InOrder(steps)
    requires r < j <= |steps| && RiseAt(init, steps, p, r)
    requires steps[j - 1].time <= steps[r].time + p.Window()
    ensures var c := After(init, steps[..j], p);
            c.Counter? && c.count >= 1 && c.expiry == Some(steps[r].time + p.Window())
    decreases j
  {
    PrefixStep(init, steps, p, j - 1);
    if r < j - 1 {
      assert steps[j - 2].time <= steps[j - 1].time;
      WindowStands(init, steps, p, r, j - 1);
    }
  }

  lemma RisesAreApart(init: Counter, steps: seq<Step>, p: Params, r: nat, s: nat)
    requires p.Enforceable() && CallsOnly(steps) && InOrder(steps)
    requires r < s < |steps| && RiseAt(init, steps, p, r) && RiseAt(init, steps, p, s)
    ensures steps[s].time > steps[r].time + p.Window()
  {
    if steps[s].time <= steps[r].time + p.Window() {
      assert steps[s - 1].time <= steps[s].time;
      WindowStands(init, steps, p, r, s);
    }
  }

  lemma {:induction false} AllowedSplits(init: Counter, steps: seq<Step>, p: Params, a: nat, m: nat, b: nat)
    requires a <= m <= b <= |steps|
    ensures AllowedIn(init, steps, p, a, b) == AllowedIn(init, steps, p, a, m) + AllowedIn(init, steps, p, m, b)
    decreases b
  {
    if m >= b {
    } else {
      AllowedSplits(init, steps, p, a, m, b - 1);
    }
  }

  // The first rise among steps a, ..., b - 1, or b.
  function FirstRise(init: Counter, steps: seq<Step>, p: Params, a: nat, b: nat): (r: nat)
    requires a <= b <= |steps|
    ensures a <= r <= b && (r < b ==> RiseAt(init, steps, p, r))
    ensures forall i :: a <= i < r ==> !RiseAt(init, steps, p, i)
    decreases b - a
  {
    if a == b || RiseAt(init, steps, p, a) then a else FirstRise(init, steps, p, a + 1, b)
  }

  // Without releases, steps that all lie within one window length of each other allow at
  // most twice the maximum less one; and from a count further below zero than that, at most
  // the maximum and what it takes to come up to zero.
  lemma EdgeBound(init: Counter, steps: seq<Step>, p: Params, a: nat, b: nat)
    requires p.Enforceable() && CallsOnly(steps) && InOrder(steps)
    requires a < b <= |steps| && steps[b - 1].time <= steps[a].time + p.Window()
    ensures AllowedIn(init, steps, p, a, b) <= p.max + Larger(p.max - 1, Debt(init))
  {
    var r := FirstRise(init, steps, p, a, b);
    InsideSpan(init, steps, p, a, r);
    AllowedSplits(init, steps, p, a, r, b);
    if r < b {
      forall i | r < i < b ensures !RiseAt(init, steps, p, i) {
        if RiseAt(init, steps, p, i) {
          RisesAreApart(init, steps, p, r, i);
        }
      }
      SpanBound(init, steps, p, r, b);
      NothingReturned(init, steps, p, r, b);
    }
  }

  lemma {:induction false} NothingReturned(init: Counter, steps: seq<Step>, p: Params, a: nat, b: nat)
    requires a <= b <= |steps| && CallsOnly(steps)
    ensures ReturnedIn(init, steps, p, a, b) == 0
    decreases b
  {
    if a >= b {
    } else {
      NothingReturned(init, steps, p, a, b - 1);
    }
  }

  // ----- the edge bound is the best possible -----

  // `n` calls at the same moment.
  function Together(n: nat, time: int): (steps: seq<Step>)
    ensures |steps| == n
    ensures forall i :: 0 <= i < n ==> steps[i] == Call(time)
  {
    seq(n, i => Call(time))
  }

  lemma {:induction false} AllAllowed(init: Counter, steps: seq<Step>, p: Params, a: nat, b: nat)
    requires a <= b <= |steps|
    requires forall i :: a <= i < b ==> AllowedAt(init, steps, p, i)
    ensures AllowedIn(init, steps, p, a, b) == b - a
    decreases b
  {
    if a >= b {
    } else {
      AllAllowed(init, steps, p, a, b - 1);
    }
  }

  // One call opens a window; the rest of its budget is spent in its last instant, and a
  // whole new budget just after.
  function Edge(p: Params): (steps: seq<Step>)
    requires p.max > 0
    ensures |steps| == 2 * p.max
  {
    [Call(0)] + Together(p.max - 1, p.Window()) + Together(p.max, p.Window() + 1)
  }

  lemma {:induction false} EdgeCounts(p: Params, j: nat)
    requires p.Enforceable() && 0 < j <= 2 * p.max
    ensures After(Absent, Edge(p)[..j], p)
         == if j <= p.max then Counter(j, Some(p.Window())) else Counter(j - p.max, Some(2 * p.Window() + 1))
    decreases j
  {
    PrefixStep(Absent, Edge(p), p, j - 1);
    if j > 1 {
      EdgeCounts(p, j - 1);
    }
  }

  lemma EdgeIsReached(p: Params)
    requires p.Enforceable()
    ensures var steps := Edge(p);
            && CallsOnly(steps) && InOrder(steps)
            && steps[2 * p.max - 1].time < steps[1].time + p.Window()
            && AllowedIn(Absent, steps, p, 1, 2 * p.max) == 2 * p.max - 1
  {
    var steps := Edge(p);
    forall i | 1 <= i < 2 * p.max ensures AllowedAt(Absent, steps, p, i) {
      EdgeCounts(p, i);
    }
    AllAllowed(Absent, steps, p, 1, 2 * p.max);
  }

  // From a count below zero: what brings it up is spent in the last instant of its window, and
  // a whole budget just after.
  function Owing(p: Params, debt: nat): Counter {
    Counter(-(debt as int), Some(p.Window()))
  }

  function DebtEdge(p: Params, debt: nat): (steps: seq<Step>)
    requires p.max > 0
    ensures |steps| == debt + p.max
    ensures forall i :: 0 <= i < |steps| ==> steps[i] == Call(if i < debt then p.Window() else p.Window() + 1)
  {
    Together(debt, p.Window()) + Together(p.max, p.Window() + 1)
  }

  // After `j` calls.
  function DebtEdgeCount(p: Params, debt: nat, j: nat): Counter {
    Counter(j - debt, Some(if j <= debt then p.Window() else 2 * p.Window() + 1))
  }

  lemma DebtEdgeStep(p: Params, debt: nat, j: nat)
    requires p.Enforceable() && j < debt + p.max
    ensures Apply(DebtEdgeCount(p, debt, j), DebtEdge(p, debt)[j], p) == DebtEdgeCount(p, debt, j + 1)
  {
  }

  lemma {:induction false} DebtEdgeCounts(p: Params, debt: nat, j: nat)
    requires p.Enforceable() && j <= debt + p.max
    ensures After(Owing(p, debt), DebtEdge(p, debt)[..j], p) == DebtEdgeCount(p, debt, j)
    decreases j
  {
    if j == 0 {
    } else {
      DebtEdgeCounts(p, debt, j - 1);
      PrefixStep(Owing(p, debt), DebtEdge(p, debt), p, j - 1);
      DebtEdgeStep(p, debt, j - 1);
    }
  }

  lemma DebtEdgeIsReached(p: Params, debt: nat)
    requires p.Enforceable()
    ensures AllowedIn(Owing(p, debt), DebtEdge(p, debt), p, 0, debt + p.max) == debt + p.max
  {
    forall i | 0 <= i < debt + p.max ensures AllowedAt(Owing(p, debt), DebtEdge(p, debt), p, i) {
      DebtEdgeCounts(p, debt, i);
    }
    AllAllowed(Owing(p, debt), DebtEdge(p, debt), p, 0, debt + p.max);
  }

  // A stretch of one window, in a run without releases.
  ghost predicate InOneWindow(p: Params, steps: seq<Step>, a: nat, b: nat) {
    && CallsOnly(steps) && InOrder(steps)
    && a < b <= |steps| && steps[b - 1].time < steps[a].time + p.Window()
  }

  // From any start no further below zero than `debt`, a number bounds what any stretch of one
  // window can hold, in every run without releases.
  ghost predicate BoundsEveryStretch(p: Params, debt: nat, bound: int) {
    forall init: Counter, steps: seq<Step>, a: nat, b: nat ::
      Debt(init) <= debt && InOneWindow(p, steps, a, b) ==> AllowedIn(init, steps, p, a, b) <= bound
  }

  lemma BreaksTheBound(p: Params, debt: nat, bound: int, init: Counter, steps: seq<Step>, a: nat, b: nat)
    requires Debt(init) <= debt && InOneWindow(p, steps, a, b) && AllowedIn(init, steps, p, a, b) > bound
    ensures !BoundsEveryStretch(p, debt, bound)
  {
  }

  // The least such number is twice the maximum less one or, if that is more, the maximum and
  // the debt.
  lemma ExactEdgeBound(p: Params, debt: nat, bound: int)
    requires p.Enforceable()
    ensures BoundsEveryStretch(p, debt, bound) <==> bound >= p.max + Larger(p.max - 1, debt)
  {
    if bound >= p.max + Larger(p.max - 1, debt) {
      forall init: Counter, steps: seq<Step>, a: nat, b: nat | Debt(init) <= debt && InOneWindow(p, steps, a, b)
        ensures AllowedIn(init, steps, p, a, b) <= bound
      {
        EdgeBound(init, steps, p, a, b);
      }
    } else if debt <= p.max - 1 {
      EdgeIsReached(p);
      BreaksTheBound(p, debt, bound, Absent, Edge(p), 1, 2 * p.max);
    } else {
      DebtEdgeIsReached(p, debt);
      BreaksTheBound(p, debt, bound, Owing(p, debt), DebtEdge(p, debt), 0, debt + p.max);
    }
  }

  // ----- the wait a refusal reports -----

  // After a refusal with nothing released, every call up to the reported reset is refused
  // and the first call after it is allowed.
  lemma RefusedUntilReset(init: Counter, steps: seq<Step>, p: Params, k: nat, j: nat)
    requires p.Enforceable() && InOrder(steps)
    requires k < j < |steps| && steps[k].Call? && CountAt(init, steps, p, k) > p.max
    requires forall i :: k < i <= j ==> steps[i].Call?
    requires forall i :: k < i < j ==> steps[i].time <= steps[k].time + Remaining(init, steps, p, k)
    ensures AllowedAt(init, steps, p, j) <==> steps[j].time > steps[k].time + Remaining(init, steps, p, k)
  {
    RefusalStands(init, steps, p, k, j);
  }

  // The remaining life of the window that call `k` is told.
  function Remaining(init: Counter, steps: seq<Step>, p: Params, k: nat): int
    requires k < |steps| && steps[k].Call?
  {
    Increment(After(init, steps[..k], p), steps[k].time, p.seconds).1.ttl
  }

  lemma {:induction false} RefusalStands(init: Counter, steps: seq<Step>, p: Params, k: nat, j: nat)
    requires p.Enforceable() && InOrder(steps)
    requires k < j <= |steps| && steps[k].Call? && CountAt(init, steps, p, k) > p.max
    requires forall i :: k < i < j ==> steps[i].Call? && steps[i].time <= steps[k].time + Remaining(init, steps, p, k)
    ensures var c := After(init, steps[..j], p);
            c.Counter? && c.count > p.max && c.expiry == Some(steps[k].time + Remaining(init, steps, p, k))
    decreases j
  {
    PrefixStep(init, steps, p, j - 1);
    if j > k + 1 {
      RefusalStands(init, steps, p, k, j - 1);
    }
  }
}
