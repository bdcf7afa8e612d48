/**
  The PIN email budget: reservations against the rolling window, and the rule that gives
  a slot back only when the sender reports it never tried.
*/
module EmailBudget {
  import opened Options
  import opened SetFacts
  import opened Limits
  import opened SlidingWindow
  import Runs = SlidingRuns

  // ----- errors -----

  // An error value: the sentinel, some other plain error, one wrapping another, or
  // several joined.
  datatype Error =
    | ErrNotAttempted
    | Plain(id: nat)
    | Wrapped(inner: Error)
    | Joined(parts: seq<Error>)

  // Whether `target` occurs anywhere in the tree of `err`.
  predicate Is(err: Error, target: Error) {
    || err == target
    || (err.Wrapped? && Is(err.inner, target))
    || (err.Joined? && exists i :: 0 <= i < |err.parts| && Is(err.parts[i], target))
  }

  // Absent errors are left out of the join; a join of nothing is no error.
  function Join(errs: seq<Option<Error>>): Option<Error> {
    var parts := Present(errs);
    if parts == [] then None else Some(Joined(parts))
  }

  function Present(errs: seq<Option<Error>>): (parts: seq<Error>)
    ensures forall e :: e in parts <==> Some(e) in errs
  {
    if errs == [] then []
    else (if errs[0].Some? then [errs[0].value] else []) + Present(errs[1..])
  }

  function NotAttempted(err: Option<Error>): Option<Error> {
    Join([Some(ErrNotAttempted), err])
  }

  predicate Attempted(err: Option<Error>) {
    err.Some? && !Is(err.value, ErrNotAttempted)
  }

  // Every error that NotAttempted builds, of whatever cause and even of none, is an error
  // that is classified as not attempted, and keeps every fault its cause carried.
  lemma NotAttemptedIsNotAttempted(err: Option<Error>, target: Error)
    requires !target.Joined?
    ensures NotAttempted(err).Some? && !Attempted(NotAttempted(err))
    ensures Is(NotAttempted(err).value, target)
            <==> target == ErrNotAttempted || (err.Some? && Is(err.value, target))
  {
    assert Some(ErrNotAttempted) in [Some(ErrNotAttempted), err];
    var parts := Present([Some(ErrNotAttempted), err]);
    assert ErrNotAttempted in parts;
    if err.Some? {
      assert Some(err.value) in [Some(ErrNotAttempted), err];
      assert err.value in parts;
    }
    forall e | e in parts ensures e == ErrNotAttempted || err == Some(e) {
      assert Some(e) in [Some(ErrNotAttempted), err];
    }
  }

  // What stands at the end of a path into the tree: zero goes into a wrap, and i into part i of
  // a join.
  function At(err: Error, path: seq<nat>): Option<Error>
    decreases |path|
  {
    if path == [] then Some(err)
    else
      match err
      case Wrapped(inner) => if path[0] == 0 then At(inner, path[1..]) else None
      case Joined(parts) => if path[0] < |parts| then At(parts[path[0]], path[1..]) else None
      case _ => None
  }

  ghost predicate Occurs(err: Error, target: Error) {
    exists path :: At(err, path) == Some(target)
  }

  ghost predicate Marked(outcome: Option<Error>) {
    outcome.Some? && Occurs(outcome.value, ErrNotAttempted)
  }

  lemma {:induction false} PathIsFound(err: Error, target: Error, path: seq<nat>)
    requires At(err, path) == Some(target)
    ensures Is(err, target)
    decreases |path|
  {
    if path == [] {
    } else {
      match err
      case Wrapped(inner) => PathIsFound(inner, target, path[1..]);
      case Joined(parts) => PathIsFound(parts[path[0]], target, path[1..]);
    }
  }

  lemma {:induction false} FoundHasPath(err: Error, target: Error) returns (path: seq<nat>)
    requires Is(err, target)
    ensures At(err, path) == Some(target)
    decreases err
  {
    if err == target {
      path := [];
    } else {
      match err
      case Wrapped(inner) =>
        var rest := FoundHasPath(inner, target);
        path := [0] + rest;
      case Joined(parts) =>
        var i: nat :| i < |parts| && Is(parts[i], target);
        var rest := FoundHasPath(parts[i], target);
        path := [i] + rest;
    }
  }

  // An error is matched exactly when it stands somewhere in the tree.
  lemma MatchedIsOccurring(err: Error, target: Error)
    ensures Is(err, target) <==> Occurs(err, target)
  {
    if Is(err, target) {
      var path := FoundHasPath(err, target);
    }
    if path :| At(err, path) == Some(target) {
      PathIsFound(err, target, path);
    }
  }

  function WrappedTimes(err: Error, n: nat): Error {
    if n == 0 then err else Wrapped(WrappedTimes(err, n - 1))
  }

  // What NotAttempted builds is marked, of whatever cause and however often it is wrapped.
  lemma {:induction false} NotAttemptedIsMarked(cause: Option<Error>, n: nat)
    ensures NotAttempted(cause).Some? && Marked(Some(WrappedTimes(NotAttempted(cause).value, n)))
  {
    NotAttemptedIsNotAttempted(cause, ErrNotAttempted);
    if n == 0 {
      MatchedIsOccurring(NotAttempted(cause).value, ErrNotAttempted);
    } else {
      NotAttemptedIsMarked(cause, n - 1);
      var err := WrappedTimes(NotAttempted(cause).value, n - 1);
      var path :| At(err, path) == Some(ErrNotAttempted);
      assert ([0] + path)[1..] == path;
      assert At(Wrapped(err), [0] + path) == Some(ErrNotAttempted);
    }
  }

  // Wrapping a marked error on its way up does not lose the mark.
  lemma WrappingKeepsTheMark(err: Error)
    requires !Attempted(Some(err))
    ensures !Attempted(Some(Wrapped(err)))
  {
  }

  // ----- the budget -----

  // A slot goes back exactly when the sender failed and reports that it never tried.
  predicate RefundDue(admission: Member, outcome: Option<Error>) {
    outcome.Some? && !Attempted(outcome) && admission != ""
  }

  // That is: a failure in whose tree the mark occurs, of a reservation that was admitted.
  lemma RefundDueMeaning(admission: Member, outcome: Option<Error>)
    ensures RefundDue(admission, outcome) <==> admission != "" && Marked(outcome)
  {
    if outcome.Some? {
      MatchedIsOccurring(outcome.value, ErrNotAttempted);
    }
  }

  // All that the key held at `time` but this member, with the same scores.
  ghost predicate HoldsAllBut(after: SlidingSet, before: SlidingSet, time: int, member: Member) {
    && (forall m :: m in after.scores <==> m in Live(before, time).scores && m != member)
    && (forall m :: m in after.scores ==> after.scores[m] == Live(before, time).scores[m])
  }

  class PINEmailBudget {
    const key: SortedSetKey
    const global: SlidingPolicy

    constructor (key: SortedSetKey, global: SlidingPolicy)
      ensures this.key == key && this.global == global
    {
      this.key, this.global := key, global;
    }

    method ReserveGlobal(time: int, now: int, member: Member, reachable: bool)
      returns (result: Result<SlidingResult, LimiterError>)
      requires key.Valid() && global.Enforceable()
      modifies key
      ensures key.Valid()
      ensures result.Ok? <==> reachable
      ensures reachable ==>
                var step := Runs.Attempt(time, now, member);
                var p := Runs.Params(global.Millis(), global.max);
                && key.View() == Runs.Apply(old(key.View()), step, p)
                && result.value.allowed == Admit(old(key.View()), time, now, p.window, p.max, member).1.admitted
                && result.value.admission == if result.value.allowed then member else ""
      ensures !reachable ==> key.View() == old(key.View())
    {
      result := Allow(key, global, time, now, member, reachable);
    }

    method RefundGlobal(time: int, admission: Member, reachable: bool) returns (result: Result<(), LimiterError>)
      requires key.Valid()
      modifies key
      ensures key.Valid()
      ensures key.View() == if admission == "" || !reachable then old(key.View())
                            else Refund(old(key.View()), time, admission)
    {
      if admission == "" {
        return Ok(());
      }
      result := Release(key, time, admission, reachable);
    }

    // Sends through a sender whose report is `outcome`, returns that report unchanged, and
    // gives the slot back exactly when a refund is due and the server can be reached.
    method Deliver(time: int, reserved: SlidingResult, outcome: Option<Error>, reachable: bool)
      returns (err: Option<Error>)
      requires key.Valid()
      modifies key
      ensures key.Valid()
      ensures err == outcome
      ensures key.View() == if RefundDue(reserved.admission, outcome) && reachable
                            then Refund(old(key.View()), time, reserved.admission)
                            else old(key.View())
      ensures Marked(outcome) && reserved.admission != "" && reachable ==>
                HoldsAllBut(key.View(), old(key.View()), time, reserved.admission)
      ensures !Marked(outcome) || reserved.admission == "" || !reachable ==> key.View() == old(key.View())
    {
      RefundDueMeaning(reserved.admission, outcome);
      err := outcome;
      if err == None {
        return;
      }
      if !Attempted(err) {
        var _ := RefundGlobal(time, reserved.admission, reachable);
      }
    }
  }

  // ----- whole runs -----

  // One step against the deployment-wide budget. `lands` says whether a refund reaches the
  // server; a caller gives a slot back early when it fails before it has anything to send.
  datatype Step =
    | Reserve(time: int, now: int, member: Member)
    | RefundEarly(time: int, admission: Member, lands: bool)
    | Deliver(time: int, admission: Member, outcome: Option<Error>, lands: bool)

  // What the step does to the stored window.
  function Effect(step: Step): Runs.Step {
    match step
    case Reserve(time, now, member) => Runs.Attempt(time, now, member)
    case RefundEarly(time, admission, lands) =>
      if admission != "" && lands then Runs.GiveBack(time, admission) else Runs.Idle(time)
    case Deliver(time, admission, outcome, lands) =>
      if RefundDue(admission, outcome) && lands then Runs.GiveBack(time, admission) else Runs.Idle(time)
  }

  function Effects(steps: seq<Step>): (effects: seq<Runs.Step>)
    ensures |effects| == |steps|
    ensures forall i :: 0 <= i < |steps| ==> effects[i] == Effect(steps[i])
  {
    seq(|steps|, i requires 0 <= i < |steps| => Effect(steps[i]))
  }

  // Reservation `i` is the one whose admission step `j` spends or gives back.
  ghost predicate Settles(steps: seq<Step>, p: Runs.Params, i: int, j: int) {
    && 0 <= i < j < |steps|
    && steps[i].Reserve? && !steps[j].Reserve?
    && steps[i].member == steps[j].admission && steps[j].admission != ""
    && Runs.Admitted(Effects(steps), p, i)
  }

  // The callers' discipline: a message is sent only against an admitted reservation, and
  // each reservation is settled at most once, by one delivery or by one early refund. Refunds
  // of the empty admission settle nothing and may come at any time.
  ghost predicate Disciplined(steps: seq<Step>, p: Runs.Params) {
    && (forall j :: 0 <= j < |steps| && steps[j].Deliver? ==> exists i :: Settles(steps, p, i, j))
    && (forall j, k :: 0 <= j < k < |steps| && !steps[j].Reserve? && !steps[k].Reserve? && steps[j].admission != ""
          ==> steps[j].admission != steps[k].admission)
  }

  // The provider may have processed the message.
  ghost predicate MayHaveSent(step: Step) {
    step.Deliver? && (step.outcome == None || Attempted(step.outcome))
  }

  // The messages that may have been sent, by the moment their slot was reserved.
  ghost function Sent(steps: seq<Step>, p: Runs.Params, from: int, length: int): set<int> {
    set j | 0 <= j < |steps| && MayHaveSent(steps[j])
            && exists i :: Settles(steps, p, i, j) && from <= steps[i].time < from + length
  }

  ghost function ReservationOf(steps: seq<Step>, p: Runs.Params, from: int, length: int, j: int): (i: int)
    requires j in Sent(steps, p, from, length)
    ensures Settles(steps, p, i, j) && from <= steps[i].time < from + length
  {
    var i :| Settles(steps, p, i, j) && from <= steps[i].time < from + length;
    i
  }

  // A message that may have been sent keeps its slot: no refund in the run names it.
  lemma SentKeepsItsSlot(steps: seq<Step>, p: Runs.Params, i: int, j: int)
    requires Disciplined(steps, p) && Settles(steps, p, i, j) && MayHaveSent(steps[j])
    ensures Runs.Kept(Effects(steps), i, |steps|)
  {
    var effects := Effects(steps);
    forall k | i < k < |steps| && effects[k].GiveBack?
      ensures effects[k].member != effects[i].member
    {
      assert effects[k] == Effect(steps[k]);
    }
  }

  lemma SlotIsSpent(steps: seq<Step>, p: Runs.Params, from: int, length: int, j: int)
    requires Disciplined(steps, p) && j in Sent(steps, p, from, length)
    ensures ReservationOf(steps, p, from, length, j) in Runs.Spent(Effects(steps), p, from, length)
  {
    var i := ReservationOf(steps, p, from, length, j);
    SentKeepsItsSlot(steps, p, i, j);
    assert Effects(steps)[i] == Effect(steps[i]);
  }

  lemma SlotsDiffer(steps: seq<Step>, p: Runs.Params, i: int, j: int, k: int)
    requires Disciplined(steps, p) && Settles(steps, p, i, j) && Settles(steps, p, i, k)
    ensures j == k
  {
  }

  // The promise of the budget: whatever providers report and whichever refunds fail, the
  // messages that may have been sent, counted by when their slots were reserved, stay
  // within the maximum over the window (less twice the clock error).
  lemma SendsStayWithinBudget(steps: seq<Step>, p: Runs.Params, skew: int, from: int, length: int)
    requires p.max > 0 && skew >= 0 && length <= p.window - 2 * skew
    requires Runs.Run(Effects(steps), skew) && Disciplined(steps, p)
    ensures |Sent(steps, p, from, length)| <= p.max
  {
    var sent := Sent(steps, p, from, length);
    var slot := map j | j in sent :: ReservationOf(steps, p, from, length, j);
    forall j | j in sent ensures slot[j] in Runs.Spent(Effects(steps), p, from, length) {
      SlotIsSpent(steps, p, from, length, j);
    }
    forall j, k | j in sent && k in sent && slot[j] == slot[k] ensures j == k {
      SlotsDiffer(steps, p, slot[j], j, k);
    }
    DistinctImages(sent, slot, Runs.Spent(Effects(steps), p, from, length));
    Runs.RollingBound(Effects(steps), p, skew, from, length);
  }

  // ----- a slot that was given back -----

  // A key that held no more than the maximum has room for one more once an entry of it was
  // given back.
  lemma FreedSlotAdmits(
      s: SlidingSet, time: int, freed: Member, later: int, now: int, p: Runs.Params, member: Member)
    requires |s.scores| <= p.max && freed in Live(s, time).scores
    ensures Admit(Refund(s, time, freed), later, now, p.window, p.max, member).1.admitted
  {
    var left := Live(s, time).scores - {freed};
    assert left.Keys == Live(s, time).scores.Keys - {freed};
    assert |left| == |left.Keys|;
    var kept := Prune(Live(Refund(s, time, freed), later).scores, now - p.window);
    SubsetSize(kept.Keys, left.Keys);
    assert |kept| == |kept.Keys|;
  }

  // After any run: a delivery that failed before it was attempted, of a reservation that the
  // window still holds, makes room for the next reservation, whenever that comes.
  lemma UnsentFreesItsSlot(
      steps: seq<Step>, p: Runs.Params, time: int, freed: Member, outcome: Option<Error>, next: Step)
    requires p.max > 0 && next.Reserve? && Marked(outcome) && freed != ""
    requires freed in Live(Runs.After(Effects(steps), p), time).scores
    ensures var all := Effects(steps) + [Effect(Deliver(time, freed, outcome, true))];
            Admit(Runs.After(all, p), next.time, next.now, p.window, p.max, next.member).1.admitted
  {
    var before := Effects(steps);
    RefundDueMeaning(freed, outcome);
    Runs.NeverOverfull(before, p);
    Runs.LastStep(before, Runs.GiveBack(time, freed), p);
    FreedSlotAdmits(Runs.After(before, p), time, freed, next.time, next.now, p, next.member);
  }

  // One reservation that is delivered twice.
  const TWICE := [Reserve(0, 0, "a"), Deliver(0, "a", None, true), Deliver(0, "a", None, true)]
  const ONE_A_SECOND := Runs.Params(1000, 1)

  lemma FirstIsAdmitted()
    ensures Runs.Admitted(Effects(TWICE), ONE_A_SECOND, 0)
  {
    assert Effects(TWICE)[..0] == [];
    assert Prune(MISSING.scores, -1000) == map[];
  }

  lemma TwiceIsRun()
    ensures Runs.Run(Effects(TWICE), 0)
  {
  }

  // Without the discipline the bound fails: one reservation delivered twice is two messages
  // on one slot.
  lemma DeliveringTwiceOverspends()
    ensures Runs.Run(Effects(TWICE), 0)
    ensures |Sent(TWICE, ONE_A_SECOND, 0, ONE_A_SECOND.window)| > ONE_A_SECOND.max
  {
    TwiceIsRun();
    FirstIsAdmitted();
    assert Settles(TWICE, ONE_A_SECOND, 0, 1) && Settles(TWICE, ONE_A_SECOND, 0, 2);
    SubsetSize({1, 2}, Sent(TWICE, ONE_A_SECOND, 0, ONE_A_SECOND.window));
  }
}
