/** What every interleaving of the password-work limiter keeps, and what it does not. */
module PasswordWorkRuns {
  import opened PasswordWork

  ghost predicate Reachable(s: State, max: int) {
    exists init, steps :: Initial(init) && Exec(init, steps, max) == s
  }

  lemma InitialIsReachable(s: State, max: int)
    requires Initial(s)
    ensures Reachable(s, max)
  {
    assert Exec(s, [], max) == s;
  }

  lemma StepIsReachable(s: State, step: Step, max: int)
    requires Reachable(s, max) && s.Shaped()
    ensures Reachable(Do(s, step, max), max)
  {
    var init, steps :| Initial(init) && Exec(init, steps, max) == s;
    assert (steps + [step])[..|steps|] == steps;
    assert Exec(init, steps + [step], max) == Do(s, step, max);
  }

  // ----- counting callers -----

  function CountIf(pcs: seq<Pc>, which: set<Pc>): nat {
    if pcs == [] then 0
    else CountIf(pcs[..|pcs| - 1], which) + if pcs[|pcs| - 1] in which then 1 else 0
  }

  lemma {:induction false} CountUpdate(pcs: seq<Pc>, which: set<Pc>, c: nat, pc: Pc)
    requires c < |pcs|
    ensures CountIf(pcs[c := pc], which)
         == CountIf(pcs, which) - (if pcs[c] in which then 1 else 0) + (if pc in which then 1 else 0)
    decreases |pcs|
  {
    var n := |pcs| - 1;
    if c < n {
      CountUpdate(pcs[..n], which, c, pc);
      assert pcs[c := pc][..n] == pcs[..n][c := pc];
    } else {
      assert pcs[c := pc][..n] == pcs[..n];
    }
  }

  lemma {:induction false} CountIsPositive(pcs: seq<Pc>, which: set<Pc>, c: nat)
    requires c < |pcs| && pcs[c] in which
    ensures CountIf(pcs, which) > 0
    decreases |pcs|
  {
    var n := |pcs| - 1;
    if c < n {
      CountIsPositive(pcs[..n], which, c);
    }
  }

  lemma {:induction false} CountOfNone(pcs: seq<Pc>, which: set<Pc>)
    requires forall c :: 0 <= c < |pcs| ==> pcs[c] !in which
    ensures CountIf(pcs, which) == 0
    decreases |pcs|
  {
    if pcs == [] {
    } else {
      CountOfNone(pcs[..|pcs| - 1], which);
    }
  }

  lemma {:induction false} CountOfUnion(pcs: seq<Pc>, a: set<Pc>, b: set<Pc>)
    requires a !! b
    ensures CountIf(pcs, a + b) == CountIf(pcs, a) + CountIf(pcs, b)
    decreases |pcs|
  {
    if pcs == [] {
    } else {
      CountOfUnion(pcs[..|pcs| - 1], a, b);
    }
  }

  const SLOTTED := {Holding, Deriving}

  // ----- capacity accounting -----

  // The count is the number of acquisitions whose closure has not fired, the dummy hash is
  // being made by at most one caller, and a closure has fired exactly where a release ran.
  ghost predicate Accounted(s: State, max: int) {
    && s.Shaped()
    && s.held == CountIf(s.pcs, SLOTTED)
    && 0 <= s.held <= max
    && (forall c :: 0 <= c < |s.pcs| ==> (s.fired[c] <==> s.pcs[c] in {Announcing, Released}))
    && CountIf(s.pcs, {MakingDummy}) == if s.dummy == Making then 1 else 0
  }

  lemma StepKeepsHeld(s: State, step: Step, max: int)
    requires max >= 1 && Accounted(s, max)
    ensures Do(s, step, max).held == CountIf(Do(s, step, max).pcs, SLOTTED) && 0 <= Do(s, step, max).held <= max
  {
    var s' := Do(s, step, max);
    if Enabled(s, step) && !step.Cancel? {
      var c := step.c;
      assert s'.pcs == s.pcs[c := s'.pcs[c]];
      CountUpdate(s.pcs, SLOTTED, c, s'.pcs[c]);
      if s.pcs[c] in SLOTTED { CountIsPositive(s.pcs, SLOTTED, c); }
    }
  }

  lemma StepKeepsDummy(s: State, step: Step, max: int)
    requires max >= 1 && Accounted(s, max)
    ensures CountIf(Do(s, step, max).pcs, {MakingDummy}) == if Do(s, step, max).dummy == Making then 1 else 0
  {
    var s' := Do(s, step, max);
    if Enabled(s, step) && !step.Cancel? {
      var c := step.c;
      assert s'.pcs == s.pcs[c := s'.pcs[c]];
      CountUpdate(s.pcs, {MakingDummy}, c, s'.pcs[c]);
      if s.pcs[c] == MakingDummy { CountIsPositive(s.pcs, {MakingDummy}, c); }
    }
  }

  lemma StepKeepsFired(s: State, step: Step, max: int, c: nat)
    requires max >= 1 && Accounted(s, max) && c < |s.pcs|
    ensures Do(s, step, max).fired[c] <==> Do(s, step, max).pcs[c] in {Announcing, Released}
  {
    if s.pcs[c] in SLOTTED { CountIsPositive(s.pcs, SLOTTED, c); }
  }

  lemma StepKeepsAccount(s: State, step: Step, max: int)
    requires max >= 1 && Accounted(s, max)
    ensures Accounted(Do(s, step, max), max)
  {
    StepKeepsHeld(s, step, max);
    StepKeepsDummy(s, step, max);
    forall c: nat | c < |s.pcs|
      ensures Do(s, step, max).fired[c] <==> Do(s, step, max).pcs[c] in {Announcing, Released}
    {
      StepKeepsFired(s, step, max, c);
    }
  }

  lemma {:induction false} ExecKeepsAccount(init: State, steps: seq<Step>, max: int)
    requires max >= 1 && Initial(init)
    ensures Accounted(Exec(init, steps, max), max)
    decreases |steps|
  {
    if steps == [] {
      CountOfNone(init.pcs, SLOTTED);
      CountOfNone(init.pcs, {MakingDummy});
    } else {
      ExecKeepsAccount(init, steps[..|steps| - 1], max);
      StepKeepsAccount(Exec(init, steps[..|steps| - 1], max), steps[|steps| - 1], max);
    }
  }

  lemma AlwaysAccounted(s: State, max: int)
    requires max >= 1 && Reachable(s, max)
    ensures Accounted(s, max)
  {
    var init, steps :| Initial(init) && Exec(init, steps, max) == s;
    ExecKeepsAccount(init, steps, max);
  }

  // Every release belongs to a slot that is held: the clamp at zero is never what decides,
  // and calling a closure again changes nothing.
  lemma ReleaseBelongsToItsAcquisition(s: State, c: nat, max: int)
    requires max >= 1 && Reachable(s, max) && c < |s.pcs|
    ensures s.Shaped()
    ensures s.pcs[c] == Holding ==>
              var s' := Do(s, Release(c), max);
              s'.held == s.held - 1 && s'.pcs[c] == Announcing && Do(s', Release(c), max) == s'
    ensures s.pcs[c] in {Announcing, Released} ==> Do(s, Release(c), max) == s
  {
    AlwaysAccounted(s, max);
    if s.pcs[c] == Holding {
      CountIsPositive(s.pcs, SLOTTED, c);
    }
  }

  // Derivations running at once: those under a slot, and the one that makes the dummy hash.
  function InFlight(s: State): nat {
    CountIf(s.pcs, {Deriving}) + CountIf(s.pcs, {MakingDummy})
  }

  lemma DerivationsAreBounded(s: State, max: int)
    requires max >= 1 && Reachable(s, max)
    ensures InFlight(s) <= max + if s.dummy == Making then 1 else 0
  {
    AlwaysAccounted(s, max);
    CountOfUnion(s.pcs, {Holding}, {Deriving});
    assert {Holding} + {Deriving} == SLOTTED;
  }

  // Once made, the dummy hash is never made again.
  lemma {:induction false} DummyIsMadeOnce(s: State, steps: seq<Step>, max: int)
    requires max >= 1 && Accounted(s, max) && s.dummy == Made
    ensures Accounted(Exec(s, steps, max), max)
    ensures Exec(s, steps, max).dummy == Made && CountIf(Exec(s, steps, max).pcs, {MakingDummy}) == 0
    decreases |steps|
  {
    if steps == [] {
    } else {
      var t := Exec(s, steps[..|steps| - 1], max);
      DummyIsMadeOnce(s, steps[..|steps| - 1], max);
      StepKeepsAccount(t, steps[|steps| - 1], max);
      if Enabled(t, FinishDummy(steps[|steps| - 1].c)) {
        CountIsPositive(t.pcs, {MakingDummy}, steps[|steps| - 1].c);
      }
    }
  }

  lemma CancelledEarlyStep(s: State, step: Step, max: int, c: nat)
    requires s.Shaped() && c < |s.pcs| && c in s.cancelled
    requires s.pcs[c] in {NeedsDummy, MakingDummy, Start, Cancelled}
    ensures Do(s, step, max).pcs[c] in {NeedsDummy, MakingDummy, Start, Cancelled}
    ensures c in Do(s, step, max).cancelled
  {
  }

  // A request that was cancelled before it asked never gets a slot.
  lemma {:induction false} CancelledEarlyNeverHolds(s: State, steps: seq<Step>, max: int, c: nat)
    requires s.Shaped() && c < |s.pcs| && c in s.cancelled
    requires s.pcs[c] in {NeedsDummy, MakingDummy, Start}
    ensures Exec(s, steps, max).pcs[c] in {NeedsDummy, MakingDummy, Start, Cancelled}
    ensures c in Exec(s, steps, max).cancelled
    decreases |steps|
  {
    if steps == [] {
    } else {
      CancelledEarlyNeverHolds(s, steps[..|steps| - 1], max, c);
      CancelledEarlyStep(Exec(s, steps[..|steps| - 1], max), steps[|steps| - 1], max, c);
    }
  }

  // ----- which outcome a caller gets -----

  // Only a cancelled request ends as cancelled.
  ghost predicate CancelledWereCancelled(s: State) {
    forall c :: 0 <= c < |s.pcs| && s.pcs[c] == Cancelled ==> c in s.cancelled
  }

  lemma StepKeepsOutcomes(s: State, step: Step, max: int)
    requires s.Shaped() && CancelledWereCancelled(s)
    ensures CancelledWereCancelled(Do(s, step, max))
  {
  }

  lemma {:induction false} ExecKeepsOutcomes(init: State, steps: seq<Step>, max: int)
    requires Initial(init)
    ensures CancelledWereCancelled(Exec(init, steps, max))
    decreases |steps|
  {
    if steps == [] {
    } else {
      ExecKeepsOutcomes(init, steps[..|steps| - 1], max);
      StepKeepsOutcomes(Exec(init, steps[..|steps| - 1], max), steps[|steps| - 1], max);
    }
  }

  lemma OnlyCancelledEndCancelled(s: State, max: int)
    requires Reachable(s, max)
    ensures s.Shaped() && CancelledWereCancelled(s)
  {
    var init, steps :| Initial(init) && Exec(init, steps, max) == s;
    ExecKeepsOutcomes(init, steps, max);
  }

  // A caller is told that there was no capacity only after its timer fired, and only if its
  // request is still live; whoever is settled with its request cancelled is told that.
  lemma TimeoutIsForTheLive(s: State, step: Step, max: int, c: nat)
    requires s.Shaped() && c < |s.pcs| && s.pcs[c] !in {TimedOut, Cancelled}
    ensures var end := Do(s, step, max).pcs[c];
            && (end == TimedOut <==> step == SettleTimeout(c) && s.pcs[c] == TimerFired && c !in s.cancelled)
            && (end == Cancelled <==>
                  c in s.cancelled && ((step == SettleTimeout(c) && s.pcs[c] == TimerFired)
                                       || (step == SeeCancel(c) && s.pcs[c] == Parked)
                                       || (step == CheckContext(c) && s.pcs[c] == Start)))
  {
  }

  // A timer fires only for a caller that waits, and nobody leaves the wait but by a wakeup, the
  // timer or the end of its request.
  lemma LeavingTheWait(s: State, step: Step, max: int, c: nat)
    requires s.Shaped() && c < |s.pcs| && s.pcs[c] == Parked
    ensures var end := Do(s, step, max).pcs[c];
            && (end == TimerFired <==> step == TimeUp(c))
            && (end == Woken <==> step == Receive(c) && s.changed)
            && (end == Cancelled <==> step == SeeCancel(c) && c in s.cancelled)
            && end in {Parked, TimerFired, Woken, Cancelled}
  {
  }

  // An outcome is final, and a caller that has one holds no slot.
  lemma {:induction false} OutcomesAreFinal(s: State, steps: seq<Step>, max: int, c: nat)
    requires s.Shaped() && c < |s.pcs| && s.pcs[c] in {TimedOut, Cancelled}
    ensures Exec(s, steps, max).pcs[c] == s.pcs[c]
    decreases |steps|
  {
    if steps == [] {
    } else {
      OutcomesAreFinal(s, steps[..|steps| - 1], max, c);
      OutcomeStays(Exec(s, steps[..|steps| - 1], max), steps[|steps| - 1], max, c);
    }
  }

  lemma OutcomeStays(s: State, step: Step, max: int, c: nat)
    requires s.Shaped() && c < |s.pcs| && s.pcs[c] in {TimedOut, Cancelled}
    ensures Do(s, step, max).pcs[c] == s.pcs[c]
  {
  }

  // A slot is gained only by the fast path or by trying again after a wakeup, and only where
  // one is free.
  lemma GainingASlot(s: State, step: Step, max: int, c: nat)
    requires s.Shaped() && c < |s.pcs| && s.pcs[c] !in {Holding, Deriving}
    ensures Do(s, step, max).pcs[c] in {Holding, Deriving}
        <==> s.held < max && ((step == Try(c) && s.pcs[c] == Trying) || (step == Retry(c) && s.pcs[c] == Woken))
  {
  }

  // ----- wakeups -----

  ghost predicate Somebody(s: State, pc: Pc) {
    exists c :: 0 <= c < |s.pcs| && s.pcs[c] == pc
  }

  // Some caller is about to look at the count again, or will be told to.
  ghost predicate Signalled(s: State) {
    s.changed || Somebody(s, Announcing) || Somebody(s, Woken)
  }

  ghost predicate NoneStranded(s: State) {
    s.held == 0 && Somebody(s, Parked) ==> Signalled(s)
  }

  lemma Elsewhere(s: State, s': State, c: nat, pc: Pc)
    requires c < |s.pcs| == |s'.pcs| && (forall d :: 0 <= d < |s.pcs| && d != c ==> s'.pcs[d] == s.pcs[d])
    ensures Somebody(s', pc) && s'.pcs[c] != pc ==> Somebody(s, pc)
    ensures Somebody(s, pc) && s.pcs[c] != pc ==> Somebody(s', pc)
    ensures s'.pcs[c] == pc ==> Somebody(s', pc)
  {
    if Somebody(s', pc) && s'.pcs[c] != pc {
      var d :| 0 <= d < |s'.pcs| && s'.pcs[d] == pc;
      assert s.pcs[d] == pc;
    }
    if Somebody(s, pc) && s.pcs[c] != pc {
      var d :| 0 <= d < |s.pcs| && s.pcs[d] == pc;
      assert s'.pcs[d] == pc;
    }
  }

  lemma StepStrandsNone(s: State, step: Step, max: int)
    requires max >= 1 && Accounted(s, max) && NoneStranded(s)
    ensures NoneStranded(Do(s, step, max))
  {
    var s' := Do(s, step, max);
    if Enabled(s, step) && s' != s && !step.Cancel? {
      Elsewhere(s, s', step.c, Parked);
      Elsewhere(s, s', step.c, Announcing);
      Elsewhere(s, s', step.c, Woken);
    }
  }

  lemma {:induction false} ExecStrandsNone(init: State, steps: seq<Step>, max: int)
    requires max >= 1 && Initial(init)
    ensures NoneStranded(Exec(init, steps, max))
    decreases |steps|
  {
    if steps == [] {
    } else {
      ExecKeepsAccount(init, steps[..|steps| - 1], max);
      ExecStrandsNone(init, steps[..|steps| - 1], max);
      StepStrandsNone(Exec(init, steps[..|steps| - 1], max), steps[|steps| - 1], max);
    }
  }

  // In every interleaving and for every limit: when nothing is held and somebody waits, a
  // wakeup is pending, or is about to be sent, or has been taken and is about to be used.
  lemma NobodyIsStranded(s: State, max: int)
    requires max >= 1 && Reachable(s, max)
    ensures NoneStranded(s)
  {
    var init, steps :| Initial(init) && Exec(init, steps, max) == s;
    ExecStrandsNone(init, steps, max);
  }

  lemma OneMoreStep(s: State, steps: seq<Step>, step: Step, max: int)
    requires s.Shaped()
    ensures Exec(s, steps + [step], max) == Do(Exec(s, steps, max), step, max)
  {
    assert (steps + [step])[..|steps|] == steps;
  }

  // With a full buffer and a free limiter, a waiter takes the wakeup and then the slot.
  lemma WakeupIsUsed(s: State, before: seq<Step>, w: nat, max: int)
    requires max >= 1 && s.Shaped() && w < |s.pcs|
    requires var t := Exec(s, before, max); t.held == 0 && t.changed && t.pcs[w] == Parked
    ensures Exec(s, before + [Receive(w)] + [Retry(w)], max).held == 1
  {
    OneMoreStep(s, before, Receive(w), max);
    OneMoreStep(s, before + [Receive(w)], Retry(w), max);
  }

  // A few steps of already started callers, after which a slot is taken.
  ghost predicate Proceeds(s: State, steps: seq<Step>, max: int)
    requires s.Shaped()
  {
    && |steps| <= 3 && (forall i :: 0 <= i < |steps| ==> steps[i].Send? || steps[i].Receive? || steps[i].Retry?)
    && Exec(s, steps, max).held == 1
  }

  lemma RetryTakesTheSlot(s: State, c: nat, max: int)
    requires max >= 1 && s.Shaped() && c < |s.pcs| && s.pcs[c] == Woken && s.held == 0
    ensures Do(s, Retry(c), max).held == 1
  {
  }

  lemma OneStep(s: State, step: Step, max: int)
    requires s.Shaped()
    ensures Exec(s, [step], max) == Do(s, step, max)
  {
    assert [step][..0] == [];
  }

  lemma WokenProceeds(s: State, c: nat, max: int)
    requires max >= 1 && s.Shaped() && c < |s.pcs| && s.pcs[c] == Woken && s.held == 0
    ensures Proceeds(s, [Retry(c)], max)
  {
    RetryTakesTheSlot(s, c, max);
    OneStep(s, Retry(c), max);
  }

  lemma SignalProceeds(s: State, w: nat, max: int)
    requires max >= 1 && s.Shaped() && w < |s.pcs| && s.held == 0 && s.changed && s.pcs[w] == Parked
    ensures Proceeds(s, [] + [Receive(w)] + [Retry(w)], max)
  {
    WakeupIsUsed(s, [], w, max);
  }

  lemma SendProceeds(s: State, c: nat, w: nat, max: int)
    requires max >= 1 && s.Shaped() && c < |s.pcs| && w < |s.pcs|
    requires s.held == 0 && s.pcs[c] == Announcing && s.pcs[w] == Parked
    ensures Proceeds(s, ([] + [Send(c)]) + [Receive(w)] + [Retry(w)], max)
  {
    OneMoreStep(s, [], Send(c), max);
    WakeupIsUsed(s, [] + [Send(c)], w, max);
  }

  // So a waiter beside an entirely free limiter is at most three steps of already started
  // callers away from a slot being taken.
  lemma WaiterCanProceed(s: State, max: int)
    requires max >= 1 && Reachable(s, max) && s.held == 0 && Somebody(s, Parked)
    ensures s.Shaped() && exists steps :: Proceeds(s, steps, max)
  {
    AlwaysAccounted(s, max);
    NobodyIsStranded(s, max);
    var w :| 0 <= w < |s.pcs| && s.pcs[w] == Parked;
    if s.changed {
      SignalProceeds(s, w, max);
    } else if Somebody(s, Woken) {
      var c :| 0 <= c < |s.pcs| && s.pcs[c] == Woken;
      WokenProceeds(s, c, max);
    } else {
      var c :| 0 <= c < |s.pcs| && s.pcs[c] == Announcing;
      SendProceeds(s, c, w, max);
    }
  }

  // ----- lost wakeups -----

  // A free slot, a waiter, and nothing on its way to tell it.
  ghost predicate LostWakeup(s: State, max: int) {
    s.held < max && Somebody(s, Parked) && !Signalled(s)
  }

  // `k` callers hold a slot, the others have not asked yet.
  function Filling(k: nat, n: nat): State
    requires k <= n
  {
    State(k, false, seq(n, i => if i < k then Holding else Start), seq(n, i => false), {}, NotMade)
  }

  lemma {:induction false} FillingIsReachable(k: nat, n: nat, max: int)
    requires k <= max && k <= n
    ensures Reachable(Filling(k, n), max)
    decreases k
  {
    if k == 0 {
      InitialIsReachable(Filling(0, n), max);
    } else {
      FillingIsReachable(k - 1, n, max);
      var s := Filling(k - 1, n);
      StepIsReachable(s, CheckContext(k - 1), max);
      var t := Do(s, CheckContext(k - 1), max);
      StepIsReachable(t, Try(k - 1), max);
      assert Do(t, Try(k - 1), max) == Filling(k, n);
    }
  }

  lemma Then(s: State, step: Step, t: State, max: int)
    requires Reachable(s, max) && s.Shaped() && Do(s, step, max) == t
    ensures Reachable(t, max)
  {
    StepIsReachable(s, step, max);
  }

  // Every slot is taken and two callers wait.
  function TwoWaiting(max: nat): State {
    State(max, false, seq(max + 2, i => if i < max then Holding else Parked), seq(max + 2, i => false), {}, NotMade)
  }

  lemma TwoWaitingIsReachable(max: nat)
    ensures Reachable(TwoWaiting(max), max)
  {
    var s := Filling(max, max + 2);
    FillingIsReachable(max, max + 2, max);
    var a := s.(pcs := s.pcs[max := Trying]);
    Then(s, CheckContext(max), a, max);
    var b := a.(pcs := a.pcs[max := Parked]);
    Then(a, Try(max), b, max);
    var c := b.(pcs := b.pcs[max + 1 := Trying]);
    Then(b, CheckContext(max + 1), c, max);
    assert c.pcs[max + 1 := Parked] == TwoWaiting(max).pcs;
    Then(c, Try(max + 1), TwoWaiting(max), max);
  }

  // With two slots or more, two releases can coalesce into one wakeup.
  function TwoReleased(max: int): State
    requires max >= 2
  {
    State(max - 2, true,
          seq(max + 2, i => if i < 2 then Released else if i < max then Holding else Parked),
          seq(max + 2, i => i < 2), {}, NotMade)
  }

  // Two holders release one after the other, before either wakeup is sent.
  lemma ReleaseTwo(s: State, max: int) returns (t: State)
    requires Reachable(s, max) && s.Shaped() && |s.pcs| >= 2 && s.held >= 2
    requires s.pcs[0] == s.pcs[1] == Holding && !s.fired[0] && !s.fired[1]
    ensures Reachable(t, max)
    ensures t == s.(held := s.held - 2, pcs := s.pcs[0 := Announcing][1 := Announcing],
                    fired := s.fired[0 := true][1 := true])
  {
    var a := s.(held := s.held - 1, pcs := s.pcs[0 := Announcing], fired := s.fired[0 := true]);
    Then(s, Release(0), a, max);
    t := a.(held := a.held - 1, pcs := a.pcs[1 := Announcing], fired := a.fired[1 := true]);
    Then(a, Release(1), t, max);
  }

  // The second of the two wakeups finds the buffer full and is dropped.
  lemma SendTwo(s: State, max: int) returns (t: State)
    requires Reachable(s, max) && s.Shaped() && |s.pcs| >= 2
    requires s.pcs[0] == s.pcs[1] == Announcing
    ensures Reachable(t, max)
    ensures t == s.(changed := true, pcs := s.pcs[0 := Released][1 := Released])
  {
    var a := s.(changed := true, pcs := s.pcs[0 := Released]);
    Then(s, Send(0), a, max);
    t := a.(pcs := a.pcs[1 := Released]);
    Then(a, Send(1), t, max);
  }

  lemma TwoReleasedIsReachable(max: int)
    requires max >= 2
    ensures Reachable(TwoReleased(max), max)
  {
    TwoWaitingIsReachable(max);
    var s := ReleaseTwo(TwoWaiting(max), max);
    var t := SendTwo(s, max);
    assert t.pcs == TwoReleased(max).pcs;
    assert t.fired == TwoReleased(max).fired;
  }

  // The caller that takes the one wakeup uses one slot, and the second waiter stays parked
  // beside the other.
  lemma CoalescedLosesOne(max: int) returns (s: State)
    requires max >= 2
    ensures Reachable(s, max) && LostWakeup(s, max)
  {
    var t := TwoReleased(max);
    TwoReleasedIsReachable(max);
    var u := t.(changed := false, pcs := t.pcs[max := Woken]);
    Then(t, Receive(max), u, max);
    s := u.(held := max - 1, pcs := u.pcs[max := Holding]);
    Then(u, Retry(max), s, max);
    assert s.pcs[max + 1] == Parked;
  }

  // No reachable state loses a wakeup exactly when the limit is one. The comment beside the
  // dropped send claims it for every limit.
  lemma WakeupsAreSafeOnlyAtOne(max: int)
    requires max >= 1
    ensures (forall s :: Reachable(s, max) ==> !LostWakeup(s, max)) <==> max == 1
  {
    if max == 1 {
      forall s | Reachable(s, max) ensures !LostWakeup(s, max) {
        AlwaysAccounted(s, max);
        NobodyIsStranded(s, max);
      }
    } else {
      var s := CoalescedLosesOne(max);
    }
  }

  // ----- the unslotted derivation -----

  // `k` of `max` callers derive under a slot while one more makes the dummy hash.
  function Busy(k: nat, max: nat): State
    requires k <= max
  {
    State(k, false,
          seq(max + 1, i => if i < k then Deriving else if i < max then Start else MakingDummy),
          seq(max + 1, i => false), {}, Making)
  }

  // A caller that has not asked yet takes a free slot and starts its derivation.
  lemma StartDeriving(s: State, c: nat, max: int) returns (t: State)
    requires Reachable(s, max) && s.Shaped() && c < |s.pcs| && s.pcs[c] == Start
    requires s.held < max && c !in s.cancelled
    ensures Reachable(t, max)
    ensures t == s.(held := s.held + 1, pcs := s.pcs[c := Deriving])
  {
    var a := s.(pcs := s.pcs[c := Trying]);
    Then(s, CheckContext(c), a, max);
    var b := a.(held := s.held + 1, pcs := a.pcs[c := Holding]);
    Then(a, Try(c), b, max);
    t := b.(pcs := b.pcs[c := Deriving]);
    Then(b, BeginDerivation(c), t, max);
  }

  lemma {:induction false} BusyIsReachable(k: nat, max: nat)
    requires k <= max
    ensures Reachable(Busy(k, max), max)
    decreases k
  {
    if k == 0 {
      var pcs := seq(max + 1, i => if i < max then Start else NeedsDummy);
      var s := State(0, false, pcs, seq(max + 1, i => false), {}, NotMade);
      InitialIsReachable(s, max);
      assert s.pcs[max := MakingDummy] == Busy(0, max).pcs;
      Then(s, UseDummy(max), Busy(0, max), max);
    } else {
      BusyIsReachable(k - 1, max);
      var t := StartDeriving(Busy(k - 1, max), k - 1, max);
      assert t.pcs == Busy(k, max).pcs;
    }
  }

  lemma {:induction false} CountOfPrefix(pcs: seq<Pc>, pc: Pc, k: nat)
    requires k <= |pcs| && forall c :: 0 <= c < |pcs| ==> (pcs[c] == pc <==> c < k)
    ensures CountIf(pcs, {pc}) == k
    decreases |pcs|
  {
    if pcs == [] {
    } else {
      CountOfPrefix(pcs[..|pcs| - 1], pc, if k < |pcs| then k else k - 1);
    }
  }

  // A number bounds the derivations in flight in every interleaving exactly when it is at
  // least the limit plus one: the first use of the dummy hash derives without a slot.
  lemma ExactDerivationBound(max: int, bound: int)
    requires max >= 1
    ensures (forall s :: Reachable(s, max) ==> InFlight(s) <= bound) <==> bound >= max + 1
  {
    forall s | Reachable(s, max) ensures InFlight(s) <= max + 1 {
      DerivationsAreBounded(s, max);
    }
    var s := Busy(max, max);
    BusyIsReachable(max, max);
    CountOfPrefix(s.pcs, Deriving, max);
    AlwaysAccounted(s, max);
    assert InFlight(s) == max + 1;
  }
}
