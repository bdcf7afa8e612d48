/**
  The password-work limiter as a step system: a count under a mutex, a one-slot wakeup
  that is not a permit, one release closure per acquisition, and the hasher operations
  that use it.

  Every step is one atomic action of one caller. Between any two of them any other caller
  may act.
*/
module PasswordWork {

  // Where one caller of Hash, Verify or DummyVerify stands.
  datatype Pc =
    | NeedsDummy   // about to evaluate the process-wide dummy hash
    | MakingDummy  // deriving it, before holding any slot
    | Start        // about to call Acquire
    | Trying       // context checked, about to try the fast path
    | Parked       // waiting in select
    | Woken        // took the wakeup, about to try again
    | TimerFired   // chose the timer case, about to check the context
    | Holding      // Acquire returned a release
    | Deriving     // holding, with a derivation in flight
    | Announcing   // release has unlocked the count and not yet sent the wakeup
    | Released
    | TimedOut
    | Cancelled

  // The once-evaluated dummy hash.
  datatype Dummy = NotMade | Making | Made

  datatype State = State(
    held: int,
    changed: bool,        // the wakeup buffer is full
    pcs: seq<Pc>,
    fired: seq<bool>,     // the once of each caller's release closure
    cancelled: set<nat>,  // callers whose context is done
    dummy: Dummy
  )
  {
    ghost predicate Shaped() {
      |fired| == |pcs|
    }
  }

  datatype Step =
    | Cancel(c: nat)           // the caller's context ends
    | UseDummy(c: nat)         // enter the once-evaluated dummy hash
    | FinishDummy(c: nat)
    | CheckContext(c: nat)     // the check before the fast path
    | Try(c: nat)              // the fast path
    | Receive(c: nat)          // select takes the wakeup
    | Retry(c: nat)
    | TimeUp(c: nat)           // select takes the timer
    | SettleTimeout(c: nat)    // the context check after the timer
    | SeeCancel(c: nat)        // select takes the context
    | BeginDerivation(c: nat)
    | EndDerivation(c: nat)
    | Release(c: nat)          // a call of the release closure, the first or a later one
    | Send(c: nat)             // the non-blocking send of the wakeup

  // ----- the shared part -----

  class PasswordWorkLimiter {
    const maxConcurrent: int
    var held: int
    var changed: bool

    constructor (maxConcurrent: int)
      requires maxConcurrent >= 1
      ensures this.maxConcurrent == maxConcurrent && held == 0 && !changed
    {
      this.maxConcurrent, held, changed := maxConcurrent, 0, false;
    }

    // The count under the mutex: a slot is taken only when one is free.
    method TryAcquire() returns (ok: bool)
      modifies this`held
      ensures ok <==> old(held) < maxConcurrent
      ensures held == old(held) + if ok then 1 else 0
    {
      if held >= maxConcurrent {
        return false;
      }
      held := held + 1;
      return true;
    }

    // The locked half of release: the count never goes below zero.
    method GiveBack() returns (before: int)
      modifies this`held
      ensures before == old(held)
      ensures held == if before > 0 then before - 1 else before
    {
      before := held;
      if before > 0 {
        held := held - 1;
      }
    }

    // The unlocked half: a wakeup that finds the buffer full is dropped.
    method Announce()
      modifies this`changed
      ensures changed
    {
      if !changed {
        changed := true;
      }
    }

    method TakeWakeup() returns (ok: bool)
      modifies this`changed
      ensures ok == old(changed) && !changed
    {
      ok := changed;
      changed := false;
    }
  }

  // ----- one step -----

  predicate Enabled(s: State, step: Step)
    requires s.Shaped()
  {
    && step.c < |s.pcs|
    && var pc := s.pcs[step.c];
       match step
       case Cancel(c) => true
       case UseDummy(c) => pc == NeedsDummy && s.dummy != Making
       case FinishDummy(c) => pc == MakingDummy
       case CheckContext(c) => pc == Start
       case Try(c) => pc == Trying
       case Receive(c) => pc == Parked && s.changed
       case Retry(c) => pc == Woken
       case TimeUp(c) => pc == Parked
       case SettleTimeout(c) => pc == TimerFired
       case SeeCancel(c) => pc == Parked && c in s.cancelled
       case BeginDerivation(c) => pc == Holding
       case EndDerivation(c) => pc == Deriving
       case Release(c) => pc == Holding || pc == Announcing || pc == Released
       case Send(c) => pc == Announcing
  }

  // A slot is taken, or the caller waits.
  function Attempt(s: State, c: nat, max: int): State
    requires c < |s.pcs|
  {
    if s.held >= max then s.(pcs := s.pcs[c := Parked])
    else s.(held := s.held + 1, pcs := s.pcs[c := Holding])
  }

  // The effect of an enabled step; a step that is not enabled changes nothing.
  function Do(s: State, step: Step, max: int): (s': State)
    requires s.Shaped()
    ensures s'.Shaped() && |s'.pcs| == |s.pcs|
  {
    if !Enabled(s, step) then s
    else
      match step
      case Cancel(c) => s.(cancelled := s.cancelled + {c})
      case UseDummy(c) =>
        if s.dummy == Made then s.(pcs := s.pcs[c := Start])
        else s.(pcs := s.pcs[c := MakingDummy], dummy := Making)
      case FinishDummy(c) => s.(pcs := s.pcs[c := Start], dummy := Made)
      case CheckContext(c) => s.(pcs := s.pcs[c := if c in s.cancelled then Cancelled else Trying])
      case Try(c) => Attempt(s, c, max)
      case Receive(c) => s.(pcs := s.pcs[c := Woken], changed := false)
      case Retry(c) => Attempt(s, c, max)
      case TimeUp(c) => s.(pcs := s.pcs[c := TimerFired])
      case SettleTimeout(c) => s.(pcs := s.pcs[c := if c in s.cancelled then Cancelled else TimedOut])
      case SeeCancel(c) => s.(pcs := s.pcs[c := Cancelled])
      case BeginDerivation(c) => s.(pcs := s.pcs[c := Deriving])
      case EndDerivation(c) => s.(pcs := s.pcs[c := Holding])
      case Release(c) =>
        if s.fired[c] then s
        else if s.held > 0 then s.(held := s.held - 1, pcs := s.pcs[c := Announcing], fired := s.fired[c := true])
        else s.(pcs := s.pcs[c := Released], fired := s.fired[c := true])
      case Send(c) => s.(pcs := s.pcs[c := Released], changed := true)
  }

  function Exec(s: State, steps: seq<Step>, max: int): (s': State)
    requires s.Shaped()
    ensures s'.Shaped() && |s'.pcs| == |s.pcs|
  {
    if steps == [] then s else Do(Exec(s, steps[..|steps| - 1], max), steps[|steps| - 1], max)
  }

  // A process in which nothing has happened: each caller is about to acquire, or first
  // needs the dummy hash.
  ghost predicate Initial(s: State) {
    && s.Shaped()
    && s.held == 0 && !s.changed && s.cancelled == {} && s.dummy == NotMade
    && forall c :: 0 <= c < |s.pcs| ==> s.pcs[c] in {NeedsDummy, Start} && !s.fired[c]
  }

  // ----- the process: the limiter and every caller's place in its code -----

  class Process {
    const limiter: PasswordWorkLimiter
    var pcs: seq<Pc>
    var fired: seq<bool>
    var cancelled: set<nat>
    var dummy: Dummy

    constructor (limiter: PasswordWorkLimiter, pcs: seq<Pc>)
      requires limiter.held == 0 && !limiter.changed
      requires forall c :: 0 <= c < |pcs| ==> pcs[c] in {NeedsDummy, Start}
      ensures this.limiter == limiter && Initial(View()) && this.pcs == pcs
    {
      this.limiter, this.pcs := limiter, pcs;
      fired, cancelled, dummy := seq(|pcs|, _ => false), {}, NotMade;
    }

    function View(): State
      reads this, limiter
    {
      State(limiter.held, limiter.changed, pcs, fired, cancelled, dummy)
    }

    method AttemptAcquire(c: nat)
      requires c < |pcs|
      modifies this`pcs, limiter`held
      ensures View() == Attempt(old(View()), c, limiter.maxConcurrent)
    {
      var ok := limiter.TryAcquire();
      pcs := pcs[c := if ok then Holding else Parked];
    }

    // The closure: its once lets the first call through to the limiter and drops the rest.
    method CallRelease(c: nat)
      requires View().Shaped() && Enabled(View(), Release(c))
      modifies this`pcs, this`fired, limiter`held
      ensures View() == Do(old(View()), Release(c), limiter.maxConcurrent)
    {
      if fired[c] {
        return;
      }
      fired := fired[c := true];
      var before := limiter.GiveBack();
      pcs := pcs[c := if before > 0 then Announcing else Released];
    }

    // One atomic action of one caller.
    method Perform(step: Step)
      requires View().Shaped()
      modifies this, limiter
      ensures View() == Do(old(View()), step, limiter.maxConcurrent)
    {
      if !Enabled(View(), step) {
        return;
      }
      match step {
        case Cancel(c) => cancelled := cancelled + {c};
        case UseDummy(c) =>
          if dummy == Made {
            pcs := pcs[c := Start];
          } else {
            pcs, dummy := pcs[c := MakingDummy], Making;
          }
        case FinishDummy(c) => pcs, dummy := pcs[c := Start], Made;
        case CheckContext(c) => pcs := pcs[c := if c in cancelled then Cancelled else Trying];
        case Try(c) => AttemptAcquire(c);
        case Receive(c) =>
          var _ := limiter.TakeWakeup();
          pcs := pcs[c := Woken];
        case Retry(c) => AttemptAcquire(c);
        case TimeUp(c) => pcs := pcs[c := TimerFired];
        case SettleTimeout(c) => pcs := pcs[c := if c in cancelled then Cancelled else TimedOut];
        case SeeCancel(c) => pcs := pcs[c := Cancelled];
        case BeginDerivation(c) => pcs := pcs[c := Deriving];
        case EndDerivation(c) => pcs := pcs[c := Holding];
        case Release(c) => CallRelease(c);
        case Send(c) =>
          limiter.Announce();
          pcs := pcs[c := Released];
      }
    }
  }
}
