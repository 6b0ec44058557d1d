/** AsyncTimedResetEvent of AsyncTimedResetEvent.cs: the base class's
    asynchronous reset event, reduced here to its Set/Reset flag, set by a
    one-shot timer. */
module AsyncTimedResetEvent {
  import opened Outcomes
  import opened ResetTimer

  class AsyncTimedResetEvent {
    /** The base event's auto-reset mode, fixed at construction. */
    const autoReset: bool
    var signalled: bool
    var timerEnabled: bool
    var timerInterval: nat
    var isDisposed: bool

    function State(): EventState
      reads this
    {
      EventState(signalled, timerEnabled, timerInterval, isDisposed)
    }

    predicate Valid()
      reads this
    {
      State().Valid()
    }

    /** new AsyncTimedResetEvent(set, autoReset). */
    constructor (initiallySet: bool, autoReset: bool)
      ensures State() == Created(initiallySet) && this.autoReset == autoReset && Valid()
    {
      this.autoReset := autoReset;
      signalled := initiallySet;
      timerEnabled := false;
      timerInterval := DefaultInterval;
      isDisposed := false;
    }

    /** The base class's Set and Reset. */
    method Set()
      modifies this
      ensures State() == old(State()).(flag := true)
    {
      signalled := true;
    }

    method Reset()
      modifies this
      ensures State() == old(State()).(flag := false)
    {
      signalled := false;
    }

    /** ResetTimer_Elapsed, together with the one-shot timer stopping. */
    method Elapse()
      requires Valid()
      modifies this
      ensures State() == ResetTimer.Elapse(old(State())) && Valid()
    {
      if !timerEnabled {
        return;
      }
      timerEnabled := false;
      if isDisposed {
        return;
      }
      Set();
    }

    method SetAfter(ms: nat) returns (outcome: Outcome)
      requires Valid()
      modifies this
      ensures State() == ResetTimer.SetAfter(old(State()), ms).state
      ensures outcome == ResetTimer.SetAfter(old(State()), ms).outcome
      ensures Valid()
    {
      if isDisposed {
        return Fail(ObjectDisposed);
      }
      timerEnabled := false;
      if ms == 0 {
        return Fail(Argument);
      }
      timerInterval := ms;
      timerEnabled := true;
      outcome := Done;
    }

    method ResetAndSetAfter(ms: nat) returns (outcome: Outcome)
      requires Valid()
      modifies this
      ensures State() == ResetTimer.ResetAndSetAfter(old(State()), ms).state
      ensures outcome == ResetTimer.ResetAndSetAfter(old(State()), ms).outcome
      ensures Valid()
    {
      if isDisposed {
        return Fail(ObjectDisposed);
      }
      var _ := ResetAndStop();
      if ms == 0 {
        return Fail(Argument);
      }
      timerInterval := ms;
      timerEnabled := true;
      outcome := Done;
    }

    method SetAndStop() returns (outcome: Outcome)
      requires Valid()
      modifies this
      ensures State() == ResetTimer.SetAndStop(old(State())).state
      ensures outcome == ResetTimer.SetAndStop(old(State())).outcome
      ensures Valid()
    {
      if isDisposed {
        return Fail(ObjectDisposed);
      }
      timerEnabled := false;
      Set();
      outcome := Done;
    }

    method ResetAndStop() returns (outcome: Outcome)
      requires Valid()
      modifies this
      ensures State() == ResetTimer.ResetAndStop(old(State())).state
      ensures outcome == ResetTimer.ResetAndStop(old(State())).outcome
      ensures Valid()
    {
      if isDisposed {
        return Fail(ObjectDisposed);
      }
      timerEnabled := false;
      Reset();
      outcome := Done;
    }

    method Dispose()
      requires Valid()
      modifies this
      ensures State() == ResetTimer.Dispose(old(State())) && Valid()
    {
      isDisposed := true;
      timerEnabled := false;
    }
  }
}
