/** TimedAutoResetEvent of TimedResetEvent.cs: an AutoResetEvent that a
    one-shot timer sets. */
module TimedResetEvent {
  import opened Outcomes
  import opened ResetTimer

  /** What WaitOne does: return, consuming the signal, or block until some
      other thread sets the event. */
  datatype WaitResult = Released(after: EventState) | Blocks

  /** AutoResetEvent.WaitOne: a set event lets one waiter through and
      resets itself. The event is not the object disposed, so a disposed
      TimedAutoResetEvent still waits. */
  function AutoResetWait(st: EventState): (r: WaitResult)
    ensures st.flag <==> r.Released?
    ensures r.Released? ==> r.after == st.(flag := false)
  {
    if st.flag then Released(st.(flag := false)) else Blocks
  }

  /** Auto-reset: one expiry of the timer releases exactly one wait. */
  lemma OneExpiryOneRelease(st: EventState, ms: nat)
    requires st.Valid() && !st.disposed && ms > 0
    ensures var fired := Elapse(ResetAndSetAfter(st, ms).state);
      AutoResetWait(fired).Released? && AutoResetWait(AutoResetWait(fired).after) == Blocks
  {
  }

  /** Before the timer expires, a wait after ResetAndSetAfter blocks. */
  lemma ResetBlocksUntilExpiry(st: EventState, ms: nat)
    requires st.Valid() && !st.disposed && ms > 0
    ensures AutoResetWait(ResetAndSetAfter(st, ms).state) == Blocks
  {
  }

  class TimedAutoResetEvent {
    var signalled: bool
    var timerEnabled: bool
    var timerInterval: nat
    var isDisposed: bool

    function State(): EventState
      reads this
    {
      EventState(signalled, timerEnabled, timerInterval, isDisposed)
    }

    predicate Valid()
      reads this
    {
      State().Valid()
    }

    /** new TimedAutoResetEvent(set). */
    constructor (initiallySet: bool)
      ensures State() == Created(initiallySet) && Valid()
    {
      signalled := initiallySet;
      timerEnabled := false;
      timerInterval := DefaultInterval;
      isDisposed := false;
    }

    /** ResetTimer_Elapsed, together with the one-shot timer stopping. */
    method Elapse()
      requires Valid()
      modifies this
      ensures State() == ResetTimer.Elapse(old(State())) && Valid()
    {
      if !timerEnabled {
        return;
      }
      timerEnabled := false;
      if isDisposed {
        return;
      }
      signalled := true;
    }

    /** WaitOne, where false stands for a wait that does not return. */
    method WaitOne() returns (released: bool)
      requires Valid()
      modifies this
      ensures released <==> AutoResetWait(old(State())).Released?
      ensures released ==> State() == AutoResetWait(old(State())).after
      ensures !released ==> State() == old(State())
      ensures Valid()
    {
      released := signalled;
      signalled := false;
    }

    method SetAfter(ms: nat) returns (outcome: Outcome)
      requires Valid()
      modifies this
      ensures State() == ResetTimer.SetAfter(old(State()), ms).state
      ensures outcome == ResetTimer.SetAfter(old(State()), ms).outcome
      ensures Valid()
    {
      if isDisposed {
        return Fail(ObjectDisposed);
      }
      timerEnabled := false;
      if ms == 0 {
        return Fail(Argument);
      }
      timerInterval := ms;
      timerEnabled := true;
      outcome := Done;
    }

    method ResetAndSetAfter(ms: nat) returns (outcome: Outcome)
      requires Valid()
      modifies this
      ensures State() == ResetTimer.ResetAndSetAfter(old(State()), ms).state
      ensures outcome == ResetTimer.ResetAndSetAfter(old(State()), ms).outcome
      ensures Valid()
    {
      if isDisposed {
        return Fail(ObjectDisposed);
      }
      var _ := ResetAndStop();
      if ms == 0 {
        return Fail(Argument);
      }
      timerInterval := ms;
      timerEnabled := true;
      outcome := Done;
    }

    method SetAndStop() returns (outcome: Outcome)
      requires Valid()
      modifies this
      ensures State() == ResetTimer.SetAndStop(old(State())).state
      ensures outcome == ResetTimer.SetAndStop(old(State())).outcome
      ensures Valid()
    {
      if isDisposed {
        return Fail(ObjectDisposed);
      }
      timerEnabled := false;
      signalled := true;
      outcome := Done;
    }

    method ResetAndStop() returns (outcome: Outcome)
      requires Valid()
      modifies this
      ensures State() == ResetTimer.ResetAndStop(old(State())).state
      ensures outcome == ResetTimer.ResetAndStop(old(State())).outcome
      ensures Valid()
    {
      if isDisposed {
        return Fail(ObjectDisposed);
      }
      timerEnabled := false;
      signalled := false;
      outcome := Done;
    }

    method Dispose()
      requires Valid()
      modifies this
      ensures State() == ResetTimer.Dispose(old(State())) && Valid()
    {
      isDisposed := true;
      timerEnabled := false;
    }
  }
}
