/** The state shared by the two timed reset events of TimedResetEvent.cs
    and AsyncTimedResetEvent.cs: an event flag, a one-shot
    System.Timers.Timer (enabled flag and interval, in whole milliseconds)
    whose expiry sets the flag, and a disposed flag. The timer firing is
    the explicit step Elapse. */
module ResetTimer {
  import opened Outcomes

  /** System.Timers.Timer's interval before one is assigned. */
  const DefaultInterval: nat := 100

  datatype EventState = EventState(flag: bool, enabled: bool, interval: nat, disposed: bool)
  {
    /** The timer never has a non-positive interval, and a disposed timer
        is stopped. */
    predicate Valid() {
      interval > 0 && (disposed ==> !enabled)
    }
  }

  datatype Change = Change(state: EventState, outcome: Outcome)

  /** The constructor: the flag as given, the timer stopped. */
  function Created(initiallySet: bool): (st: EventState)
    ensures st.Valid() && st.flag == initiallySet && !st.enabled && !st.disposed && st.interval == DefaultInterval
  {
    EventState(initiallySet, false, DefaultInterval, false)
  }

  /** Timer.Interval := ms, which rejects an interval that is not positive. */
  function SetInterval(st: EventState, ms: nat): (c: Change)
    ensures ms == 0 <==> c == Change(st, Fail(Argument))
    ensures ms > 0 ==> c == Change(st.(interval := ms), Done)
  {
    if ms == 0 then Change(st, Fail(Argument)) else Change(st.(interval := ms), Done)
  }

  /** SetAfter(ms): stops the timer, sets the new interval and starts it
      again; the flag is untouched. */
  function SetAfter(st: EventState, ms: nat): (c: Change)
    requires st.Valid()
    ensures c.state.Valid() && c.state.flag == st.flag && c.state.disposed == st.disposed
    ensures st.disposed ==> c == Change(st, Fail(ObjectDisposed))
    ensures !st.disposed && ms > 0 ==> c == Change(st.(enabled := true, interval := ms), Done)
    ensures !st.disposed && ms == 0 ==> c == Change(st.(enabled := false), Fail(Argument))
  {
    if st.disposed then Change(st, Fail(ObjectDisposed))
    else
      var c := SetInterval(st.(enabled := false), ms);
      if c.outcome.Fail? then c else Change(c.state.(enabled := true), Done)
  }

  /** ResetAndSetAfter(ms): ResetAndStop, then the new interval, then the
      timer started. */
  function ResetAndSetAfter(st: EventState, ms: nat): (c: Change)
    requires st.Valid()
    ensures c.state.Valid() && c.state.disposed == st.disposed
    ensures st.disposed ==> c == Change(st, Fail(ObjectDisposed))
    ensures !st.disposed && ms > 0 ==> c == Change(EventState(false, true, ms, false), Done)
    ensures !st.disposed && ms == 0 ==> c == Change(st.(flag := false, enabled := false), Fail(Argument))
  {
    if st.disposed then Change(st, Fail(ObjectDisposed))
    else
      var stopped := ResetAndStop(st);
      var c := SetInterval(stopped.state, ms);
      if c.outcome.Fail? then c else Change(c.state.(enabled := true), Done)
  }

  /** SetAndStop: the pending timer is cancelled and the flag set. */
  function SetAndStop(st: EventState): (c: Change)
    requires st.Valid()
    ensures c.state.Valid()
    ensures st.disposed ==> c == Change(st, Fail(ObjectDisposed))
    ensures !st.disposed ==> c == Change(st.(flag := true, enabled := false), Done)
  {
    if st.disposed then Change(st, Fail(ObjectDisposed))
    else Change(st.(flag := true, enabled := false), Done)
  }

  /** ResetAndStop: the pending timer is cancelled and the flag cleared. */
  function ResetAndStop(st: EventState): (c: Change)
    requires st.Valid()
    ensures c.state.Valid()
    ensures st.disposed ==> c == Change(st, Fail(ObjectDisposed))
    ensures !st.disposed ==> c == Change(st.(flag := false, enabled := false), Done)
  {
    if st.disposed then Change(st, Fail(ObjectDisposed))
    else Change(st.(flag := false, enabled := false), Done)
  }

  /** The timer elapsing (ResetTimer_Elapsed): only a running timer fires,
      and being one-shot it is stopped by firing; the flag is set unless
      the event is disposed. */
  function Elapse(st: EventState): (r: EventState)
    requires st.Valid()
    ensures r.Valid() && !r.enabled && r.interval == st.interval && r.disposed == st.disposed
    ensures st.enabled && !st.disposed ==> r.flag
    ensures !st.enabled ==> r == st
    ensures st.disposed ==> r.flag == st.flag
  {
    if !st.enabled then st
    else st.(enabled := false, flag := st.flag || !st.disposed)
  }

  /** Dispose: marks the event disposed and disposes the timer, which
      stops it. */
  function Dispose(st: EventState): (r: EventState)
    requires st.Valid()
    ensures r.Valid() && r.disposed && !r.enabled && r.flag == st.flag
  {
    st.(disposed := true, enabled := false)
  }

  // ---------------------------------------------------------------------
  // Properties

  /** A run of ResetAndSetAfter calls. */
  function Restarts(st: EventState, intervals: seq<nat>): (r: EventState)
    requires st.Valid()
    ensures r.Valid()
    decreases |intervals|
  {
    if |intervals| == 0 then st else Restarts(ResetAndSetAfter(st, intervals[0]).state, intervals[1..])
  }

  /** Debouncing: however many times ResetAndSetAfter is called, the last
      call wins. There is one pending timer, with the last interval, and
      the flag is clear until that timer elapses. */
  lemma {:induction false} LastRestartWins(st: EventState, intervals: seq<nat>)
    requires st.Valid() && !st.disposed && |intervals| > 0
    requires forall k :: 0 <= k < |intervals| ==> intervals[k] > 0
    ensures Restarts(st, intervals) == EventState(false, true, intervals[|intervals| - 1], false)
    decreases |intervals|
  {
    if |intervals| > 1 {
      LastRestartWins(ResetAndSetAfter(st, intervals[0]).state, intervals[1..]);
    }
  }

  /** SetAfter twice is SetAfter with the second interval: a restart
      pushes the expiry forward rather than adding a second timer. */
  lemma SetAfterRestarts(st: EventState, first: nat, second: nat)
    requires st.Valid() && !st.disposed && first > 0 && second > 0
    ensures SetAfter(SetAfter(st, first).state, second) == SetAfter(st, second)
  {
  }

  /** The timer fires once: a second Elapse changes nothing, and the flag
      is then set. */
  lemma ElapseOnce(st: EventState, ms: nat)
    requires st.Valid() && !st.disposed && ms > 0
    ensures Elapse(ResetAndSetAfter(st, ms).state).flag
    ensures Elapse(Elapse(ResetAndSetAfter(st, ms).state)) == Elapse(ResetAndSetAfter(st, ms).state)
  {
  }

  /** Stopping cancels the pending set: after ResetAndStop the timer's
      expiry leaves the flag clear. */
  lemma StopCancelsPendingSet(st: EventState, ms: nat)
    requires st.Valid() && !st.disposed && ms > 0
    ensures !Elapse(ResetAndStop(ResetAndSetAfter(st, ms).state).state).flag
    ensures Elapse(SetAndStop(ResetAndSetAfter(st, ms).state).state).flag
  {
  }

  /** After Dispose every operation throws ObjectDisposedException and
      changes nothing, and the timer no longer sets the flag. */
  lemma DisposedRejectsAll(st: EventState, ms: nat)
    requires st.Valid()
    ensures var d := Dispose(st);
      SetAfter(d, ms) == Change(d, Fail(ObjectDisposed))
      && ResetAndSetAfter(d, ms) == Change(d, Fail(ObjectDisposed))
      && SetAndStop(d) == Change(d, Fail(ObjectDisposed))
      && ResetAndStop(d) == Change(d, Fail(ObjectDisposed))
      && Elapse(d).flag == st.flag
  {
  }
}
