/** The older simulated pin of DummyGpioPin.cs (root directory): plain
    fields for direction, value and active-low, and an auto-reset event
    that a real change of the value sets. */
module LegacyDummyPin {
  import opened Outcomes
  import opened GpioDirection

  const DefaultAssertionTime: nat := 50
  const DefaultDeassertionTime: nat := 50
  const DefaultDebounceTime: nat := 5

  /** The mutable fields; signalled is the state of the change event. */
  datatype DummyState = DummyState(direction: Direction, value: bool, activeLow: bool, signalled: bool, disposed: bool)
  {
    function GetDirection(): (r: Result<Direction>)
      ensures disposed <==> r == Err(ObjectDisposed)
      ensures !disposed ==> r == Ok(direction)
    {
      if disposed then Err(ObjectDisposed) else Ok(direction)
    }

    function SetDirection(d: Direction): (c: Change)
      ensures disposed ==> c == Change(this, Fail(ObjectDisposed))
      ensures !disposed ==> c == Change(this.(direction := d), Done)
    {
      if disposed then Change(this, Fail(ObjectDisposed)) else Change(this.(direction := d), Done)
    }

    function GetActiveLow(): (r: Result<bool>)
      ensures disposed <==> r == Err(ObjectDisposed)
      ensures !disposed ==> r == Ok(activeLow)
    {
      if disposed then Err(ObjectDisposed) else Ok(activeLow)
    }

    function SetActiveLow(a: bool): (c: Change)
      ensures disposed ==> c == Change(this, Fail(ObjectDisposed))
      ensures !disposed ==> c == Change(this.(activeLow := a), Done)
    {
      if disposed then Change(this, Fail(ObjectDisposed)) else Change(this.(activeLow := a), Done)
    }

    function GetValue(): (r: Result<bool>)
      ensures disposed <==> r == Err(ObjectDisposed)
      ensures !disposed ==> r == Ok(value)
    {
      if disposed then Err(ObjectDisposed) else Ok(value)
    }

    /** The Value setter: stores the value, whatever the direction, and sets
        the change event only when the value differs from the old one. */
    function SetValue(v: bool): (c: Change)
      ensures disposed ==> c == Change(this, Fail(ObjectDisposed))
      ensures !disposed ==> (c.outcome == Done && c.state.value == v)
      ensures !disposed ==> c.state.signalled == (signalled || v != value)
      ensures !disposed ==> c.state == this.(value := v, signalled := c.state.signalled)
    {
      if disposed then Change(this, Fail(ObjectDisposed))
      else Change(this.(value := v, signalled := signalled || v != value), Done)
    }

    /** Pulse: the value is set true and, in a finally block, false; a
        cancelled delay throws OperationCanceledException after that. */
    function Pulse(cancelled: bool): (c: Change)
      ensures disposed ==> c == Change(this, Fail(ObjectDisposed))
      ensures !disposed ==> c.outcome == (if cancelled then Fail(OperationCanceled) else Done)
    {
      if disposed then Change(this, Fail(ObjectDisposed))
      else
        var high := SetValue(true);
        var low := high.state.SetValue(false);
        Change(low.state, if cancelled then Fail(OperationCanceled) else Done)
    }

    /** Dispose: the object is marked disposed and its event dropped. */
    function Dispose(): (r: DummyState)
      ensures r.disposed && r.direction == direction && r.value == value && r.activeLow == activeLow
    {
      this.(disposed := true, signalled := false)
    }
  }

  datatype Change = Change(state: DummyState, outcome: Outcome)

  /** The constructor: direction Input and value false unless given. The
      activeLow argument is accepted but not stored, and the change event
      starts unset. */
  function Created(direction: Option<Direction>, activeLow: Option<bool>, initialValue: Option<bool>): (st: DummyState)
    ensures st.direction == (if direction.Some? then direction.value else Input)
    ensures st.value == (initialValue.Some? && initialValue.value)
    ensures !st.activeLow && !st.signalled && !st.disposed
  {
    DummyState(direction.GetOr(Input), initialValue.GetOr(false), false, false, false)
  }

  /** The Pin property: a dummy pin has no number. */
  const DummyPinNumber: int := -1

  /** ToString(). */
  function Describe(name: string): (r: string)
    ensures |r| == 8 + |name| && r[..8] == "[Dummy] " && r[8..] == name
  {
    "[Dummy] " + name
  }

  /** The outcome of WaitForSteadyState: it returns after taking some of
      the writes, waits forever, or throws. */
  datatype WaitOutcome = Returned(taken: nat) | WaitsForever | Threw(error: Error)

  /** The position of the first write of state, if any. */
  function FirstWrite(writes: seq<bool>, state: bool): (r: Option<nat>)
    ensures r.Some? ==> r.value < |writes| && writes[r.value] == state
    ensures r.Some? ==> forall k :: 0 <= k < r.value ==> writes[k] != state
    ensures r.None? ==> forall k :: 0 <= k < |writes| ==> writes[k] != state
    decreases |writes|
  {
    if |writes| == 0 then None
    else if writes[0] == state then Some(0)
    else match FirstWrite(writes[1..], state)
      case None => None
      case Some(k) => Some(k + 1)
  }

  // ---------------------------------------------------------------------
  // Properties

  /** Direction and active-low are plain fields: changing them leaves the
      value and the change event alone. */
  lemma SettingsDoNotTouchValue(st: DummyState, d: Direction, a: bool)
    requires !st.disposed
    ensures st.SetDirection(d).state.GetValue() == st.GetValue() && st.SetDirection(d).state.signalled == st.signalled
    ensures st.SetActiveLow(a).state.GetValue() == st.GetValue() && st.SetActiveLow(a).state.signalled == st.signalled
    ensures st.SetDirection(d).state.GetDirection() == Ok(d) && st.SetActiveLow(a).state.GetActiveLow() == Ok(a)
  {
  }

  /** The value is written whatever the direction, and a write of the same
      value signals nobody. */
  lemma ValueWritesAnyDirection(st: DummyState, v: bool)
    requires !st.disposed && st.direction == Input
    ensures st.SetValue(v).outcome == Done && st.SetValue(v).state.GetValue() == Ok(v)
    ensures st.SetValue(st.value).state == st
  {
  }

  /** A pulse always ends low and always leaves the change event set,
      cancelled or not. */
  lemma PulseEndsLow(st: DummyState, cancelled: bool)
    requires !st.disposed
    ensures st.Pulse(cancelled).state.GetValue() == Ok(false)
    ensures st.Pulse(cancelled).state.signalled
  {
  }

  /** After Dispose every property throws ObjectDisposedException. */
  lemma DisposedRejectsAll(st: DummyState, d: Direction, a: bool, v: bool, cancelled: bool)
    ensures var x := st.Dispose();
      x.GetDirection() == Err(ObjectDisposed) && x.SetDirection(d) == Change(x, Fail(ObjectDisposed))
      && x.GetActiveLow() == Err(ObjectDisposed) && x.SetActiveLow(a) == Change(x, Fail(ObjectDisposed))
      && x.GetValue() == Err(ObjectDisposed) && x.SetValue(v) == Change(x, Fail(ObjectDisposed))
      && x.Pulse(cancelled) == Change(x, Fail(ObjectDisposed))
  {
  }

  // ---------------------------------------------------------------------
  // The object

  class LegacyDummyGpioPin {
    const name: string
    const assertionTime: nat
    const deassertionTime: nat
    const debounceTime: nat
    var direction: Direction
    var value: bool
    var activeLow: bool
    var signalled: bool
    var isDisposed: bool

    function State(): DummyState
      reads this
    {
      DummyState(direction, value, activeLow, signalled, isDisposed)
    }

    constructor (name: string, direction: Option<Direction>, activeLow: Option<bool>, initialValue: Option<bool>,
                 assertionTime: Option<nat>, deassertionTime: Option<nat>, debounceTime: Option<nat>)
      ensures State() == Created(direction, activeLow, initialValue) && this.name == name
      ensures this.assertionTime == assertionTime.GetOr(DefaultAssertionTime)
      ensures this.deassertionTime == deassertionTime.GetOr(DefaultDeassertionTime)
      ensures this.debounceTime == debounceTime.GetOr(DefaultDebounceTime)
    {
      this.name := name;
      this.direction := direction.GetOr(Input);
      this.value := initialValue.GetOr(false);
      this.assertionTime := assertionTime.GetOr(DefaultAssertionTime);
      this.deassertionTime := deassertionTime.GetOr(DefaultDeassertionTime);
      this.debounceTime := debounceTime.GetOr(DefaultDebounceTime);
      this.activeLow := false;
      this.signalled := false;
      this.isDisposed := false;
    }

    method GetValue() returns (r: Result<bool>)
      ensures r == State().GetValue()
    {
      if isDisposed {
        return Err(ObjectDisposed);
      }
      r := Ok(value);
    }

    method SetValue(v: bool) returns (outcome: Outcome)
      modifies this
      ensures State() == old(State()).SetValue(v).state
      ensures outcome == old(State()).SetValue(v).outcome
    {
      if isDisposed {
        return Fail(ObjectDisposed);
      }
      if v != value {
        signalled := true;
      }
      value := v;
      outcome := Done;
    }

    method GetDirection() returns (r: Result<Direction>)
      ensures r == State().GetDirection()
    {
      if isDisposed {
        return Err(ObjectDisposed);
      }
      r := Ok(direction);
    }

    method SetDirection(d: Direction) returns (outcome: Outcome)
      modifies this
      ensures State() == old(State()).SetDirection(d).state
      ensures outcome == old(State()).SetDirection(d).outcome
    {
      if isDisposed {
        return Fail(ObjectDisposed);
      }
      direction := d;
      outcome := Done;
    }

    method GetActiveLow() returns (r: Result<bool>)
      ensures r == State().GetActiveLow()
    {
      if isDisposed {
        return Err(ObjectDisposed);
      }
      r := Ok(activeLow);
    }

    method SetActiveLow(a: bool) returns (outcome: Outcome)
      modifies this
      ensures State() == old(State()).SetActiveLow(a).state
      ensures outcome == old(State()).SetActiveLow(a).outcome
    {
      if isDisposed {
        return Fail(ObjectDisposed);
      }
      activeLow := a;
      outcome := Done;
    }

    method Pulse(cancelled: bool) returns (outcome: Outcome)
      modifies this
      ensures State() == old(State()).Pulse(cancelled).state
      ensures outcome == old(State()).Pulse(cancelled).outcome
    {
      if isDisposed {
        return Fail(ObjectDisposed);
      }
      var _ := SetValue(true);
      var _ := SetValue(false);
      outcome := if cancelled then Fail(OperationCanceled) else Done;
    }

    method Dispose()
      modifies this
      ensures State() == old(State()).Dispose()
    {
      isDisposed := true;
      signalled := false;
    }

    /** WaitForSteadyState(state): while the value differs from state, wait
        for the change event. The values that other callers write while it
        waits are given, in order, as writes: a write that changes the
        value sets the event, which releases the pending wait and so ends
        unset (auto-reset), and the wait then looks at the value again. */
    method WaitForSteadyState(state: bool, writes: seq<bool>) returns (r: WaitOutcome)
      modifies this
      ensures old(isDisposed) ==> r == Threw(ObjectDisposed) && State() == old(State())
      ensures !old(isDisposed) && old(value) == state ==> r == Returned(0) && State() == old(State())
      ensures !old(isDisposed) && old(value) != state && FirstWrite(writes, state).Some? ==>
        r == Returned(FirstWrite(writes, state).value + 1) && value == state && !signalled
      ensures !old(isDisposed) && old(value) != state && FirstWrite(writes, state).None? ==> r == WaitsForever
      ensures isDisposed == old(isDisposed) && direction == old(direction) && activeLow == old(activeLow)
    {
      if isDisposed {
        return Threw(ObjectDisposed);
      }
      var i := 0;
      while value != state
        invariant 0 <= i <= |writes| && !isDisposed
        invariant direction == old(direction) && activeLow == old(activeLow)
        invariant old(value) == state ==> i == 0
        invariant old(value) == state ==> State() == old(State())
        invariant forall k :: 0 <= k < i - 1 ==> writes[k] != state
        invariant value != state ==> forall k :: 0 <= k < i ==> writes[k] != state
        invariant i > 0 ==> value == writes[i - 1]
        invariant i == 0 ==> value == old(value)
        invariant i > 0 ==> !signalled
        decreases |writes| - i, if signalled then 1 else 0
      {
        if signalled {
          signalled := false;
        } else if i < |writes| {
          var _ := SetValue(writes[i]);
          // the pending WaitAsync takes the signal this write may have set
          signalled := false;
          i := i + 1;
        } else {
          return WaitsForever;
        }
      }
      if old(value) != state {
        assert i > 0 && writes[i - 1] == state;
        assert FirstWrite(writes, state) == Some(i - 1);
      }
      r := Returned(i);
    }
  }
}
