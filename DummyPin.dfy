/** The simulated pin of LinuxGpio/DummyGpioPin.cs: settings made before
    Open are cached, Open applies them once, the logical value is the raw
    level XOR active-low, and every raw change is sent to the registered
    pin-change scopes. */
module DummyPin {
  import opened Outcomes
  import opened GpioDirection
  import opened AwaitableQueue
  import opened ChangeScopes

  /** What a setter or Open leaves behind: the new state (a C# exception
      does not undo the assignments made before it) and how the call ended. */
  datatype Change = Change(state: PinState, outcome: Outcome)

  /** The fields of the object: the cached settings (null is None), the two
      flags, the simulated hardware, and the list of scopes. */
  datatype PinState = PinState(
    initialDirection: Option<Direction>, initialActiveLow: Option<bool>, initialValue: Option<bool>,
    isDisposed: bool, isOpened: bool,
    realDirection: Direction, realActiveLow: bool, realValue: bool,
    scopes: Registry)
  {
    predicate Valid() {
      WellFormed(scopes)
    }

    /** GetValueInternal: the raw level read through the active-low inversion. */
    function Logical(): bool {
      realValue != realActiveLow
    }

    /** GetDirectionInternal and GetActiveLowInternal read the simulated
        hardware; SetActiveLowInternal writes it. */
    function SetActiveLowInternal(a: bool): (r: PinState)
      ensures r.realActiveLow == a && r.scopes == scopes && r.realValue == realValue
    {
      this.(realActiveLow := a)
    }

    /** SetValueInternal: only an output can be written. The raw level
        becomes v XOR active-low and, when it changed, every scope is told
        the logical value v. The Direction getter it calls is on an open,
        live pin at every call site, so it reads realDirection. */
    function SetValueInternal(v: bool): (r: Change)
      requires Valid()
      ensures r.state.Valid()
      ensures realDirection == Input ==> r == Change(this, Fail(InvalidOperation))
      ensures realDirection == Output ==> r.outcome == Done && r.state.Logical() == v
      ensures r.state.scopes == (if realDirection == Output && v != Logical() then Notify(scopes, v) else scopes)
    {
      if realDirection == Output then
        var raw := v != realActiveLow;
        Change(this.(realValue := raw, scopes := if raw != realValue then Notify(scopes, v) else scopes), Done)
      else Change(this, Fail(InvalidOperation))
    }

    /** SetDirectionInternal(direction, initialValue): sets the direction and,
        for an output with a known level, writes that level. */
    function SetDirectionInternal(direction: Direction, level: Option<bool>): (r: Change)
      requires Valid()
      ensures r.state.Valid() && r.outcome == Done && r.state.realDirection == direction
      ensures direction == Output && level.Some? ==> r.state.Logical() == level.value
      ensures !(direction == Output && level.Some?) ==> r.state == this.(realDirection := direction)
    {
      var s := this.(realDirection := direction);
      if level.Some? && direction == Output then s.SetValueInternal(level.value) else Change(s, Done)
    }

    /** Open: fails when isDisposed or already open; otherwise marks the pin
        open, applies the cached active-low, then the cached direction
        together with the cached value. */
    function Open(): (r: Change)
      requires Valid()
      ensures r.state.Valid()
      ensures isDisposed ==> r == Change(this, Fail(ObjectDisposed))
      ensures !isDisposed && isOpened ==> r == Change(this, Fail(InvalidOperation))
      ensures !isDisposed && !isOpened ==> r.outcome == Done && r.state.isOpened
    {
      if isDisposed then Change(this, Fail(ObjectDisposed))
      else if isOpened then Change(this, Fail(InvalidOperation))
      else
        var s := this.(isOpened := true);
        var s' := if initialActiveLow.Some? then s.SetActiveLowInternal(initialActiveLow.value) else s;
        if initialDirection.Some? then s'.SetDirectionInternal(initialDirection.value, initialValue)
        else Change(s', Done)
    }

    /** The Direction getter: the cached direction (Input when none) before
        Open, the simulated hardware after. */
    function GetDirection(): (r: Result<Direction>)
      ensures isDisposed <==> r == Err(ObjectDisposed)
    {
      if isDisposed then Err(ObjectDisposed)
      else if !isOpened then Ok(initialDirection.GetOr(Input))
      else Ok(realDirection)
    }

    /** The Direction setter: caches the direction, and on an open pin applies
        it with the cached value. */
    function SetDirection(d: Direction): (r: Change)
      requires Valid()
      ensures r.state.Valid()
      ensures isDisposed ==> r == Change(this, Fail(ObjectDisposed))
      ensures !isDisposed ==> r.outcome == Done && r.state.initialDirection == Some(d)
      ensures !isDisposed && !isOpened ==> r.state == this.(initialDirection := Some(d))
    {
      if isDisposed then Change(this, Fail(ObjectDisposed))
      else
        var s := this.(initialDirection := Some(d));
        if s.isOpened then s.SetDirectionInternal(d, initialValue) else Change(s, Done)
    }

    function GetActiveLow(): (r: Result<bool>)
      ensures isDisposed <==> r == Err(ObjectDisposed)
    {
      if isDisposed then Err(ObjectDisposed)
      else if !isOpened then Ok(initialActiveLow.GetOr(false))
      else Ok(realActiveLow)
    }

    /** The ActiveLow setter: caches it, and on an open pin changes the
        inversion at once, without writing the level or telling any scope. */
    function SetActiveLow(a: bool): (r: Change)
      requires Valid()
      ensures r.state.Valid()
      ensures isDisposed ==> r == Change(this, Fail(ObjectDisposed))
      ensures !isDisposed ==> r.outcome == Done && r.state.initialActiveLow == Some(a) && r.state.scopes == scopes
      ensures !isDisposed && !isOpened ==> r.state == this.(initialActiveLow := Some(a))
    {
      if isDisposed then Change(this, Fail(ObjectDisposed))
      else
        var s := this.(initialActiveLow := Some(a));
        if s.isOpened then Change(s.SetActiveLowInternal(a), Done) else Change(s, Done)
    }

    function GetValue(): (r: Result<bool>)
      ensures isDisposed <==> r == Err(ObjectDisposed)
    {
      if isDisposed then Err(ObjectDisposed)
      else if !isOpened then Ok(initialValue.GetOr(false))
      else Ok(Logical())
    }

    /** The Value setter: caches the value first, then on an open pin writes
        it, which throws for an input, leaving the cache overwritten. */
    function SetValue(v: bool): (r: Change)
      requires Valid()
      ensures r.state.Valid()
      ensures isDisposed ==> r == Change(this, Fail(ObjectDisposed))
      ensures !isDisposed ==> r.state.initialValue == Some(v)
      ensures !isDisposed && !isOpened ==> r == Change(this.(initialValue := Some(v)), Done)
    {
      if isDisposed then Change(this, Fail(ObjectDisposed))
      else
        var s := this.(initialValue := Some(v));
        if s.isOpened then s.SetValueInternal(v) else Change(s, Done)
    }

    /** Dispose: marks the pin isDisposed and disposes the scopes in a foreach
        over the list. Disposing a scope removes it from that list, so the
        enumerator's next step throws InvalidOperationException: only the
        first scope goes, and the exception escapes. */
    function Dispose(): (r: Change)
      requires Valid()
      ensures r.state.Valid() && r.state.isDisposed
      ensures |scopes| == 0 <==> r.outcome == Done
      ensures |scopes| > 0 ==> r.outcome == Fail(InvalidOperation) && r.state.scopes == scopes[1..]
    {
      var s := this.(isDisposed := true);
      if |scopes| == 0 then Change(s, Done)
      else
        assert Distinct(scopes[1..]) by {
          forall i, j | 0 <= i < j < |scopes| - 1 ensures scopes[1..][i].id != scopes[1..][j].id {
            assert scopes[1..][i] == scopes[i + 1] && scopes[1..][j] == scopes[j + 1];
          }
        }
        Change(s.(scopes := scopes[1..]), Fail(InvalidOperation))
    }
  }

  /** A pin just constructed: nothing cached, not open, the simulated
      hardware an input at low level, no scopes. */
  function Created(): (s: PinState)
    ensures s.Valid() && !s.isDisposed && !s.isOpened && |s.scopes| == 0
    ensures s.initialDirection == None && s.initialActiveLow == None && s.initialValue == None
    ensures s.realDirection == Input && !s.realActiveLow && !s.realValue
  {
    PinState(None, None, None, false, false, Input, false, false, [])
  }

  // ---------------------------------------------------------------------
  // Properties relating several calls

  /** Before Open, reads give the cached setting or the defaults Input,
      false, false, and writes touch only the cache. */
  lemma UnopenedReadsCache(s: PinState, d: Direction, a: bool, v: bool)
    requires s.Valid() && !s.isDisposed && !s.isOpened
    ensures s.GetDirection() == Ok(s.initialDirection.GetOr(Input))
    ensures s.GetActiveLow() == Ok(s.initialActiveLow.GetOr(false))
    ensures s.GetValue() == Ok(s.initialValue.GetOr(false))
    ensures s.SetDirection(d).state.GetDirection() == Ok(d)
    ensures s.SetActiveLow(a).state.GetActiveLow() == Ok(a)
    ensures s.SetValue(v).state.GetValue() == Ok(v)
  {
  }

  /** What Open applies: the cached active-low first, then the cached
      direction; the cached level is written only to an output, and then
      reads back as that level. Nothing cached leaves the simulated
      hardware as it was. */
  lemma OpenApplies(s: PinState)
    requires s.Valid() && !s.isDisposed && !s.isOpened
    ensures s.Open().state.realActiveLow == s.initialActiveLow.GetOr(s.realActiveLow)
    ensures s.Open().state.realDirection == s.initialDirection.GetOr(s.realDirection)
    ensures s.initialDirection == Some(Output) && s.initialValue.Some? ==> s.Open().state.GetValue() == Ok(s.initialValue.value)
    ensures !(s.initialDirection == Some(Output) && s.initialValue.Some?) ==> s.Open().state.realValue == s.realValue
  {
  }

  /** Open is one-way: once it has succeeded, every further Open fails. */
  lemma OpenOnce(s: PinState)
    requires s.Valid() && s.Open().outcome == Done
    ensures s.Open().state.Open() == Change(s.Open().state, Fail(InvalidOperation))
  {
  }

  /** On an open output, a written value reads back, whatever active-low is. */
  lemma ValueReadsBack(s: PinState, v: bool)
    requires s.Valid() && !s.isDisposed && s.isOpened && s.realDirection == Output
    ensures s.SetValue(v).outcome == Done
    ensures s.SetValue(v).state.GetValue() == Ok(v)
  {
  }

  /** On an open input the write throws InvalidOperationException, but the
      cached value has already been replaced. */
  lemma InputWriteThrows(s: PinState, v: bool)
    requires s.Valid() && !s.isDisposed && s.isOpened && s.realDirection == Input
    ensures s.SetValue(v) == Change(s.(initialValue := Some(v)), Fail(InvalidOperation))
  {
  }

  /** A write on an open output tells the scopes exactly when the logical
      value changes: each gets v once, in list order, and writing the value
      the pin already has tells nobody. */
  lemma WriteNotifiesOnChange(s: PinState, v: bool)
    requires s.Valid() && !s.isDisposed && s.isOpened && s.realDirection == Output
    ensures v != s.Logical() ==> s.SetValue(v).state.scopes == Notify(s.scopes, v)
    ensures v == s.Logical() ==> s.SetValue(v).state.scopes == s.scopes
  {
  }

  /** Changing ActiveLow on an open pin inverts the read value when it
      changes the inversion, and tells no scope. */
  lemma ActiveLowFlipsSilently(s: PinState, a: bool)
    requires s.Valid() && !s.isDisposed && s.isOpened
    ensures s.SetActiveLow(a).state.scopes == s.scopes
    ensures s.SetActiveLow(a).state.GetValue() == Ok(if a == s.realActiveLow then s.Logical() else !s.Logical())
  {
  }

  /** After Dispose every accessor throws ObjectDisposedException and
      changes nothing. */
  lemma DisposedRejectsAll(s: PinState, d: Direction, a: bool, v: bool)
    requires s.Valid()
    ensures var t := s.Dispose().state;
      t.Open() == Change(t, Fail(ObjectDisposed))
      && t.GetDirection() == Err(ObjectDisposed) && t.SetDirection(d) == Change(t, Fail(ObjectDisposed))
      && t.GetActiveLow() == Err(ObjectDisposed) && t.SetActiveLow(a) == Change(t, Fail(ObjectDisposed))
      && t.GetValue() == Err(ObjectDisposed) && t.SetValue(v) == Change(t, Fail(ObjectDisposed))
  {
  }

  // ---------------------------------------------------------------------
  // Waiting for a value

  /** The position of the first x in xs. */
  function FirstMatch(xs: seq<bool>, x: bool): (r: Option<nat>)
    ensures r.Some? ==> r.value < |xs| && xs[r.value] == x && forall j :: 0 <= j < r.value ==> xs[j] != x
    ensures r.None? ==> forall j :: 0 <= j < |xs| ==> xs[j] != x
    decreases |xs|
  {
    if |xs| == 0 then None
    else if xs[0] == x then Some(0)
    else match FirstMatch(xs[1..], x)
      case None => None
      case Some(k) => Some(k + 1)
  }

  /** How WaitForValue ends: it returns after taking n changes from its
      scope, it waits for ever, or it throws. */
  datatype WaitOutcome = Returned(taken: nat) | WaitsForever | Threw(error: Error)

  /** The pin object. The scopes' queues are values held in the list. */
  class DummyGpioPin {
    const pin: int
    const name: string
    var initialDirection: Option<Direction>
    var initialActiveLow: Option<bool>
    var initialValue: Option<bool>
    var isDisposed: bool
    var isOpened: bool
    var realGpioDirection: Direction
    var realActiveLow: bool
    var realValue: bool
    var scopes: Registry

    function State(): PinState
      reads this
    {
      PinState(initialDirection, initialActiveLow, initialValue, isDisposed, isOpened,
               realGpioDirection, realActiveLow, realValue, scopes)
    }

    predicate Valid()
      reads this
    {
      State().Valid()
    }

    constructor (pin: int, name: string)
      ensures State() == Created() && this.pin == pin && this.name == name
    {
      this.pin := pin;
      this.name := name;
      initialDirection, initialActiveLow, initialValue := None, None, None;
      isDisposed, isOpened := false, false;
      realGpioDirection, realActiveLow, realValue := Input, false, false;
      scopes := [];
    }

    /** NotifyAllScopesOfPinChange(v). */
    method NotifyAllScopesOfPinChange(v: bool)
      requires Valid()
      modifies this
      ensures State() == old(State()).(scopes := Notify(old(scopes), v))
      ensures Valid()
    {
      scopes := NotifyAll(scopes, v);
    }

    method SetValueInternal(v: bool) returns (outcome: Outcome)
      requires Valid()
      modifies this
      ensures State() == old(State()).SetValueInternal(v).state && outcome == old(State()).SetValueInternal(v).outcome
      ensures Valid()
    {
      if realGpioDirection == Output {
        var oldValue := realValue;
        var newValue := v != realActiveLow;
        realValue := newValue;
        if oldValue != newValue {
          NotifyAllScopesOfPinChange(v);
        }
        outcome := Done;
      } else {
        outcome := Fail(InvalidOperation);
      }
    }

    method SetDirectionInternal(direction: Direction, level: Option<bool>) returns (outcome: Outcome)
      requires Valid()
      modifies this
      ensures State() == old(State()).SetDirectionInternal(direction, level).state
      ensures outcome == old(State()).SetDirectionInternal(direction, level).outcome
      ensures Valid()
    {
      realGpioDirection := direction;
      outcome := Done;
      if level.Some? && direction == Output {
        outcome := SetValueInternal(level.value);
      }
    }

    method Open() returns (outcome: Outcome)
      requires Valid()
      modifies this
      ensures State() == old(State()).Open().state && outcome == old(State()).Open().outcome
      ensures Valid()
    {
      if isDisposed {
        return Fail(ObjectDisposed);
      }
      if isOpened {
        return Fail(InvalidOperation);
      }
      isOpened := true;
      if initialActiveLow.Some? {
        realActiveLow := initialActiveLow.value;
      }
      outcome := Done;
      if initialDirection.Some? {
        outcome := SetDirectionInternal(initialDirection.value, initialValue);
      }
    }

    method GetDirection() returns (r: Result<Direction>)
      ensures r == State().GetDirection()
    {
      if isDisposed {
        return Err(ObjectDisposed);
      }
      if !isOpened {
        return Ok(initialDirection.GetOr(Input));
      }
      r := Ok(realGpioDirection);
    }

    method SetDirection(d: Direction) returns (outcome: Outcome)
      requires Valid()
      modifies this
      ensures State() == old(State()).SetDirection(d).state && outcome == old(State()).SetDirection(d).outcome
      ensures Valid()
    {
      if isDisposed {
        return Fail(ObjectDisposed);
      }
      initialDirection := Some(d);
      outcome := Done;
      if isOpened {
        outcome := SetDirectionInternal(d, initialValue);
      }
    }

    method GetActiveLow() returns (r: Result<bool>)
      ensures r == State().GetActiveLow()
    {
      if isDisposed {
        return Err(ObjectDisposed);
      }
      if !isOpened {
        return Ok(initialActiveLow.GetOr(false));
      }
      r := Ok(realActiveLow);
    }

    method SetActiveLow(a: bool) returns (outcome: Outcome)
      requires Valid()
      modifies this
      ensures State() == old(State()).SetActiveLow(a).state && outcome == old(State()).SetActiveLow(a).outcome
      ensures Valid()
    {
      if isDisposed {
        return Fail(ObjectDisposed);
      }
      initialActiveLow := Some(a);
      if isOpened {
        realActiveLow := a;
      }
      outcome := Done;
    }

    method GetValue() returns (r: Result<bool>)
      ensures r == State().GetValue()
    {
      if isDisposed {
        return Err(ObjectDisposed);
      }
      if !isOpened {
        return Ok(initialValue.GetOr(false));
      }
      r := Ok(realValue != realActiveLow);
    }

    method SetValue(v: bool) returns (outcome: Outcome)
      requires Valid()
      modifies this
      ensures State() == old(State()).SetValue(v).state && outcome == old(State()).SetValue(v).outcome
      ensures Valid()
    {
      if isDisposed {
        return Fail(ObjectDisposed);
      }
      initialValue := Some(v);
      outcome := Done;
      if isOpened {
        outcome := SetValueInternal(v);
      }
    }

    /** CreateAndRegisterPinChangedScope. */
    method CreateAndRegisterPinChangedScope() returns (id: nat)
      requires Valid()
      modifies this
      ensures (id, scopes) == Register(old(scopes))
      ensures State() == old(State()).(scopes := scopes)
      ensures Valid()
    {
      id := FreshId(scopes);
      scopes := scopes + [Scope(id, Empty())];
    }

    /** DeregisterPinChangeScope; the scope's Dispose then disposes its own queue. */
    method DeregisterPinChangeScope(id: nat)
      requires Valid()
      modifies this
      ensures State() == old(State()).(scopes := Deregister(old(scopes), id))
      ensures Valid()
    {
      if Registered(scopes, id) {
        DeregisterOnlyThat(scopes, id);
      }
      scopes := Deregister(scopes, id);
    }

    method Dispose() returns (outcome: Outcome)
      requires Valid()
      modifies this
      ensures State() == old(State()).Dispose().state && outcome == old(State()).Dispose().outcome
      ensures Valid()
    {
      isDisposed := true;
      outcome := Done;
      if |scopes| > 0 {
        var first := scopes[0];
        DeregisterPinChangeScope(first.id);
        outcome := Fail(InvalidOperation);
      }
    }

    /** WaitForValue(state, timeout): registers a scope, takes changes from
        it until one equals state, then disposes the scope. The timeout is
        not used: every wait is infinite. The changes that other writers
        deliver to the scope while it waits are given as arrivals. */
    method WaitForValue(state: bool, timeout: Timeout, arrivals: seq<bool>) returns (r: WaitOutcome)
      requires Valid()
      modifies this
      ensures Valid()
      ensures old(isDisposed) ==> r == Threw(ObjectDisposed) && State() == old(State())
      ensures !old(isDisposed) && FirstMatch(arrivals, state).Some? ==>
        r == Returned(FirstMatch(arrivals, state).value + 1) && State() == old(State())
      ensures !old(isDisposed) && FirstMatch(arrivals, state).None? ==>
        r == WaitsForever && State() == old(State()).(scopes := old(scopes) + [Scope(FreshId(old(scopes)), Empty())])
    {
      if isDisposed {
        return Threw(ObjectDisposed);
      }
      var id := CreateAndRegisterPinChangedScope();
      var taken := TakeUntil(state, arrivals);
      if taken.None? {
        return WaitsForever;
      }
      RegisterThenDeregister(old(scopes));
      DeregisterPinChangeScope(id);
      r := Returned(taken.value);
    }
  }

  /** The loop of WaitForValue over the scope's queue, filled with the
      arrivals: each infinite wait takes the next change, until one equals
      state (Some of the number taken) or the queue runs dry and the wait
      never returns (None). */
  method TakeUntil(state: bool, arrivals: seq<bool>) returns (taken: Option<nat>)
    ensures FirstMatch(arrivals, state).Some? ==> taken == Some(FirstMatch(arrivals, state).value + 1)
    ensures FirstMatch(arrivals, state).None? ==> taken == None
  {
    var q: QueueState<bool> := QueueState(arrivals, |arrivals|, false);
    var n := 0;
    while true
      invariant 0 <= n <= |arrivals|
      invariant q == QueueState(arrivals[n..], |arrivals| - n, false)
      invariant forall j :: 0 <= j < n ==> arrivals[j] != state
      decreases |arrivals| - n
    {
      var step := WaitAndDequeueStep(q, Infinite, false);
      if step.Blocks? {
        assert n == |arrivals|;
        return None;
      }
      assert |q.items| > 0 && step == Dequeued(q.items[0], QueueState(q.items[1..], q.permits - 1, false));
      q := step.after;
      assert step.item == arrivals[n];
      assert arrivals[n..][1..] == arrivals[n + 1..];
      n := n + 1;
      if step.item == state {
        assert FirstMatch(arrivals, state).Some? && FirstMatch(arrivals, state).value == n - 1;
        return Some(n);
      }
    }
  }
}
