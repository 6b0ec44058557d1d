/** The sysfs pin of LinuxGpio/LinuxGPIOPin.cs: settings made before Open
    are cached, Open exports or checks the pin and applies them, reads and
    writes go to the pin's attribute files, and a monitor task, running
    while any pin-change scope is registered, turns value changes into
    notifications. Tasks are replaced by explicit steps of the monitor. */
module LinuxPin {
  import opened Outcomes
  import opened Text
  import opened GpioDirection
  import opened AwaitableQueue
  import opened ChangeScopes
  import opened Sysfs
  import opened NotifyWait

  /** The monitor task (pinMonitorTask): scheduled but not yet run, polling
      against a baseline, watching inotifywait output, or ended by an
      exception that is rethrown when the task is awaited. */
  datatype Monitor = Starting | Polling(previous: bool) | Watching | Faulted(error: Error)

  /** The fields of the object. */
  datatype PinState = PinState(
    pin: int,
    initialDirection: Option<Direction>, initialActiveLow: Option<bool>, initialValue: Option<bool>,
    isDisposed: bool, isOpened: bool,
    exportOnOpen: bool, unexportOnDispose: bool, useInotify: bool,
    scopes: Registry, monitor: Option<Monitor>)

  /** The result of a call that may change the pin or the files. */
  datatype Step = Step(world: World, outcome: Outcome)

  /** The pin together with the file tree it works on. */
  datatype World = World(pin: PinState, fs: FileSystem)
  {
    /** The scopes are well formed, a monitor task exists whenever a scope
        is registered, and with no scope registered no task is running
        (one that failed may be left behind). */
    predicate Valid() {
      WellFormed(pin.scopes)
      && (|pin.scopes| > 0 ==> pin.monitor.Some?)
      && (|pin.scopes| == 0 && pin.monitor.Some? ==> pin.monitor.value.Faulted?)
    }

    function WithPin(p: PinState): World { World(p, fs) }

    // --- reading and writing the attribute files

    /** GetDirectionInternal. */
    function GetDirectionInternal(): (r: Result<Direction>)
      ensures DirectionPath(pin.pin) !in fs.files ==> r == Err(IOFailure)
      ensures DirectionPath(pin.pin) in fs.files ==> r == DecodeDirection(fs.files[DirectionPath(pin.pin)])
    {
      match Read(fs, DirectionPath(pin.pin))
      case Err(e) => Err(e)
      case Ok(text) => DecodeDirection(text)
    }

    /** SetDirectionInternal(direction, level): writes the direction text,
        which carries the level for an output with a known level; for an
        input it then asks for edge detection on both edges, ignoring a
        failure. A failed direction write throws and writes nothing else. */
    function SetDirectionInternal(direction: Direction, level: Option<bool>): (r: Step)
      ensures r.world.pin == pin
      ensures DirectionPath(pin.pin) !in fs.files <==> r == Step(this, Fail(IOFailure))
      ensures DirectionPath(pin.pin) in fs.files ==>
        (r.outcome == Done && Read(r.world.fs, DirectionPath(pin.pin)) == Ok(ToDirectionString(direction, level)))
      ensures DirectionPath(pin.pin) in fs.files && direction == Input && EdgePath(pin.pin) in fs.files ==>
        Read(r.world.fs, EdgePath(pin.pin)) == Ok("both")
      ensures direction == Output ==> Read(r.world.fs, EdgePath(pin.pin)) == Read(fs, EdgePath(pin.pin))
    {
      match Write(fs, DirectionPath(pin.pin), ToDirectionString(direction, level))
      case Err(e) => Step(this, Fail(e))
      case Ok(fs1) =>
        AttributesDistinct(pin.pin);
        if direction == Input then Step(World(pin, TryWrite(fs1, EdgePath(pin.pin), "both")), Done)
        else Step(World(pin, fs1), Done)
    }

    /** GetActiveLowInternal. */
    function GetActiveLowInternal(): (r: Result<bool>)
      ensures ActiveLowPath(pin.pin) !in fs.files ==> r == Err(IOFailure)
      ensures ActiveLowPath(pin.pin) in fs.files ==> r == DecodeBool(fs.files[ActiveLowPath(pin.pin)])
    {
      match Read(fs, ActiveLowPath(pin.pin))
      case Err(e) => Err(e)
      case Ok(text) => DecodeBool(text)
    }

    /** SetActiveLowInternal: writes "1" or "0", ignoring a failure. */
    function SetActiveLowInternal(a: bool): (r: World)
      ensures r.pin == pin && r.fs == TryWrite(fs, ActiveLowPath(pin.pin), BoolText(a))
    {
      World(pin, TryWrite(fs, ActiveLowPath(pin.pin), BoolText(a)))
    }

    /** GetValueInternal. */
    function GetValueInternal(): (r: Result<bool>)
      ensures ValuePath(pin.pin) !in fs.files ==> r == Err(IOFailure)
      ensures ValuePath(pin.pin) in fs.files ==> r == DecodeBool(fs.files[ValuePath(pin.pin)])
    {
      match Read(fs, ValuePath(pin.pin))
      case Err(e) => Err(e)
      case Ok(text) => DecodeBool(text)
    }

    /** SetValueInternal(v): asks the Direction getter, which on an open pin
        reads the direction file again, and writes "1" or "0" only when it
        says Output; otherwise it throws, an input giving
        InvalidOperationException. */
    function SetValueInternal(v: bool): (r: Step)
      ensures r.world.pin == pin
      ensures GetDirection() == Ok(Output) ==> r.outcome == Done || r.outcome == Fail(IOFailure)
      ensures GetDirection() == Ok(Output) && r.outcome == Done ==> Read(r.world.fs, ValuePath(pin.pin)) == Ok(BoolText(v))
      ensures GetDirection() != Ok(Output) ==> r.world == this && r.outcome.Fail?
      ensures GetDirection() == Ok(Input) ==> r.outcome == Fail(InvalidOperation)
    {
      match GetDirection()
      case Err(e) => Step(this, Fail(e))
      case Ok(d) =>
        if d == Output then
          match Write(fs, ValuePath(pin.pin), BoolText(v))
          case Err(e) => Step(this, Fail(e))
          case Ok(fs1) => Step(World(pin, fs1), Done)
        else Step(this, Fail(InvalidOperation))
    }

    // --- the public members

    /** Open(created): created is the kernel's answer to an export request. */
    function Open(created: bool): (r: Step)
      requires Valid()
      ensures r.world.Valid() && r.world.pin.scopes == pin.scopes
      ensures pin.isDisposed ==> r == Step(this, Fail(ObjectDisposed))
      ensures !pin.isDisposed && pin.isOpened ==> r == Step(this, Fail(InvalidOperation))
      ensures !pin.isDisposed && !pin.isOpened && PinExported(fs, pin.pin) && !(pin.useInotify && INotifyWaitPath !in fs.files) ==>
        r.world.pin == pin.(isOpened := true) && (pin.initialDirection.None? ==> r.outcome == Done)
      ensures !pin.isDisposed && !pin.isOpened && !pin.exportOnOpen && !PinExported(fs, pin.pin) ==>
        r == Step(this, Fail(DirectoryNotFound))
    {
      if pin.isDisposed then Step(this, Fail(ObjectDisposed))
      else if pin.isOpened then Step(this, Fail(InvalidOperation))
      else
        var checked := CheckExported(created);
        if checked.outcome.Fail? then checked else checked.world.ApplySettings()
    }

    /** The checks of Open before anything is written to the pin: export
        on request (TryEnablePin) or insist on an exported pin
        (EnsurePinIsExported), then the availability of inotifywait when
        it is to be used. */
    function CheckExported(created: bool): (r: Step)
      ensures r.world.pin == pin
      ensures r.outcome == Done <==> PinExported(r.world.fs, pin.pin) && !(pin.useInotify && INotifyWaitPath !in fs.files)
      ensures r.outcome.Fail? ==> r.outcome.error == (if PinExported(r.world.fs, pin.pin) || pin.exportOnOpen then InvalidOperation else DirectoryNotFound)
      ensures pin.exportOnOpen && !PinExported(fs, pin.pin) ==> r.world.fs == RequestExport(fs, pin.pin, created)
      ensures !(pin.exportOnOpen && !PinExported(fs, pin.pin)) ==> r.world.fs == fs
    {
      var w1 := if pin.exportOnOpen && !PinExported(fs, pin.pin) then World(pin, RequestExport(fs, pin.pin, created)) else this;
      assert INotifyWaitPath in w1.fs.files <==> INotifyWaitPath in fs.files by {
        assert Read(w1.fs, INotifyWaitPath) == Read(fs, INotifyWaitPath);
      }
      if !PinExported(w1.fs, pin.pin) then
        Step(w1, Fail(if pin.exportOnOpen then InvalidOperation else DirectoryNotFound))
      else if pin.useInotify && INotifyWaitPath !in w1.fs.files then
        Step(w1, Fail(InvalidOperation))
      else Step(w1, Done)
    }

    /** The rest of Open: the pin counts as open from here on, even if the
        direction write that follows throws; active_low is applied before
        the direction, which carries the cached value. */
    function ApplySettings(): (r: Step)
      requires Valid()
      ensures r.world.Valid() && r.world.pin == pin.(isOpened := true)
      ensures pin.initialDirection.None? ==> r.outcome == Done
    {
      var w2 := WithPin(pin.(isOpened := true));
      var w3 := if pin.initialActiveLow.Some? then w2.SetActiveLowInternal(pin.initialActiveLow.value) else w2;
      if pin.initialDirection.Some? then w3.SetDirectionInternal(pin.initialDirection.value, pin.initialValue)
      else Step(w3, Done)
    }

    /** The Direction getter. */
    function GetDirection(): (r: Result<Direction>)
      ensures pin.isDisposed <==> r == Err(ObjectDisposed)
      ensures !pin.isDisposed && !pin.isOpened ==> r == Ok(pin.initialDirection.GetOr(Input))
      ensures !pin.isDisposed && pin.isOpened ==> r == GetDirectionInternal()
    {
      if pin.isDisposed then Err(ObjectDisposed)
      else if !pin.isOpened then Ok(pin.initialDirection.GetOr(Input))
      else GetDirectionInternal()
    }

    /** The Direction setter: caches the direction, and on an open pin
        writes it with the cached value. */
    function SetDirection(d: Direction): (r: Step)
      requires Valid()
      ensures r.world.Valid()
      ensures pin.isDisposed ==> r == Step(this, Fail(ObjectDisposed))
      ensures !pin.isDisposed ==> r.world.pin == pin.(initialDirection := Some(d))
      ensures !pin.isDisposed && !pin.isOpened ==> r.world.fs == fs && r.outcome == Done
    {
      if pin.isDisposed then Step(this, Fail(ObjectDisposed))
      else
        var w := WithPin(pin.(initialDirection := Some(d)));
        if pin.isOpened then w.SetDirectionInternal(d, pin.initialValue) else Step(w, Done)
    }

    function GetActiveLow(): (r: Result<bool>)
      ensures pin.isDisposed <==> r == Err(ObjectDisposed)
      ensures !pin.isDisposed && !pin.isOpened ==> r == Ok(pin.initialActiveLow.GetOr(false))
      ensures !pin.isDisposed && pin.isOpened ==> r == GetActiveLowInternal()
    {
      if pin.isDisposed then Err(ObjectDisposed)
      else if !pin.isOpened then Ok(pin.initialActiveLow.GetOr(false))
      else GetActiveLowInternal()
    }

    function SetActiveLow(a: bool): (r: Step)
      requires Valid()
      ensures r.world.Valid()
      ensures pin.isDisposed ==> r == Step(this, Fail(ObjectDisposed))
      ensures !pin.isDisposed ==> r.outcome == Done && r.world.pin == pin.(initialActiveLow := Some(a))
      ensures !pin.isDisposed && !pin.isOpened ==> r.world.fs == fs
      ensures !pin.isDisposed && pin.isOpened ==> r.world.fs == TryWrite(fs, ActiveLowPath(pin.pin), BoolText(a))
    {
      if pin.isDisposed then Step(this, Fail(ObjectDisposed))
      else
        var w := WithPin(pin.(initialActiveLow := Some(a)));
        if pin.isOpened then Step(w.SetActiveLowInternal(a), Done) else Step(w, Done)
    }

    function GetValue(): (r: Result<bool>)
      ensures pin.isDisposed <==> r == Err(ObjectDisposed)
      ensures !pin.isDisposed && !pin.isOpened ==> r == Ok(pin.initialValue.GetOr(false))
      ensures !pin.isDisposed && pin.isOpened ==> r == GetValueInternal()
    {
      if pin.isDisposed then Err(ObjectDisposed)
      else if !pin.isOpened then Ok(pin.initialValue.GetOr(false))
      else GetValueInternal()
    }

    /** The Value setter: the cache is updated first, then an open pin is written. */
    function SetValue(v: bool): (r: Step)
      requires Valid()
      ensures r.world.Valid()
      ensures pin.isDisposed ==> r == Step(this, Fail(ObjectDisposed))
      ensures !pin.isDisposed ==> r.world.pin == pin.(initialValue := Some(v))
      ensures !pin.isDisposed && !pin.isOpened ==> r.world.fs == fs && r.outcome == Done
    {
      if pin.isDisposed then Step(this, Fail(ObjectDisposed))
      else
        var w := WithPin(pin.(initialValue := Some(v)));
        if pin.isOpened then w.SetValueInternal(v) else Step(w, Done)
    }

    // --- scopes and the monitor

    /** CreateAndRegisterPinChangedScope: a register into an empty list
        starts a new monitor task first. */
    function RegisterScope(): (r: (nat, World))
      requires Valid()
      ensures r.1.Valid() && r.1.fs == fs
      ensures (r.0, r.1.pin.scopes) == Register(pin.scopes)
      ensures r.1.pin == pin.(scopes := r.1.pin.scopes, monitor := r.1.pin.monitor)
      ensures |pin.scopes| == 0 ==> r.1.pin.monitor == Some(Starting)
      ensures |pin.scopes| > 0 ==> r.1.pin.monitor == pin.monitor
    {
      var (id, reg) := Register(pin.scopes);
      (id, WithPin(pin.(scopes := reg, monitor := if |pin.scopes| == 0 then Some(Starting) else pin.monitor)))
    }

    /** DeregisterPinChangeScope: when the removal succeeds and leaves the
        list empty, the monitor task is cancelled and awaited. Its
        cancellation is swallowed, but an exception it ended with is
        rethrown and the task is then left in place. */
    function DeregisterScope(id: nat): (r: Step)
      requires Valid()
      ensures r.world.Valid() && r.world.fs == fs
      ensures r.world.pin.scopes == Deregister(pin.scopes, id)
      ensures !Registered(pin.scopes, id) ==> r == Step(this, Done)
      ensures |r.world.pin.scopes| > 0 ==> r.world.pin.monitor == pin.monitor && r.outcome == Done
      ensures Registered(pin.scopes, id) && |r.world.pin.scopes| == 0 && !(pin.monitor.Some? && pin.monitor.value.Faulted?) ==>
        r.world.pin.monitor == None && r.outcome == Done
      ensures Registered(pin.scopes, id) && |r.world.pin.scopes| == 0 && pin.monitor.Some? && pin.monitor.value.Faulted? ==>
        r.world.pin.monitor == pin.monitor && r.outcome == Fail(pin.monitor.value.error)
      ensures r.world.pin == pin.(scopes := r.world.pin.scopes, monitor := r.world.pin.monitor)
    {
      if !Registered(pin.scopes, id) then Step(this, Done)
      else
        DeregisterOnlyThat(pin.scopes, id);
        var reg := Deregister(pin.scopes, id);
        if |reg| > 0 then Step(WithPin(pin.(scopes := reg)), Done)
        else match pin.monitor
          case Some(Faulted(e)) => Step(WithPin(pin.(scopes := reg)), Fail(e))
          case _ => Step(WithPin(pin.(scopes := reg, monitor := None)), Done)
    }

    /** The monitor's value read (the Value getter) and fan-out. */
    function NotifyWithValue(): (r: World)
      requires Valid()
      ensures r.Valid() && r.fs == fs
      ensures GetValue().Ok? ==> r == WithPin(pin.(scopes := Notify(pin.scopes, GetValue().value)))
      ensures GetValue().Err? ==> r == WithPin(pin.(monitor := Some(Faulted(GetValue().error))))
    {
      match GetValue()
      case Ok(v) => WithPin(pin.(scopes := Notify(pin.scopes, v)))
      case Err(e) => WithPin(pin.(monitor := Some(Faulted(e))))
    }

    /** The monitor task starting to run: with inotify it starts watching;
        otherwise it reads the value once as its baseline. Nothing happens
        unless the task is waiting to start. */
    function MonitorStart(): (r: World)
      requires Valid()
      ensures r.Valid() && r.fs == fs && r.pin.scopes == pin.scopes
      ensures pin.monitor == Some(Starting) && pin.useInotify ==> r.pin.monitor == Some(Watching)
      ensures pin.monitor == Some(Starting) && !pin.useInotify && GetValue().Ok? ==> r.pin.monitor == Some(Polling(GetValue().value))
      ensures pin.monitor != Some(Starting) ==> r == this
    {
      if pin.monitor != Some(Starting) then this
      else if pin.useInotify then WithPin(pin.(monitor := Some(Watching)))
      else match GetValue()
        case Ok(v) => WithPin(pin.(monitor := Some(Polling(v))))
        case Err(e) => WithPin(pin.(monitor := Some(Faulted(e))))
    }

    /** One round of the polling loop: the value is read and, when it
        differs from the baseline, sent to every scope. The baseline is
        never replaced. A failed read ends the task with that exception. */
    function PollStep(): (r: World)
      requires Valid()
      ensures r.Valid() && r.fs == fs && |r.pin.scopes| == |pin.scopes|
      ensures !(pin.monitor.Some? && pin.monitor.value.Polling?) ==> r == this
    {
      match pin.monitor
      case Some(Polling(previous)) =>
        (match GetValue()
         case Ok(current) => if current != previous then WithPin(pin.(scopes := Notify(pin.scopes, current))) else this
         case Err(e) => WithPin(pin.(monitor := Some(Faulted(e)))))
      case _ => this
    }

    /** One line from inotifywait while watching: a line the helper turns
        into a response makes the callback read the value and send it to
        every scope. */
    function WatchStep(line: Option<string>): (r: World)
      requires Valid()
      ensures r.Valid() && r.fs == fs
      ensures pin.monitor == Some(Watching) && DecodeLine(line).Some? ==> r == NotifyWithValue()
      ensures !(pin.monitor == Some(Watching) && DecodeLine(line).Some?) ==> r == this
    {
      if pin.monitor == Some(Watching) && DecodeLine(line).Some? then NotifyWithValue() else this
    }

    /** Dispose(removed): removed is the kernel's answer to an unexport
        request. The foreach over the scopes removes only the first before
        the enumerator throws; the unexport runs only when no exception
        came first. */
    function Dispose(removed: bool): (r: Step)
      requires Valid()
      ensures r.world.Valid() && r.world.pin.isDisposed
      ensures |pin.scopes| > 0 ==> r.outcome.Fail? && r.world.fs == fs && r.world.pin.scopes == pin.scopes[1..]
      ensures |pin.scopes| == 0 ==> r.outcome == Done
      ensures |pin.scopes| == 0 && pin.unexportOnDispose && PinExported(fs, pin.pin) ==> r.world.fs == RequestUnexport(fs, pin.pin, removed)
      ensures |pin.scopes| == 0 && !(pin.unexportOnDispose && PinExported(fs, pin.pin)) ==> r.world.fs == fs
    {
      var w := WithPin(pin.(isDisposed := true));
      if |pin.scopes| > 0 then
        var id := pin.scopes[0].id;
        assert Registered(pin.scopes, id);
        assert Deregister(pin.scopes, id) == pin.scopes[1..] by {
          assert IndexOf(pin.scopes, id) == Some(0);
        }
        var s := w.DeregisterScope(id);
        Step(s.world, if s.outcome.Fail? then s.outcome else Fail(InvalidOperation))
      else if pin.unexportOnDispose && PinExported(fs, pin.pin) then
        Step(World(w.pin, RequestUnexport(fs, pin.pin, removed)), Done)
      else Step(w, Done)
    }

    /** Pulse(): the value is set true and, in a finally block, false;
        an exception from the second write replaces one from the first. */
    function Pulse(): (r: Step)
      requires Valid()
      ensures r.world.Valid()
      ensures pin.isDisposed ==> r == Step(this, Fail(ObjectDisposed))
      ensures !pin.isDisposed ==> r.world.pin == pin.(initialValue := Some(false))
      ensures !pin.isDisposed && !pin.isOpened ==> r == Step(WithPin(pin.(initialValue := Some(false))), Done)
    {
      if pin.isDisposed then Step(this, Fail(ObjectDisposed))
      else
        var high := SetValue(true);
        var low := high.world.SetValue(false);
        Step(low.world, if low.outcome.Fail? then low.outcome else high.outcome)
    }
  }

  /** A pin just constructed: nothing cached, not exported or unexported
      on request, inotify used when the inotifywait binary is present. */
  function Created(pin: int, fs: FileSystem): (w: World)
    ensures w.Valid() && w.fs == fs && w.pin.pin == pin && !w.pin.isOpened && !w.pin.isDisposed
    ensures w.pin.useInotify <==> INotifyWaitPath in fs.files
  {
    World(PinState(pin, None, None, None, false, false, false, false, INotifyWaitPath in fs.files, [], None), fs)
  }

  // ---------------------------------------------------------------------
  // Properties of the pin

  /** Open on an exported pin applies the cached settings: active_low is
      written with the cached flag, then the direction file with the
      direction text for the cached direction and value, an input also
      asking for both edges; the value file is not written. */
  lemma OpenAppliesSettings(w: World, created: bool, a: bool, d: Direction)
    requires w.Valid() && !w.pin.isDisposed && !w.pin.isOpened && PinExported(w.fs, w.pin.pin)
    requires !w.pin.useInotify || INotifyWaitPath in w.fs.files
    requires w.pin.initialActiveLow == Some(a) && w.pin.initialDirection == Some(d)
    requires ActiveLowPath(w.pin.pin) in w.fs.files && DirectionPath(w.pin.pin) in w.fs.files
    ensures w.Open(created).outcome == Done && w.Open(created).world.pin.isOpened
    ensures Read(w.Open(created).world.fs, ActiveLowPath(w.pin.pin)) == Ok(BoolText(a))
    ensures Read(w.Open(created).world.fs, DirectionPath(w.pin.pin)) == Ok(ToDirectionString(d, w.pin.initialValue))
    ensures Read(w.Open(created).world.fs, ValuePath(w.pin.pin)) == Read(w.fs, ValuePath(w.pin.pin))
    ensures d == Input && EdgePath(w.pin.pin) in w.fs.files ==> Read(w.Open(created).world.fs, EdgePath(w.pin.pin)) == Ok("both")
  {
    var pin := w.pin.pin;
    AttributesDistinct(pin);
    var w3 := w.WithPin(w.pin.(isOpened := true)).SetActiveLowInternal(a);
    assert Read(w3.fs, ActiveLowPath(pin)) == Ok(BoolText(a));
    assert Read(w3.fs, ValuePath(pin)) == Read(w.fs, ValuePath(pin));
    assert DirectionPath(pin) in w3.fs.files by {
      assert Read(w3.fs, DirectionPath(pin)) == Read(w.fs, DirectionPath(pin));
    }
    assert EdgePath(pin) in w.fs.files ==> EdgePath(pin) in w3.fs.files by {
      assert Read(w3.fs, EdgePath(pin)) == Read(w.fs, EdgePath(pin));
    }
    var r := w3.SetDirectionInternal(d, w.pin.initialValue);
    assert w.Open(created) == r;
    var fs1 := Write(w3.fs, DirectionPath(pin), ToDirectionString(d, w.pin.initialValue)).value;
    assert r.world.fs == (if d == Input then TryWrite(fs1, EdgePath(pin), "both") else fs1);
  }

  /** With export requested, a pin whose directory does not appear makes
      Open throw InvalidOperationException, and the pin stays closed. */
  lemma OpenExportFails(w: World)
    requires w.Valid() && !w.pin.isDisposed && !w.pin.isOpened && w.pin.exportOnOpen && !PinExported(w.fs, w.pin.pin)
    ensures w.Open(false).outcome == Fail(InvalidOperation) && !w.Open(false).world.pin.isOpened
    ensures w.Open(false).world.fs == RequestExport(w.fs, w.pin.pin, false)
  {
  }

  /** Before Open the getters return what the setters cached, and the
      files are not touched. */
  lemma UnopenedReadsCache(w: World, d: Direction, a: bool, v: bool)
    requires w.Valid() && !w.pin.isDisposed && !w.pin.isOpened
    ensures w.SetDirection(d).world.GetDirection() == Ok(d) && w.SetDirection(d).world.fs == w.fs
    ensures w.SetActiveLow(a).world.GetActiveLow() == Ok(a) && w.SetActiveLow(a).world.fs == w.fs
    ensures w.SetValue(v).world.GetValue() == Ok(v) && w.SetValue(v).world.fs == w.fs
  {
  }

  /** On an open pin, a value write reaches the value file only when the
      direction file reads exactly "out"; an input throws, keeping only the
      new cached value. */
  lemma ValueWriteNeedsOutput(w: World, v: bool)
    requires w.Valid() && !w.pin.isDisposed && w.pin.isOpened
    requires DirectionPath(w.pin.pin) in w.fs.files
    ensures w.fs.files[DirectionPath(w.pin.pin)] == OutputText && ValuePath(w.pin.pin) in w.fs.files ==>
      w.SetValue(v).outcome == Done && Read(w.SetValue(v).world.fs, ValuePath(w.pin.pin)) == Ok(BoolText(v))
    ensures w.fs.files[DirectionPath(w.pin.pin)] == InputText ==>
      w.SetValue(v) == Step(w.WithPin(w.pin.(initialValue := Some(v))), Fail(InvalidOperation))
    ensures w.fs.files[DirectionPath(w.pin.pin)] != OutputText ==> w.SetValue(v).outcome.Fail? && w.SetValue(v).world.fs == w.fs
  {
    var w1 := w.WithPin(w.pin.(initialValue := Some(v)));
    DecodeDirectionExactly(Output, w.fs.files[DirectionPath(w.pin.pin)]);
    DecodeDirectionExactly(Input, w.fs.files[DirectionPath(w.pin.pin)]);
    assert w1.GetDirection() == DecodeDirection(w.fs.files[DirectionPath(w.pin.pin)]);
  }

  /** The direction setter on an open pin writes the direction text for
      the cached value: "high" or "low" for an output with a cached value. */
  lemma DirectionCarriesCachedValue(w: World, level: bool)
    requires w.Valid() && !w.pin.isDisposed && w.pin.isOpened && w.pin.initialValue == Some(level)
    requires DirectionPath(w.pin.pin) in w.fs.files
    ensures Read(w.SetDirection(Output).world.fs, DirectionPath(w.pin.pin)) == Ok(if level then OutputHighText else OutputLowText)
    ensures Read(w.SetDirection(Input).world.fs, DirectionPath(w.pin.pin)) == Ok(InputText)
  {
  }

  /** A scope registered and then deregistered leaves the pin as it was
      when no failed monitor is left behind: the monitor started for it
      (if any) is stopped again. */
  lemma ScopeRoundTrip(w: World)
    requires w.Valid() && (|w.pin.scopes| == 0 ==> w.pin.monitor.None?)
    ensures w.RegisterScope().1.DeregisterScope(w.RegisterScope().0) == Step(w, Done)
  {
    var (id, w1) := w.RegisterScope();
    RegisterThenDeregister(w.pin.scopes);
    IndexOfAppend(w.pin.scopes, Scope(id, Empty()), id);
    assert Registered(w1.pin.scopes, id);
  }

  /** The monitor runs exactly while scopes are registered: it is started
      by a register into an empty list and stopped, or reported as failed,
      by the removal that empties the list. */
  lemma MonitorExactlyWhileRegistered(w: World, id: nat)
    requires w.Valid()
    ensures |w.pin.scopes| == 0 ==> w.RegisterScope().1.pin.monitor == Some(Starting)
    ensures |w.RegisterScope().1.pin.scopes| > 0 && w.RegisterScope().1.pin.monitor.Some?
    ensures var r := w.DeregisterScope(id);
      |r.world.pin.scopes| == 0 <==> (|w.pin.scopes| == 0 || (|w.pin.scopes| == 1 && w.pin.scopes[0].id == id))
    ensures var r := w.DeregisterScope(id);
      |r.world.pin.scopes| == 0 ==> r.world.pin.monitor.None? || r.world.pin.monitor.value.Faulted?
  {
    if Registered(w.pin.scopes, id) {
      var k := IndexOf(w.pin.scopes, id).value;
      if |w.pin.scopes| == 1 { assert k == 0; }
    } else if |w.pin.scopes| == 1 {
      assert w.pin.scopes[0].id != id;
    }
  }

  /** n rounds of the polling loop. */
  function Polls(w: World, n: nat): (r: World)
    requires w.Valid()
    ensures r.Valid() && r.fs == w.fs && |r.pin.scopes| == |w.pin.scopes|
    decreases n
  {
    if n == 0 then w else Polls(w.PollStep(), n - 1)
  }

  function Repeat(v: bool, n: nat): (r: seq<bool>)
    ensures |r| == n && forall k :: 0 <= k < n ==> r[k] == v
  {
    if n == 0 then [] else [v] + Repeat(v, n - 1)
  }

  /** The baseline of the polling loop is the value read when it started
      and is never replaced: while the value file reads v different from
      it, every round sends v to every scope again, and while it reads the
      baseline nobody is notified. */
  lemma {:induction false} PollAgainstBaseline(w: World, b: bool, v: bool, n: nat)
    requires w.Valid() && w.pin.monitor == Some(Polling(b)) && w.GetValue() == Ok(v)
    ensures Polls(w, n).pin.monitor == Some(Polling(b))
    ensures Polls(w, n).pin == w.pin.(scopes := Polls(w, n).pin.scopes)
    ensures v != b ==> Polls(w, n).pin.scopes == NotifyEach(w.pin.scopes, Repeat(v, n))
    ensures v == b ==> Polls(w, n) == w
    decreases n
  {
    if n > 0 {
      var w1 := w.PollStep();
      assert w1.GetValue() == Ok(v);
      PollAgainstBaseline(w1, b, v, n - 1);
      if v != b {
        assert Repeat(v, n)[0] == v && Repeat(v, n)[1..] == Repeat(v, n - 1);
      }
    }
  }

  /** Every scope's queue receives one copy of v per polling round while
      the reading differs from the baseline. */
  lemma PollQueuesRepeat(w: World, b: bool, v: bool, n: nat)
    requires w.Valid() && w.pin.monitor == Some(Polling(b)) && w.GetValue() == Ok(v) && v != b
    ensures forall k :: 0 <= k < |w.pin.scopes| ==>
      Polls(w, n).pin.scopes[k].changes.items == w.pin.scopes[k].changes.items + Repeat(v, n)
  {
    PollAgainstBaseline(w, b, v, n);
    NotifyEachAppends(w.pin.scopes, Repeat(v, n));
  }

  /** A polling monitor takes the reading at its start as the baseline, so
      a steady value notifies nobody. */
  lemma SteadyValueIsSilent(w: World, n: nat)
    requires w.Valid() && w.pin.monitor == Some(Starting) && !w.pin.useInotify && w.GetValue().Ok?
    ensures Polls(w.MonitorStart(), n) == w.MonitorStart()
  {
    PollAgainstBaseline(w.MonitorStart(), w.GetValue().value, w.GetValue().value, n);
  }

  /** Pulse on an open output pin: both writes reach the value file and the
      finally block leaves it at "0". */
  lemma PulseEndsLow(w: World)
    requires w.Valid() && !w.pin.isDisposed && w.pin.isOpened
    requires DirectionPath(w.pin.pin) in w.fs.files && w.fs.files[DirectionPath(w.pin.pin)] == OutputText
    requires ValuePath(w.pin.pin) in w.fs.files
    ensures w.Pulse().outcome == Done
    ensures Read(w.Pulse().world.fs, ValuePath(w.pin.pin)) == Ok(BoolText(false))
    ensures w.Pulse().world.pin.initialValue == Some(false)
  {
    ValueWriteNeedsOutput(w, true);
    AttributesDistinct(w.pin.pin);
    ValueWriteNeedsOutput(w.SetValue(true).world, false);
  }

  /** After Dispose every property and Open throw ObjectDisposedException
      and change nothing. */
  lemma DisposedRejectsAll(w: World, removed: bool, created: bool, d: Direction, a: bool, v: bool)
    requires w.Valid()
    ensures var x := w.Dispose(removed).world;
      x.Open(created) == Step(x, Fail(ObjectDisposed))
      && x.GetDirection() == Err(ObjectDisposed) && x.SetDirection(d) == Step(x, Fail(ObjectDisposed))
      && x.GetActiveLow() == Err(ObjectDisposed) && x.SetActiveLow(a) == Step(x, Fail(ObjectDisposed))
      && x.GetValue() == Err(ObjectDisposed) && x.SetValue(v) == Step(x, Fail(ObjectDisposed))
      && x.Pulse() == Step(x, Fail(ObjectDisposed))
  {
  }

  /** inotifywait lines that decode to no response (blank lines, lines
      without exactly three fields) leave the pin and its scopes alone. */
  lemma WatchIgnoresUndecodedLines(w: World, lines: seq<Option<string>>)
    requires w.Valid()
    ensures forall k :: 0 <= k < |lines| && DecodeLine(lines[k]).None? ==> w.WatchStep(lines[k]) == w
  {
  }

  // ---------------------------------------------------------------------
  // The object

  class LinuxGpioPin {
    const pin: int
    const name: string
    const sysfs: SysfsTree
    var initialDirection: Option<Direction>
    var initialActiveLow: Option<bool>
    var initialValue: Option<bool>
    var isDisposed: bool
    var isOpened: bool
    var exportOnOpen: bool
    var unexportOnDispose: bool
    var useInotify: bool
    var scopes: Registry
    var monitor: Option<Monitor>

    function State(): PinState
      reads this
    {
      PinState(pin, initialDirection, initialActiveLow, initialValue, isDisposed, isOpened,
               exportOnOpen, unexportOnDispose, useInotify, scopes, monitor)
    }

    function Snapshot(): World
      reads this, sysfs
    {
      World(State(), sysfs.State())
    }

    predicate Valid()
      reads this, sysfs
    {
      Snapshot().Valid()
    }

    /** The constructor: UseInotify starts as PlatformSupportsInotify(). */
    constructor (pin: int, name: string, sysfs: SysfsTree)
      ensures Snapshot() == Created(pin, sysfs.State()) && this.name == name && this.sysfs == sysfs
    {
      this.pin := pin;
      this.name := name;
      this.sysfs := sysfs;
      new;
      var supported := PlatformSupportsInotify();
      initialDirection, initialActiveLow, initialValue := None, None, None;
      isDisposed, isOpened := false, false;
      exportOnOpen, unexportOnDispose, useInotify := false, false, supported;
      scopes, monitor := [], None;
    }

    /** PlatformSupportsInotify: the inotifywait binary exists. */
    method PlatformSupportsInotify() returns (b: bool)
      ensures b <==> INotifyWaitPath in sysfs.State().files
    {
      b := sysfs.FileExists(INotifyWaitPath);
    }

    /** The Export, Unexport and UseInotify properties: plain settings. */
    method SetExport(b: bool)
      modifies this
      ensures Snapshot() == old(Snapshot()).WithPin(old(State()).(exportOnOpen := b))
    {
      exportOnOpen := b;
    }

    method SetUnexport(b: bool)
      modifies this
      ensures Snapshot() == old(Snapshot()).WithPin(old(State()).(unexportOnDispose := b))
    {
      unexportOnDispose := b;
    }

    method SetUseInotify(b: bool)
      modifies this
      ensures Snapshot() == old(Snapshot()).WithPin(old(State()).(useInotify := b))
    {
      useInotify := b;
    }

    method GetDirectionInternal() returns (r: Result<Direction>)
      ensures r == Snapshot().GetDirectionInternal()
    {
      var text := sysfs.ReadAllText(DirectionPath(pin));
      match text
      case Err(e) => r := Err(e);
      case Ok(t) => r := DecodeDirection(t);
    }

    /** EnableEdgeDetection: writes "both" to the edge file, reporting
        whether the write went through. */
    method EnableEdgeDetection() returns (ok: bool)
      modifies sysfs
      ensures sysfs.State() == TryWrite(old(sysfs.State()), EdgePath(pin), "both")
      ensures ok <==> EdgePath(pin) in old(sysfs.State()).files
    {
      var outcome := sysfs.WriteAllText(EdgePath(pin), "both");
      ok := outcome == Done;
    }

    method SetDirectionInternal(direction: Direction, level: Option<bool>) returns (outcome: Outcome)
      requires Valid()
      modifies sysfs
      ensures Snapshot() == old(Snapshot()).SetDirectionInternal(direction, level).world
      ensures outcome == old(Snapshot()).SetDirectionInternal(direction, level).outcome
      ensures Valid()
    {
      outcome := sysfs.WriteAllText(DirectionPath(pin), ToDirectionString(direction, level));
      if outcome.Fail? {
        return;
      }
      if direction == Input {
        var _ := EnableEdgeDetection();
      }
    }

    method GetActiveLowInternal() returns (r: Result<bool>)
      ensures r == Snapshot().GetActiveLowInternal()
    {
      var text := sysfs.ReadAllText(ActiveLowPath(pin));
      match text
      case Err(e) => r := Err(e);
      case Ok(t) => r := DecodeBool(t);
    }

    method SetActiveLowInternal(a: bool)
      requires Valid()
      modifies sysfs
      ensures Snapshot() == old(Snapshot()).SetActiveLowInternal(a)
      ensures Valid()
    {
      sysfs.TryWriteAllText(ActiveLowPath(pin), BoolText(a));
    }

    method GetValueInternal() returns (r: Result<bool>)
      ensures r == Snapshot().GetValueInternal()
    {
      var text := sysfs.ReadAllText(ValuePath(pin));
      match text
      case Err(e) => r := Err(e);
      case Ok(t) => r := DecodeBool(t);
    }

    method SetValueInternal(v: bool) returns (outcome: Outcome)
      requires Valid()
      modifies sysfs
      ensures Snapshot() == old(Snapshot()).SetValueInternal(v).world
      ensures outcome == old(Snapshot()).SetValueInternal(v).outcome
      ensures Valid()
    {
      var d := GetDirection();
      match d
      case Err(e) => outcome := Fail(e);
      case Ok(direction) =>
        if direction == Output {
          outcome := sysfs.WriteAllText(ValuePath(pin), BoolText(v));
        } else {
          outcome := Fail(InvalidOperation);
        }
    }

    /** TryEnablePin on a pin not yet exported: the export request and the
        check that the directory appeared. */
    method TryExportPin(created: bool) returns (ok: bool)
      modifies sysfs
      ensures sysfs.State() == RequestExport(old(sysfs.State()), pin, created)
      ensures ok <==> PinExported(sysfs.State(), pin)
    {
      sysfs.TryWriteAllText(ExportPath, IntToString(pin));
      if created {
        sysfs.CreatePinDirectory(pin);
      }
      ok := sysfs.DirectoryExists(PinDirectory(pin));
    }

    /** TryDisablePin: an exported pin is unexported. */
    method TryDisablePin(removed: bool) returns (ok: bool)
      modifies sysfs
      ensures PinExported(old(sysfs.State()), pin) ==> sysfs.State() == RequestUnexport(old(sysfs.State()), pin, removed)
      ensures !PinExported(old(sysfs.State()), pin) ==> sysfs.State() == old(sysfs.State())
      ensures ok <==> !PinExported(sysfs.State(), pin)
    {
      var exported := sysfs.DirectoryExists(PinDirectory(pin));
      if !exported {
        return true;
      }
      sysfs.TryWriteAllText(UnexportPath, IntToString(pin));
      if removed {
        sysfs.RemovePinDirectory(pin);
      }
      var still := sysfs.DirectoryExists(PinDirectory(pin));
      ok := !still;
    }

    method Open(created: bool) returns (outcome: Outcome)
      requires Valid()
      modifies this, sysfs
      ensures Snapshot() == old(Snapshot()).Open(created).world && outcome == old(Snapshot()).Open(created).outcome
      ensures Valid()
    {
      if isDisposed {
        return Fail(ObjectDisposed);
      }
      if isOpened {
        return Fail(InvalidOperation);
      }
      outcome := CheckExported(created);
      if outcome.Fail? {
        return;
      }
      outcome := ApplySettings();
    }

    method CheckExported(created: bool) returns (outcome: Outcome)
      modifies sysfs
      ensures Snapshot() == old(Snapshot()).CheckExported(created).world && outcome == old(Snapshot()).CheckExported(created).outcome
    {
      var exported := sysfs.DirectoryExists(PinDirectory(pin));
      if exportOnOpen {
        if !exported {
          var ok := TryExportPin(created);
          if !ok {
            return Fail(InvalidOperation);
          }
        }
      } else if !exported {
        return Fail(DirectoryNotFound);
      }
      outcome := Done;
      if useInotify {
        var supported := PlatformSupportsInotify();
        if !supported {
          outcome := Fail(InvalidOperation);
        }
      }
    }

    method ApplySettings() returns (outcome: Outcome)
      requires Valid()
      modifies this, sysfs
      ensures Snapshot() == old(Snapshot()).ApplySettings().world && outcome == old(Snapshot()).ApplySettings().outcome
      ensures Valid()
    {
      isOpened := true;
      if initialActiveLow.Some? {
        SetActiveLowInternal(initialActiveLow.value);
      }
      outcome := Done;
      if initialDirection.Some? {
        outcome := SetDirectionInternal(initialDirection.value, initialValue);
      }
    }

    method GetDirection() returns (r: Result<Direction>)
      ensures r == Snapshot().GetDirection()
    {
      if isDisposed {
        return Err(ObjectDisposed);
      }
      if !isOpened {
        return Ok(initialDirection.GetOr(Input));
      }
      r := GetDirectionInternal();
    }

    method SetDirection(d: Direction) returns (outcome: Outcome)
      requires Valid()
      modifies this, sysfs
      ensures Snapshot() == old(Snapshot()).SetDirection(d).world && outcome == old(Snapshot()).SetDirection(d).outcome
      ensures Valid()
    {
      if isDisposed {
        return Fail(ObjectDisposed);
      }
      initialDirection := Some(d);
      outcome := Done;
      if isOpened {
        outcome := SetDirectionInternal(d, initialValue);
      }
    }

    method GetActiveLow() returns (r: Result<bool>)
      ensures r == Snapshot().GetActiveLow()
    {
      if isDisposed {
        return Err(ObjectDisposed);
      }
      if !isOpened {
        return Ok(initialActiveLow.GetOr(false));
      }
      r := GetActiveLowInternal();
    }

    method SetActiveLow(a: bool) returns (outcome: Outcome)
      requires Valid()
      modifies this, sysfs
      ensures Snapshot() == old(Snapshot()).SetActiveLow(a).world && outcome == old(Snapshot()).SetActiveLow(a).outcome
      ensures Valid()
    {
      if isDisposed {
        return Fail(ObjectDisposed);
      }
      initialActiveLow := Some(a);
      if isOpened {
        SetActiveLowInternal(a);
      }
      outcome := Done;
    }

    method GetValue() returns (r: Result<bool>)
      ensures r == Snapshot().GetValue()
    {
      if isDisposed {
        return Err(ObjectDisposed);
      }
      if !isOpened {
        return Ok(initialValue.GetOr(false));
      }
      r := GetValueInternal();
    }

    method SetValue(v: bool) returns (outcome: Outcome)
      requires Valid()
      modifies this, sysfs
      ensures Snapshot() == old(Snapshot()).SetValue(v).world && outcome == old(Snapshot()).SetValue(v).outcome
      ensures Valid()
    {
      if isDisposed {
        return Fail(ObjectDisposed);
      }
      initialValue := Some(v);
      outcome := Done;
      if isOpened {
        outcome := SetValueInternal(v);
      }
    }

    method Pulse() returns (outcome: Outcome)
      requires Valid()
      modifies this, sysfs
      ensures Snapshot() == old(Snapshot()).Pulse().world && outcome == old(Snapshot()).Pulse().outcome
      ensures Valid()
    {
      if isDisposed {
        return Fail(ObjectDisposed);
      }
      var high := SetValue(true);
      var low := SetValue(false);
      outcome := if low.Fail? then low else high;
    }

    method CreateAndRegisterPinChangedScope() returns (id: nat)
      requires Valid()
      modifies this
      ensures (id, Snapshot()) == old(Snapshot()).RegisterScope()
      ensures Valid()
    {
      if |scopes| == 0 {
        monitor := Some(Starting);
      }
      id := FreshId(scopes);
      scopes := scopes + [Scope(id, Empty())];
    }

    method DeregisterPinChangeScope(id: nat) returns (outcome: Outcome)
      requires Valid()
      modifies this
      ensures Snapshot() == old(Snapshot()).DeregisterScope(id).world && outcome == old(Snapshot()).DeregisterScope(id).outcome
      ensures Valid()
    {
      outcome := Done;
      if !Registered(scopes, id) {
        return;
      }
      DeregisterOnlyThat(scopes, id);
      scopes := Deregister(scopes, id);
      if |scopes| == 0 {
        if monitor.Some? && monitor.value.Faulted? {
          return Fail(monitor.value.error);
        }
        monitor := None;
      }
    }

    method NotifyAllScopesOfPinChange(v: bool)
      requires Valid()
      modifies this
      ensures Snapshot() == old(Snapshot()).WithPin(old(State()).(scopes := Notify(old(scopes), v)))
      ensures Valid()
    {
      scopes := NotifyAll(scopes, v);
    }

    /** The monitor task starting to run. */
    method MonitorStart()
      requires Valid()
      modifies this
      ensures Snapshot() == old(Snapshot()).MonitorStart()
      ensures Valid()
    {
      if monitor != Some(Starting) {
        return;
      }
      if useInotify {
        monitor := Some(Watching);
        return;
      }
      var reading := GetValue();
      match reading
      case Ok(v) => monitor := Some(Polling(v));
      case Err(e) => monitor := Some(Faulted(e));
    }

    /** One round of the polling loop. */
    method PollStep()
      requires Valid()
      modifies this
      ensures Snapshot() == old(Snapshot()).PollStep()
      ensures Valid()
    {
      if !(monitor.Some? && monitor.value.Polling?) {
        return;
      }
      var previous := monitor.value.previous;
      var reading := GetValue();
      match reading
      case Ok(current) =>
        if current != previous {
          NotifyAllScopesOfPinChange(current);
        }
      case Err(e) => monitor := Some(Faulted(e));
    }

    /** One line of inotifywait output while watching. */
    method WatchStep(line: Option<string>)
      requires Valid()
      modifies this
      ensures Snapshot() == old(Snapshot()).WatchStep(line)
      ensures Valid()
    {
      if !(monitor == Some(Watching) && DecodeLine(line).Some?) {
        return;
      }
      var reading := GetValue();
      match reading
      case Ok(v) => NotifyAllScopesOfPinChange(v);
      case Err(e) => monitor := Some(Faulted(e));
    }

    method Dispose(removed: bool) returns (outcome: Outcome)
      requires Valid()
      modifies this, sysfs
      ensures Snapshot() == old(Snapshot()).Dispose(removed).world && outcome == old(Snapshot()).Dispose(removed).outcome
      ensures Valid()
    {
      isDisposed := true;
      if |scopes| > 0 {
        outcome := DeregisterPinChangeScope(scopes[0].id);
        if outcome == Done {
          outcome := Fail(InvalidOperation);
        }
        return;
      }
      outcome := Done;
      if unexportOnDispose {
        var _ := TryDisablePin(removed);
      }
    }
  }
}
