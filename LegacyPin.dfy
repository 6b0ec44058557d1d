/** The older sysfs pin of LinuxGPIOPin.cs (root directory): a pin that is
    configured once, in its constructor, and then reads and writes its
    attribute files on every property access. A value cache remembers the
    last value assigned, so that a later direction write can carry it. */
module LegacyPin {
  import opened Outcomes
  import opened Text
  import opened GpioDirection
  import opened Sysfs

  /** The default timings, in milliseconds. */
  const DefaultAssertionTime: nat := 50
  const DefaultDeassertionTime: nat := 50
  const DefaultDebounceTime: nat := 5

  /** The fields of the object; durations are whole milliseconds. */
  datatype PinState = PinState(
    pin: int, exportOnCreate: bool, unexportOnDispose: bool,
    initialDirection: Option<Direction>, initialActiveLow: Option<bool>, initialValue: Option<bool>,
    valueCache: Option<bool>, isDisposed: bool,
    assertionTime: nat, deassertionTime: nat, debounceTime: nat)

  /** The field initialisers and the assignments at the head of the
      constructor: absent timings take their defaults. */
  function Fields(pin: int, exportPin: bool, unexportPin: bool,
                  direction: Option<Direction>, activeLow: Option<bool>, initialValue: Option<bool>,
                  assertionTime: Option<nat>, deassertionTime: Option<nat>, debounceTime: Option<nat>): (p: PinState)
    ensures p.pin == pin && p.exportOnCreate == exportPin && p.unexportOnDispose == unexportPin
    ensures p.initialDirection == direction && p.initialActiveLow == activeLow && p.initialValue == initialValue
    ensures p.valueCache.None? && !p.isDisposed
    ensures assertionTime.None? ==> p.assertionTime == 50
    ensures deassertionTime.None? ==> p.deassertionTime == 50
    ensures debounceTime.None? ==> p.debounceTime == 5
    ensures assertionTime.Some? ==> p.assertionTime == assertionTime.value
    ensures deassertionTime.Some? ==> p.deassertionTime == deassertionTime.value
    ensures debounceTime.Some? ==> p.debounceTime == debounceTime.value
  {
    PinState(pin, exportPin, unexportPin, direction, activeLow, initialValue, None, false,
             assertionTime.GetOr(DefaultAssertionTime), deassertionTime.GetOr(DefaultDeassertionTime),
             debounceTime.GetOr(DefaultDebounceTime))
  }

  datatype Step = Step(world: World, outcome: Outcome)

  /** The pin together with the file tree. */
  datatype World = World(pin: PinState, fs: FileSystem)
  {
    /** The rest of the constructor: export when asked (whether that worked
        is not looked at), insist on the pin directory, apply active_low,
        store the initial value in the cache, then apply the direction,
        whose write failure escapes. */
    function Configure(created: bool): (r: Step)
      ensures r.world.pin.pin == pin.pin && r.world.pin.isDisposed == pin.isDisposed
      ensures !PinExported(fs, pin.pin) && !(pin.exportOnCreate && created) ==> r.outcome == Fail(DirectoryNotFound)
      ensures r.outcome == Done ==> PinExported(r.world.fs, pin.pin)
      ensures r.outcome != Fail(DirectoryNotFound) ==> r.world.pin == pin.(valueCache := pin.initialValue)
    {
      var fs1 := if pin.exportOnCreate && !PinExported(fs, pin.pin) then RequestExport(fs, pin.pin, created) else fs;
      if !PinExported(fs1, pin.pin) then Step(World(pin, fs1), Fail(DirectoryNotFound))
      else
        var w2 := if pin.initialActiveLow.Some? then World(pin, fs1).SetActiveLow(pin.initialActiveLow.value).world else World(pin, fs1);
        var w3 := w2.WithPin(w2.pin.(valueCache := pin.initialValue));
        if pin.initialDirection.Some? then w3.SetDirection(pin.initialDirection.value) else Step(w3, Done)
    }

    function WithPin(p: PinState): World { World(p, fs) }

    /** The Direction getter: the file text must be exactly "in" or "out". */
    function GetDirection(): (r: Result<Direction>)
      ensures pin.isDisposed <==> r == Err(ObjectDisposed)
      ensures !pin.isDisposed && DirectionPath(pin.pin) !in fs.files ==> r == Err(IOFailure)
      ensures !pin.isDisposed && DirectionPath(pin.pin) in fs.files ==>
        (r.Ok? <==> fs.files[DirectionPath(pin.pin)] in {InputText, OutputText})
      ensures r.Ok? ==> Read(fs, DirectionPath(pin.pin)) == Ok(ToDirectionString(r.value, None))
    {
      if pin.isDisposed then Err(ObjectDisposed)
      else match Read(fs, DirectionPath(pin.pin))
        case Err(e) => Err(e)
        case Ok(text) => DecodeDirection(text)
    }

    /** The Direction setter: writes the direction text for the cached
        value, letting a failure escape; an input then asks for edge
        detection on both edges, ignoring a failure. */
    function SetDirection(d: Direction): (r: Step)
      ensures r.world.pin == pin
      ensures pin.isDisposed ==> r == Step(this, Fail(ObjectDisposed))
      ensures !pin.isDisposed && DirectionPath(pin.pin) !in fs.files ==> r == Step(this, Fail(IOFailure))
      ensures !pin.isDisposed && DirectionPath(pin.pin) in fs.files ==>
        (r.outcome == Done && Read(r.world.fs, DirectionPath(pin.pin)) == Ok(ToDirectionString(d, pin.valueCache)))
      ensures d == Input && !pin.isDisposed && DirectionPath(pin.pin) in fs.files && EdgePath(pin.pin) in fs.files ==>
        Read(r.world.fs, EdgePath(pin.pin)) == Ok("both")
      ensures forall p :: p != DirectionPath(pin.pin) && p != EdgePath(pin.pin) ==> Read(r.world.fs, p) == Read(fs, p)
      ensures r.world.fs.dirs == fs.dirs
    {
      if pin.isDisposed then Step(this, Fail(ObjectDisposed))
      else match Write(fs, DirectionPath(pin.pin), ToDirectionString(d, pin.valueCache))
        case Err(e) => Step(this, Fail(e))
        case Ok(fs1) =>
          AttributesDistinct(pin.pin);
          Step(World(pin, if d == Input then TryWrite(fs1, EdgePath(pin.pin), "both") else fs1), Done)
    }

    function GetActiveLow(): (r: Result<bool>)
      ensures pin.isDisposed <==> r == Err(ObjectDisposed)
      ensures !pin.isDisposed && ActiveLowPath(pin.pin) !in fs.files ==> r == Err(IOFailure)
      ensures !pin.isDisposed && ActiveLowPath(pin.pin) in fs.files ==> r == DecodeBool(fs.files[ActiveLowPath(pin.pin)])
    {
      if pin.isDisposed then Err(ObjectDisposed)
      else match Read(fs, ActiveLowPath(pin.pin))
        case Err(e) => Err(e)
        case Ok(text) => DecodeBool(text)
    }

    /** The ActiveLow setter: "1" or "0", a failed write ignored. */
    function SetActiveLow(a: bool): (r: Step)
      ensures r.world.pin == pin
      ensures pin.isDisposed <==> r.outcome.Fail?
      ensures pin.isDisposed ==> r == Step(this, Fail(ObjectDisposed))
      ensures !pin.isDisposed ==> r.world.fs == TryWrite(fs, ActiveLowPath(pin.pin), BoolText(a))
    {
      if pin.isDisposed then Step(this, Fail(ObjectDisposed))
      else Step(World(pin, TryWrite(fs, ActiveLowPath(pin.pin), BoolText(a))), Done)
    }

    function GetValue(): (r: Result<bool>)
      ensures pin.isDisposed <==> r == Err(ObjectDisposed)
      ensures !pin.isDisposed && ValuePath(pin.pin) !in fs.files ==> r == Err(IOFailure)
      ensures !pin.isDisposed && ValuePath(pin.pin) in fs.files ==> r == DecodeBool(fs.files[ValuePath(pin.pin)])
    {
      if pin.isDisposed then Err(ObjectDisposed)
      else match Read(fs, ValuePath(pin.pin))
        case Err(e) => Err(e)
        case Ok(text) => DecodeBool(text)
    }

    /** The Value setter: the cache is updated before the write, and a
        failed write is ignored, whatever the direction. */
    function SetValue(v: bool): (r: Step)
      ensures pin.isDisposed <==> r.outcome.Fail?
      ensures pin.isDisposed ==> r == Step(this, Fail(ObjectDisposed))
      ensures !pin.isDisposed ==> r.world == World(pin.(valueCache := Some(v)), TryWrite(fs, ValuePath(pin.pin), BoolText(v)))
    {
      if pin.isDisposed then Step(this, Fail(ObjectDisposed))
      else Step(World(pin.(valueCache := Some(v)), TryWrite(fs, ValuePath(pin.pin), BoolText(v))), Done)
    }

    /** Pulse: the value is set true and, in a finally block, false; a
        cancelled delay throws OperationCanceledException after that. */
    function Pulse(cancelled: bool): (r: Step)
      ensures pin.isDisposed ==> r == Step(this, Fail(ObjectDisposed))
      ensures !pin.isDisposed ==> r.world.pin == pin.(valueCache := Some(false))
      ensures !pin.isDisposed ==> r.outcome == (if cancelled then Fail(OperationCanceled) else Done)
    {
      if pin.isDisposed then Step(this, Fail(ObjectDisposed))
      else
        var low := SetValue(true).world.SetValue(false);
        Step(low.world, if cancelled then Fail(OperationCanceled) else Done)
    }

    /** Dispose(removed): marks the object disposed and, when asked to,
        unexports a pin that is still exported. It never throws. */
    function Dispose(removed: bool): (r: World)
      ensures r.pin == pin.(isDisposed := true)
      ensures pin.unexportOnDispose && PinExported(fs, pin.pin) ==> r.fs == RequestUnexport(fs, pin.pin, removed)
      ensures !(pin.unexportOnDispose && PinExported(fs, pin.pin)) ==> r.fs == fs
    {
      World(pin.(isDisposed := true),
            if pin.unexportOnDispose && PinExported(fs, pin.pin) then RequestUnexport(fs, pin.pin, removed) else fs)
    }
  }

  // ---------------------------------------------------------------------
  // Properties

  /** The constructor on a pin that is exported, with all attribute files
      present: active_low holds the requested flag and the direction file
      the direction text for the initial value, because the value cache is
      filled before the direction is applied; the value file is not
      written. */
  lemma ConfigureOrder(w: World, created: bool, a: bool, d: Direction)
    requires PinExported(w.fs, w.pin.pin) && !w.pin.isDisposed
    requires w.pin.initialActiveLow == Some(a) && w.pin.initialDirection == Some(d)
    requires ActiveLowPath(w.pin.pin) in w.fs.files && DirectionPath(w.pin.pin) in w.fs.files
    ensures w.Configure(created).outcome == Done
    ensures Read(w.Configure(created).world.fs, ActiveLowPath(w.pin.pin)) == Ok(BoolText(a))
    ensures Read(w.Configure(created).world.fs, DirectionPath(w.pin.pin)) == Ok(ToDirectionString(d, w.pin.initialValue))
    ensures Read(w.Configure(created).world.fs, ValuePath(w.pin.pin)) == Read(w.fs, ValuePath(w.pin.pin))
    ensures w.Configure(created).world.pin.valueCache == w.pin.initialValue
  {
    var pin := w.pin.pin;
    AttributesDistinct(pin);
    var w2 := w.SetActiveLow(a).world;
    assert Read(w2.fs, DirectionPath(pin)) == Read(w.fs, DirectionPath(pin));
    var w3 := w2.WithPin(w2.pin.(valueCache := w.pin.initialValue));
    assert w.Configure(created) == w3.SetDirection(d);
  }

  /** Unlike the newer pin, a failed export is not reported as such: the
      missing directory is then reported with DirectoryNotFoundException,
      exactly as for a pin that was never to be exported. */
  lemma FailedExportIsDirectoryNotFound(w: World)
    requires w.pin.exportOnCreate && !PinExported(w.fs, w.pin.pin)
    ensures w.Configure(false).outcome == Fail(DirectoryNotFound)
    ensures w.Configure(false).world.fs == RequestExport(w.fs, w.pin.pin, false)
  {
  }

  /** A run of value writes. */
  function SetValues(w: World, vs: seq<bool>): (r: World)
    ensures r.pin.isDisposed == w.pin.isDisposed && r.pin.pin == w.pin.pin
    decreases |vs|
  {
    if |vs| == 0 then w else SetValues(w.SetValue(vs[0]).world, vs[1..])
  }

  /** The value cache always holds the last value assigned, whether the
      writes reached the file or not. */
  lemma {:induction false} CacheHoldsLastValue(w: World, vs: seq<bool>)
    requires !w.pin.isDisposed && |vs| > 0
    ensures SetValues(w, vs).pin.valueCache == Some(vs[|vs| - 1])
    decreases |vs|
  {
    if |vs| > 1 {
      CacheHoldsLastValue(w.SetValue(vs[0]).world, vs[1..]);
    }
  }

  /** A direction write after a value write carries that value: an output
      becomes "high" or "low". */
  lemma DirectionCarriesLastValue(w: World, v: bool)
    requires !w.pin.isDisposed && DirectionPath(w.pin.pin) in w.fs.files
    ensures Read(w.SetValue(v).world.SetDirection(Output).world.fs, DirectionPath(w.pin.pin))
      == Ok(if v then OutputHighText else OutputLowText)
  {
    var pin := w.pin.pin;
    AttributesDistinct(pin);
    assert Read(w.SetValue(v).world.fs, DirectionPath(pin)) == Read(w.fs, DirectionPath(pin));
  }

  /** What a setter writes, its getter reads back (the kernel's own reaction
      to the write is not modelled). */
  lemma WritesReadBack(w: World, a: bool, v: bool)
    requires !w.pin.isDisposed
    requires ActiveLowPath(w.pin.pin) in w.fs.files && ValuePath(w.pin.pin) in w.fs.files
    ensures w.SetActiveLow(a).world.GetActiveLow() == Ok(a)
    ensures w.SetValue(v).world.GetValue() == Ok(v)
  {
    DecodeBoolExact(a);
    DecodeBoolExact(v);
    assert w.SetActiveLow(a).world.fs.files[ActiveLowPath(w.pin.pin)] == BoolText(a);
    assert w.SetValue(v).world.fs.files[ValuePath(w.pin.pin)] == BoolText(v);
  }

  /** A pulse leaves the cached value false and "0" in the value file. */
  lemma PulseEndsLow(w: World, cancelled: bool)
    requires !w.pin.isDisposed && ValuePath(w.pin.pin) in w.fs.files
    ensures w.Pulse(cancelled).world.pin.valueCache == Some(false)
    ensures Read(w.Pulse(cancelled).world.fs, ValuePath(w.pin.pin)) == Ok("0")
  {
  }

  /** After Dispose every property throws ObjectDisposedException and
      changes nothing. */
  lemma DisposedRejectsAll(w: World, removed: bool, d: Direction, a: bool, v: bool, cancelled: bool)
    ensures var x := w.Dispose(removed);
      x.GetDirection() == Err(ObjectDisposed) && x.SetDirection(d) == Step(x, Fail(ObjectDisposed))
      && x.GetActiveLow() == Err(ObjectDisposed) && x.SetActiveLow(a) == Step(x, Fail(ObjectDisposed))
      && x.GetValue() == Err(ObjectDisposed) && x.SetValue(v) == Step(x, Fail(ObjectDisposed))
      && x.Pulse(cancelled) == Step(x, Fail(ObjectDisposed))
  {
  }

  /** Dispose unexports only when asked to: without the flag the files are
      untouched, and with it the pin ends unexported if the kernel removes
      it. */
  lemma DisposeUnexportsOnlyOnRequest(w: World, removed: bool)
    ensures !w.pin.unexportOnDispose ==> w.Dispose(removed).fs == w.fs
    ensures w.pin.unexportOnDispose && removed ==> !PinExported(w.Dispose(removed).fs, w.pin.pin)
  {
  }

  // ---------------------------------------------------------------------
  // The object

  class LegacyLinuxGpioPin {
    const pin: int
    const name: string
    const sysfs: SysfsTree
    const exportOnCreate: bool
    const unexportOnDispose: bool
    const initialDirection: Option<Direction>
    const initialActiveLow: Option<bool>
    const initialValue: Option<bool>
    const assertionTime: nat
    const deassertionTime: nat
    const debounceTime: nat
    var valueCache: Option<bool>
    var isDisposed: bool

    function State(): PinState
      reads this
    {
      PinState(pin, exportOnCreate, unexportOnDispose, initialDirection, initialActiveLow, initialValue,
               valueCache, isDisposed, assertionTime, deassertionTime, debounceTime)
    }

    function Snapshot(): World
      reads this, sysfs
    {
      World(State(), sysfs.State())
    }

    /** The constructor up to the point where it starts touching files. */
    constructor (pin: int, name: string, sysfs: SysfsTree, exportPin: bool, unexportPin: bool,
                 direction: Option<Direction>, activeLow: Option<bool>, initialValue: Option<bool>,
                 assertionTime: Option<nat>, deassertionTime: Option<nat>, debounceTime: Option<nat>)
      ensures State() == Fields(pin, exportPin, unexportPin, direction, activeLow, initialValue,
                                assertionTime, deassertionTime, debounceTime)
      ensures this.name == name && this.sysfs == sysfs
    {
      this.pin := pin;
      this.name := name;
      this.sysfs := sysfs;
      this.exportOnCreate := exportPin;
      this.unexportOnDispose := unexportPin;
      this.initialDirection := direction;
      this.initialActiveLow := activeLow;
      this.initialValue := initialValue;
      this.assertionTime := assertionTime.GetOr(DefaultAssertionTime);
      this.deassertionTime := deassertionTime.GetOr(DefaultDeassertionTime);
      this.debounceTime := debounceTime.GetOr(DefaultDebounceTime);
      valueCache := None;
      isDisposed := false;
    }

    /** The rest of the constructor; a failure is the exception the
        constructor would throw. */
    method Configure(created: bool) returns (outcome: Outcome)
      modifies this, sysfs
      ensures Snapshot() == old(Snapshot()).Configure(created).world && outcome == old(Snapshot()).Configure(created).outcome
    {
      if exportOnCreate {
        var _ := EnsurePinEnabled(created);
      }
      var exported := sysfs.DirectoryExists(PinDirectory(pin));
      if !exported {
        return Fail(DirectoryNotFound);
      }
      if initialActiveLow.Some? {
        var _ := SetActiveLow(initialActiveLow.value);
      }
      valueCache := initialValue;
      outcome := Done;
      if initialDirection.Some? {
        outcome := SetDirection(initialDirection.value);
      }
    }

    /** EnsurePinEnabled: an exported pin is left alone, otherwise it is
        exported and the directory checked. */
    method EnsurePinEnabled(created: bool) returns (ok: bool)
      modifies sysfs
      ensures PinExported(old(sysfs.State()), pin) ==> sysfs.State() == old(sysfs.State())
      ensures !PinExported(old(sysfs.State()), pin) ==> sysfs.State() == RequestExport(old(sysfs.State()), pin, created)
      ensures ok <==> PinExported(sysfs.State(), pin)
    {
      var exported := sysfs.DirectoryExists(PinDirectory(pin));
      if exported {
        return true;
      }
      sysfs.TryWriteAllText(ExportPath, IntToString(pin));
      if created {
        sysfs.CreatePinDirectory(pin);
      }
      ok := sysfs.DirectoryExists(PinDirectory(pin));
    }

    /** EnsurePinDisabled: an exported pin is unexported and checked. */
    method EnsurePinDisabled(removed: bool) returns (ok: bool)
      modifies sysfs
      ensures PinExported(old(sysfs.State()), pin) ==> sysfs.State() == RequestUnexport(old(sysfs.State()), pin, removed)
      ensures !PinExported(old(sysfs.State()), pin) ==> sysfs.State() == old(sysfs.State())
      ensures ok <==> !PinExported(sysfs.State(), pin)
    {
      var exported := sysfs.DirectoryExists(PinDirectory(pin));
      if !exported {
        return true;
      }
      sysfs.TryWriteAllText(UnexportPath, IntToString(pin));
      if removed {
        sysfs.RemovePinDirectory(pin);
      }
      var still := sysfs.DirectoryExists(PinDirectory(pin));
      ok := !still;
    }

    method GetDirection() returns (r: Result<Direction>)
      ensures r == Snapshot().GetDirection()
    {
      if isDisposed {
        return Err(ObjectDisposed);
      }
      var text := sysfs.ReadAllText(DirectionPath(pin));
      match text
      case Err(e) => r := Err(e);
      case Ok(t) => r := DecodeDirection(t);
    }

    method SetDirection(d: Direction) returns (outcome: Outcome)
      modifies sysfs
      ensures Snapshot() == old(Snapshot()).SetDirection(d).world && outcome == old(Snapshot()).SetDirection(d).outcome
    {
      if isDisposed {
        return Fail(ObjectDisposed);
      }
      outcome := sysfs.WriteAllText(DirectionPath(pin), ToDirectionString(d, valueCache));
      if outcome.Fail? {
        return;
      }
      if d == Input {
        var _ := EnableEdgeDetection();
      }
    }

    /** EnableEdgeDetection: "both" to the edge file, reporting success. */
    method EnableEdgeDetection() returns (ok: bool)
      modifies sysfs
      ensures sysfs.State() == TryWrite(old(sysfs.State()), EdgePath(pin), "both")
      ensures ok <==> EdgePath(pin) in old(sysfs.State()).files
    {
      var outcome := sysfs.WriteAllText(EdgePath(pin), "both");
      ok := outcome == Done;
    }

    method GetActiveLow() returns (r: Result<bool>)
      ensures r == Snapshot().GetActiveLow()
    {
      if isDisposed {
        return Err(ObjectDisposed);
      }
      var text := sysfs.ReadAllText(ActiveLowPath(pin));
      match text
      case Err(e) => r := Err(e);
      case Ok(t) => r := DecodeBool(t);
    }

    method SetActiveLow(a: bool) returns (outcome: Outcome)
      modifies sysfs
      ensures Snapshot() == old(Snapshot()).SetActiveLow(a).world && outcome == old(Snapshot()).SetActiveLow(a).outcome
    {
      if isDisposed {
        return Fail(ObjectDisposed);
      }
      sysfs.TryWriteAllText(ActiveLowPath(pin), BoolText(a));
      outcome := Done;
    }

    method GetValue() returns (r: Result<bool>)
      ensures r == Snapshot().GetValue()
    {
      if isDisposed {
        return Err(ObjectDisposed);
      }
      var text := sysfs.ReadAllText(ValuePath(pin));
      match text
      case Err(e) => r := Err(e);
      case Ok(t) => r := DecodeBool(t);
    }

    method SetValue(v: bool) returns (outcome: Outcome)
      modifies this, sysfs
      ensures Snapshot() == old(Snapshot()).SetValue(v).world && outcome == old(Snapshot()).SetValue(v).outcome
    {
      if isDisposed {
        return Fail(ObjectDisposed);
      }
      valueCache := Some(v);
      sysfs.TryWriteAllText(ValuePath(pin), BoolText(v));
      outcome := Done;
    }

    method Pulse(cancelled: bool) returns (outcome: Outcome)
      modifies this, sysfs
      ensures Snapshot() == old(Snapshot()).Pulse(cancelled).world && outcome == old(Snapshot()).Pulse(cancelled).outcome
    {
      if isDisposed {
        return Fail(ObjectDisposed);
      }
      var _ := SetValue(true);
      var _ := SetValue(false);
      outcome := if cancelled then Fail(OperationCanceled) else Done;
    }

    method Dispose(removed: bool)
      modifies this, sysfs
      ensures Snapshot() == old(Snapshot()).Dispose(removed)
    {
      isDisposed := true;
      if unexportOnDispose {
        var _ := EnsurePinDisabled(removed);
      }
    }
  }

  /** new LinuxGpioPin(...): the object, and whether its constructor
      completed (a failure is the exception it threw). */
  method Create(pin: int, name: string, sysfs: SysfsTree, exportPin: bool, unexportPin: bool,
                direction: Option<Direction>, activeLow: Option<bool>, initialValue: Option<bool>,
                assertionTime: Option<nat>, deassertionTime: Option<nat>, debounceTime: Option<nat>,
                created: bool)
    returns (p: LegacyLinuxGpioPin, outcome: Outcome)
    modifies sysfs
    ensures fresh(p) && p.sysfs == sysfs && p.name == name
    ensures var w := World(Fields(pin, exportPin, unexportPin, direction, activeLow, initialValue,
                                  assertionTime, deassertionTime, debounceTime), old(sysfs.State())).Configure(created);
      p.Snapshot() == w.world && outcome == w.outcome
  {
    p := new LegacyLinuxGpioPin(pin, name, sysfs, exportPin, unexportPin, direction, activeLow, initialValue,
                                assertionTime, deassertionTime, debounceTime);
    outcome := p.Configure(created);
  }
}
