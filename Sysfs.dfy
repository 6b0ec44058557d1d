/** The Linux sysfs GPIO interface as both pin classes see it: a tree of
    text files under /sys/class/gpio, the paths of a pin's attribute files,
    and the decoding of the text read from them. The kernel's own reaction
    to a write is not modelled: a file holds the last text written to it. */
module Sysfs {
  import opened Outcomes
  import opened Text
  import opened GpioDirection

  /** The files that exist, with their text, and the directories that exist. */
  datatype FileSystem = FileSystem(files: map<string, string>, dirs: set<string>)

  /** File.ReadAllText: the text of an existing file; any other path throws. */
  function Read(fs: FileSystem, path: string): (r: Result<string>)
    ensures r.Ok? <==> path in fs.files
    ensures r.Ok? ==> r.value == fs.files[path]
  {
    if path in fs.files then Ok(fs.files[path]) else Err(IOFailure)
  }

  /** File.WriteAllText on sysfs: an existing attribute file takes the text;
      no new file can be created there, so any other path throws. */
  function Write(fs: FileSystem, path: string, text: string): (r: Result<FileSystem>)
    ensures r.Ok? <==> path in fs.files
    ensures r.Ok? ==> Read(r.value, path) == Ok(text) && r.value.dirs == fs.dirs
    ensures r.Ok? ==> forall p :: p != path ==> Read(r.value, p) == Read(fs, p)
  {
    if path in fs.files then Ok(fs.(files := fs.files[path := text])) else Err(IOFailure)
  }

  /** A write inside try { } catch { }: a failure leaves the tree as it was. */
  function TryWrite(fs: FileSystem, path: string, text: string): (r: FileSystem)
    ensures path in fs.files ==> Ok(r) == Write(fs, path, text)
    ensures path !in fs.files ==> r == fs
  {
    match Write(fs, path, text)
    case Ok(fs') => fs'
    case Err(_) => fs
  }

  // ---------------------------------------------------------------------
  // Paths

  /** Path.DirectorySeparatorChar + Path.Combine("sys", "class", "gpio"). */
  const GpioDirectory: string := "/sys/class/gpio"
  const ExportPath: string := "/sys/class/gpio/export"
  const UnexportPath: string := "/sys/class/gpio/unexport"
  /** NotifyWaitHelpers.INotifyWaitPath. */
  const INotifyWaitPath: string := "/usr/bin/inotifywait"

  /** GetPinDirectory: Path.Combine(gpioDirectory, "gpio" + Pin.ToString()),
      the entry "gpio" and the pin number directly inside the gpio directory. */
  function PinDirectory(pin: int): (r: string)
    ensures |r| > |GpioDirectory| + 1 && r[..|GpioDirectory| + 1] == GpioDirectory + "/"
    ensures r[|GpioDirectory| + 1..] == "gpio" + IntToString(pin) && '/' !in r[|GpioDirectory| + 1..]
  {
    IntToStringNoSlash(pin);
    GpioDirectory + "/gpio" + IntToString(pin)
  }

  /** The attribute files of a pin directory. */
  datatype Attribute = ValueFile | DirectionFile | EdgeFile | ActiveLowFile

  function AttributeName(a: Attribute): (r: string)
    ensures |r| > 0 && '/' !in r
  {
    match a
    case ValueFile => "value"
    case DirectionFile => "direction"
    case EdgeFile => "edge"
    case ActiveLowFile => "active_low"
  }

  /** GetValuePath, GetDirectionPath, GetEdgePath, GetActiveLowPath: the
      attribute's file directly inside the pin directory. */
  function AttributePath(pin: int, a: Attribute): (r: string)
    ensures |r| > |PinDirectory(pin)| + 1 && r[..|PinDirectory(pin)| + 1] == PinDirectory(pin) + "/"
    ensures r[|PinDirectory(pin)| + 1..] == AttributeName(a) && '/' !in r[|PinDirectory(pin)| + 1..]
  {
    PinDirectory(pin) + "/" + AttributeName(a)
  }

  lemma NamedPath(pin: int, a: Attribute)
    ensures AttributePath(pin, a) == PinDirectory(pin) + ("/" + AttributeName(a))
  {
  }

  function ValuePath(pin: int): (r: string)
    ensures r == PinDirectory(pin) + "/value"
  {
    NamedPath(pin, ValueFile);
    AttributePath(pin, ValueFile)
  }

  function DirectionPath(pin: int): (r: string)
    ensures r == PinDirectory(pin) + "/direction"
  {
    NamedPath(pin, DirectionFile);
    AttributePath(pin, DirectionFile)
  }

  function EdgePath(pin: int): (r: string)
    ensures r == PinDirectory(pin) + "/edge"
  {
    NamedPath(pin, EdgeFile);
    AttributePath(pin, EdgeFile)
  }

  function ActiveLowPath(pin: int): (r: string)
    ensures r == PinDirectory(pin) + "/active_low"
  {
    NamedPath(pin, ActiveLowFile);
    AttributePath(pin, ActiveLowFile)
  }

  lemma IntToStringNoSlash(i: int)
    ensures '/' !in IntToString(i)
  {
    var s := IntToString(i);
    forall k | 0 <= k < |s| ensures s[k] != '/' {
      if i < 0 && k > 0 {
        assert s[k] == NatToString(-i)[k - 1];
      }
    }
  }

  /** The pin directories of two pins differ unless the pins are the same. */
  lemma PinDirectoryInjective(a: int, b: int)
    requires PinDirectory(a) == PinDirectory(b)
    ensures a == b
  {
    var prefix := GpioDirectory + "/gpio";
    assert PinDirectory(a)[|prefix|..] == IntToString(a);
    assert PinDirectory(b)[|prefix|..] == IntToString(b);
    IntToStringInjective(a, b);
  }

  /** Every attribute path names one pin and one attribute: no two pins, and
      no two attributes of one pin, share a file. */
  lemma AttributePathInjective(a: int, x: Attribute, b: int, y: Attribute)
    requires AttributePath(a, x) == AttributePath(b, y)
    ensures a == b && x == y
  {
    var da, db := IntToString(a), IntToString(b);
    var na, nb := AttributeName(x), AttributeName(y);
    PathShape(a, x);
    PathShape(b, y);
    PrefixCancel(GpioDirectory + "/gpio", da + ['/'] + na, db + ['/'] + nb);
    IntToStringNoSlash(a);
    IntToStringNoSlash(b);
    SlashSplit(da, na, db, nb);
    IntToStringInjective(a, b);
  }

  /** The four attribute files of a pin are distinct files. */
  lemma AttributesDistinct(pin: int)
    ensures DirectionPath(pin) != EdgePath(pin) && DirectionPath(pin) != ValuePath(pin)
    ensures DirectionPath(pin) != ActiveLowPath(pin) && EdgePath(pin) != ValuePath(pin)
    ensures EdgePath(pin) != ActiveLowPath(pin) && ValuePath(pin) != ActiveLowPath(pin)
  {
    if DirectionPath(pin) == EdgePath(pin) { AttributePathInjective(pin, DirectionFile, pin, EdgeFile); }
    if DirectionPath(pin) == ValuePath(pin) { AttributePathInjective(pin, DirectionFile, pin, ValueFile); }
    if DirectionPath(pin) == ActiveLowPath(pin) { AttributePathInjective(pin, DirectionFile, pin, ActiveLowFile); }
    if EdgePath(pin) == ValuePath(pin) { AttributePathInjective(pin, EdgeFile, pin, ValueFile); }
    if EdgePath(pin) == ActiveLowPath(pin) { AttributePathInjective(pin, EdgeFile, pin, ActiveLowFile); }
    if ValuePath(pin) == ActiveLowPath(pin) { AttributePathInjective(pin, ValueFile, pin, ActiveLowFile); }
  }

  lemma PathShape(pin: int, a: Attribute)
    ensures AttributePath(pin, a) == (GpioDirectory + "/gpio") + (IntToString(pin) + ['/'] + AttributeName(a))
  {
    Assoc(GpioDirectory + "/gpio", IntToString(pin), AttributeName(a));
  }

  lemma Assoc(p: string, d: string, n: string)
    ensures p + d + "/" + n == p + (d + ['/'] + n)
  {
  }

  lemma PrefixCancel(prefix: string, t1: string, t2: string)
    requires prefix + t1 == prefix + t2
    ensures t1 == t2
  {
    assert t1 == (prefix + t1)[|prefix|..];
    assert t2 == (prefix + t2)[|prefix|..];
  }

  lemma SlashSplit(d1: string, n1: string, d2: string, n2: string)
    requires '/' !in d1 && '/' !in n1 && '/' !in d2 && '/' !in n2
    requires d1 + ['/'] + n1 == d2 + ['/'] + n2
    ensures d1 == d2 && n1 == n2
  {
    SplitAfterFree(d1, n1, '/');
    SplitAfterFree(d2, n2, '/');
    SplitFree(n1, '/');
    SplitFree(n2, '/');
    assert [d1] + [n1] == [d2] + [n2];
    assert ([d1] + [n1])[0] == d1 && ([d1] + [n1])[1] == n1;
  }

  /** Every attribute file sits directly under the pin's directory. */
  lemma AttributeUnderPinDirectory(pin: int, a: Attribute)
    ensures AttributePath(pin, a)[..|PinDirectory(pin)|] == PinDirectory(pin)
    ensures AttributePath(pin, a)[|PinDirectory(pin)|] == '/'
  {
  }

  // ---------------------------------------------------------------------
  // Text of the attribute files

  /** The text written for a boolean: "1" or "0". */
  function BoolText(b: bool): (r: string)
    ensures |r| == 1 && !IsWhiteSpace(r[0])
  {
    if b then "1" else "0"
  }

  /** The value and active_low decoding: the trimmed text "0" or "1";
      anything else throws InvalidOperationException. */
  function DecodeBool(text: string): (r: Result<bool>)
    ensures r.Ok? ==> Trim(text) == BoolText(r.value)
    ensures r.Err? ==> r.error == InvalidOperation && Trim(text) != "0" && Trim(text) != "1"
  {
    var t := Trim(text);
    if t == "0" then Ok(false)
    else if t == "1" then Ok(true)
    else Err(InvalidOperation)
  }

  /** What was written reads back, and so does the kernel's rendering of it
      with a trailing newline or other surrounding white space. */
  lemma DecodeBoolText(b: bool, pre: string, post: string)
    requires AllWhiteSpace(pre) && AllWhiteSpace(post)
    ensures DecodeBool(pre + BoolText(b) + post) == Ok(b)
  {
    TrimPadded(pre, BoolText(b), post);
  }

  /** The text a setter writes decodes to the value written. */
  lemma DecodeBoolExact(b: bool)
    ensures DecodeBool(BoolText(b)) == Ok(b)
  {
    DecodeBoolText(b, "", "");
    assert "" + BoolText(b) + "" == BoolText(b);
  }

  /** The direction decoding compares the text as read, untrimmed, with
      "in" and "out"; anything else, "high" and "low" included, throws
      InvalidOperationException. */
  function DecodeDirection(text: string): (r: Result<Direction>)
    ensures r.Ok? <==> text == InputText || text == OutputText
    ensures r.Err? ==> r.error == InvalidOperation
  {
    if ToDirectionString(Input, None) == text then Ok(Input)
    else if ToDirectionString(Output, None) == text then Ok(Output)
    else Err(InvalidOperation)
  }

  /** The direction decoding inverts the level-free encoding, and only it. */
  lemma DecodeDirectionExactly(d: Direction, text: string)
    ensures DecodeDirection(text) == Ok(d) <==> text == ToDirectionString(d, None)
  {
  }

  /** Unlike the value decoding, the direction decoding does not trim: a
      line-terminated "out" is rejected. */
  lemma DirectionWithNewlineRejected()
    ensures DecodeDirection("out\n") == Err(InvalidOperation)
    ensures DecodeBool("1\n") == Ok(true)
  {
    DecodeBoolText(true, "", "\n");
    assert "" + BoolText(true) + "\n" == "1\n";
  }

  // ---------------------------------------------------------------------
  // Export and unexport

  /** IsPinExported: Directory.Exists(GetPinDirectory()). */
  predicate PinExported(fs: FileSystem, pin: int) {
    PinDirectory(pin) in fs.dirs
  }

  /** Whether a pin is exported depends on its own directory only: the
      kernel creating or removing another pin's directory does not change it. */
  lemma ExportIsPerPin(fs: FileSystem, pin: int, other: int)
    requires other != pin
    ensures PinExported(fs.(dirs := fs.dirs + {PinDirectory(other)}), pin) == PinExported(fs, pin)
    ensures PinExported(fs.(dirs := fs.dirs - {PinDirectory(other)}), pin) == PinExported(fs, pin)
  {
    if PinDirectory(other) == PinDirectory(pin) {
      PinDirectoryInjective(other, pin);
    }
  }

  /** TryExportPin and the kernel's answer to it: the pin number is written
      to the export file (a failure is ignored), and created says whether
      the pin directory then exists. */
  function RequestExport(fs: FileSystem, pin: int, created: bool): (r: FileSystem)
    ensures PinExported(r, pin) <==> created || PinExported(fs, pin)
    ensures forall p :: p != ExportPath ==> Read(r, p) == Read(fs, p)
  {
    var fs' := TryWrite(fs, ExportPath, IntToString(pin));
    if created then fs'.(dirs := fs'.dirs + {PinDirectory(pin)}) else fs'
  }

  /** TryUnexportPin and the kernel's answer: removed says whether the pin
      directory is gone afterwards. */
  function RequestUnexport(fs: FileSystem, pin: int, removed: bool): (r: FileSystem)
    ensures PinExported(r, pin) <==> !removed && PinExported(fs, pin)
    ensures forall p :: p != UnexportPath ==> Read(r, p) == Read(fs, p)
  {
    var fs' := TryWrite(fs, UnexportPath, IntToString(pin));
    if removed then fs'.(dirs := fs'.dirs - {PinDirectory(pin)}) else fs'
  }

  /** The file tree as a shared mutable object: both pin classes write to
      the same tree. */
  class SysfsTree {
    var files: map<string, string>
    var dirs: set<string>

    function State(): FileSystem
      reads this
    {
      FileSystem(files, dirs)
    }

    constructor (fs: FileSystem)
      ensures State() == fs
    {
      files := fs.files;
      dirs := fs.dirs;
    }

    /** File.ReadAllText. */
    method ReadAllText(path: string) returns (r: Result<string>)
      ensures r == Read(State(), path)
    {
      if path in files {
        return Ok(files[path]);
      }
      r := Err(IOFailure);
    }

    /** File.WriteAllText: the exception, if any, is the outcome. */
    method WriteAllText(path: string, text: string) returns (outcome: Outcome)
      modifies this
      ensures Write(old(State()), path, text).Ok? ==> outcome == Done && State() == Write(old(State()), path, text).value
      ensures Write(old(State()), path, text).Err? ==> outcome == Fail(IOFailure) && State() == old(State())
    {
      if path !in files {
        return Fail(IOFailure);
      }
      files := files[path := text];
      outcome := Done;
    }

    /** File.WriteAllText inside try { } catch { }. */
    method TryWriteAllText(path: string, text: string)
      modifies this
      ensures State() == TryWrite(old(State()), path, text)
    {
      var _ := WriteAllText(path, text);
    }

    /** Directory.Exists. */
    method DirectoryExists(path: string) returns (b: bool)
      ensures b <==> path in State().dirs
    {
      b := path in dirs;
    }

    /** File.Exists. */
    method FileExists(path: string) returns (b: bool)
      ensures b <==> path in State().files
    {
      b := path in files;
    }

    /** The kernel's answer to an export request: the pin directory appears. */
    method CreatePinDirectory(pin: int)
      modifies this
      ensures State() == old(State()).(dirs := old(dirs) + {PinDirectory(pin)})
    {
      dirs := dirs + {PinDirectory(pin)};
    }

    /** The kernel's answer to an unexport request: the pin directory goes. */
    method RemovePinDirectory(pin: int)
      modifies this
      ensures State() == old(State()).(dirs := old(dirs) - {PinDirectory(pin)})
    {
      dirs := dirs - {PinDirectory(pin)};
    }
  }
}
