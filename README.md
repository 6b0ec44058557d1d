# LinuxGpio in Dafny

A model of the core of crozone's LinuxGpio, a C# library that drives GPIO
pins through the Linux sysfs interface (`/sys/class/gpio`). The library
comes in two generations, and both are modelled here.

- **The newer library** lives in `LinuxGpio/`. Its pieces are:
  - a pin (`LinuxGpioPin`) that caches its settings until `Open`;
  - a list of pin-change scopes, each holding an `AwaitableQueue`;
  - a monitor task that starts when the first scope is registered and stops when the last one goes (or, if it failed, is left behind), and watches the value file by polling or through `inotifywait`;
  - a CSV line parser for `inotifywait` output, and the code that decodes that output;
  - the encoding of directions as sysfs `direction` strings;
  - a simulated pin (`DummyGpioPin`) with the same open/cache behaviour.
- **The older library** is in the root directory. Its pieces are:
  - a sysfs pin that configures itself in its constructor and keeps a value cache;
  - a simulated pin;
  - two timed reset events (`TimedAutoResetEvent`, `AsyncTimedResetEvent`), the library's debounce primitive: an event flag that a one-shot timer sets.

How the model is built:

- **The file system** is a value: a map from path to text, plus the set of directories that exist. The class `Sysfs.SysfsTree` holds it for the imperative code.
  - Reading or writing a path that is absent fails, as `File.ReadAllText` and `File.WriteAllText` throw.
  - The kernel's reaction to an export or unexport write is a parameter. `created` and `removed` say whether the pin directory appeared or went away.
- **Each object the source mutates** is a Dafny `class` with the same fields. Every method is tied by its `ensures` to a pure step function on a state datatype. For example, `LinuxPin.World.Open` computes the new pin and file tree, plus the outcome: `Done`, or the exception thrown.
- **The properties** the code promises are lemmas about those step functions.
- **Exceptions** are the `Outcomes.Error` constructors. A C# exception does not undo the assignments made before it, and the models keep those assignments.
- **Tasks and timers** become explicit steps:
  - the monitor task is `MonitorStart`, `PollStep` and `WatchStep`;
  - a timer elapsing is `Elapse`;
  - values that other threads deliver while a wait is blocked are given as a sequence (`arrivals`, `writes`).
- **Durations** are whole milliseconds.

Where the code and its documentation disagree, the model follows the code:

- The direction file is compared untrimmed, so `"out\n"` does not decode (`Sysfs.DirectionWithNewlineRejected`). Value and active_low text is trimmed.
- `WaitForValue(state, timeout)` never uses its timeout.
- The polling monitor never updates its baseline. It notifies on every round whose reading differs from the first reading, not on every change.
- A timed dequeue that times out on an empty queue reports `InvalidOperationException` from `Queue.Dequeue`, not a time-out.
- The `Dispose` methods of the newer pins dispose scopes inside a `foreach` over the list that each disposal shrinks. The enumerator then throws `InvalidOperationException`: only the first scope is deregistered, and the rest of `Dispose` does not run.
- The older dummy pin ignores its `activeLow` constructor argument.

## Model

| member | source | states |
|---|---|---|
| Text.Join | LinuxGpio/NotifyWaitHelpers.cs:39 | String.Join: no parts give the empty string, and a single part comes back without a separator |
| Text.JoinLength | LinuxGpio/NotifyWaitHelpers.cs:39 | a join holds every character of the parts plus one separator per gap between neighbours |
| Text.JoinAppend | LinuxGpio/NotifyWaitHelpers.cs:39 | joining two non-empty lists is joining each and putting one separator between them |
| Text.Split | LinuxGpio/NotifyWaitHelpers.cs:68 | String.Split(char): one piece more than there are separators, and no piece contains the separator |
| Text.JoinSplit | LinuxGpio/NotifyWaitHelpers.cs:68 | joining the pieces of a split with the separator gives the original string back |
| Text.SplitJoin | LinuxGpio/NotifyWaitHelpers.cs:68 | splitting a join of separator-free parts gives the parts back |
| Text.IsWhiteSpace | LinuxGpio/LinuxGPIOPin.cs:195 | char.IsWhiteSpace: space, tab, line feed and carriage return are white space; digits, ASCII letters, '-', ',' and '"' are not |
| Text.IsNullOrWhiteSpace | LinuxGpio/NotifyWaitHelpers.cs:58 | string.IsNullOrWhiteSpace: true exactly for null or a line that Trim reduces to nothing |
| Text.BlankIffTrimEmpty | LinuxGpio/NotifyWaitHelpers.cs:58 | a string is all white space exactly when Trim leaves nothing of it |
| Text.TrimStart | LinuxGpio/LinuxGPIOPin.cs:195 | the result is a suffix; everything cut off is white space; it does not start with white space |
| Text.TrimEnd | LinuxGpio/LinuxGPIOPin.cs:195 | the result is a prefix; everything cut off is white space; it does not end with white space |
| Text.Trim | LinuxGpio/LinuxGPIOPin.cs:195 | String.Trim: never longer than the input, and neither starts nor ends with white space |
| Text.TrimIsSlice | LinuxGpio/LinuxGPIOPin.cs:195 | what Trim keeps is a slice of the input with only white space cut off on either side |
| Text.TrimPadded | LinuxGpio/LinuxGPIOPin.cs:252 | white space around a non-blank core does not change what Trim returns |
| Text.IntToString | LinuxGpio/LinuxGPIOPin.cs:508 | Pin.ToString(): non-empty, starting with '-' exactly for a negative pin, and decimal digits after the first character |
| Text.NatToString | LinuxGpio/LinuxGPIOPin.cs:508 | Pin.ToString() of a natural number: at least one character, all decimal digits |
| Text.ParseNatToString | LinuxGpio/LinuxGPIOPin.cs:508 | reading the digits back gives the number: the rendering loses nothing |
| Text.IntToStringSign | LinuxGpio/LinuxGPIOPin.cs:508 | the rendering is non-empty and starts with '-' exactly for negative numbers |
| Text.NatToStringInjective | LinuxGpio/LinuxGPIOPin.cs:508 | distinct natural numbers render differently |
| Text.IntToStringInjective | LinuxGpio/LinuxGPIOPin.cs:508 | distinct pin numbers render differently |
| CsvParser.Scan | LinuxGpio/CSVParser.cs:36-142 | the character machine: the fields emitted so far are kept as a prefix, and at least one more field is emitted at the end of the line |
| CsvParser.Parse | LinuxGpio/CSVParser.cs:36-142 | the fields ParseLine(line, separator) yields: for any line, with stray, unterminated or closed quotes, one field more than the separators outside quoted sections |
| CsvParser.ParseLineWith | LinuxGpio/CSVParser.cs:36-142 | the loop with its index advanced inside the body computes the Scan of the line, and yields at least one field |
| CsvParser.ParseLine | LinuxGpio/CSVParser.cs:25-28 | ParseLine(line) is ParseLine(line, ',') |
| CsvParser.ParseNeverEmpty | LinuxGpio/CSVParser.cs:43-141 | the result is never empty; "" parses to [""] |
| CsvParser.NormalQuoteFree | LinuxGpio/CSVParser.cs:82-111 | inside an unquoted field, a quote-free rest is the current field glued to the split of the rest |
| CsvParser.WaitingQuoteFree | LinuxGpio/CSVParser.cs:54-81 | at the start of a field, a quote-free rest parses to its split at the separator |
| CsvParser.ParseQuoteFree | LinuxGpio/CSVParser.cs:54-94 | a line with no '"' parses to its split at every separator, keeping empty leading, middle and trailing fields |
| CsvParser.FieldCountQuoteFree | LinuxGpio/CSVParser.cs:64-94 | a quote-free line has one field more than it has separators |
| CsvParser.Seps | LinuxGpio/CSVParser.cs:54-141 | the independent reference for the field count: the separators met outside quoted sections, following the machine's states only; never more than all the separators of the line |
| CsvParser.ScanCount | LinuxGpio/CSVParser.cs:54-141 | from any state, the machine emits one field per separator met outside a quoted section, plus one at the end of the line |
| CsvParser.QuotedSeparatorNotCounted | LinuxGpio/CSVParser.cs:112-135 | a separator inside quotes is text: "x,y",z has two fields |
| CsvParser.Escape | LinuxGpio/CSVParser.cs:124-131 | the inverse of the "" unescaping: quote-free text is unchanged |
| CsvParser.QuoteAll | LinuxGpio/CSVParser.cs:57-63 | every field is quoted, and the count is kept |
| CsvParser.StepOpenQuote | LinuxGpio/CSVParser.cs:57-63 | at the start of a field a quote is dropped and opens a quoted section with an empty field |
| CsvParser.StepNormalSeparator | LinuxGpio/CSVParser.cs:86-94 | a separator in an unquoted field yields the field and waits for the next one |
| CsvParser.StepQuotedClose | LinuxGpio/CSVParser.cs:116-120 | inside quotes, a quote not followed by another is dropped and the field goes on unquoted |
| CsvParser.StepQuotedEscape | LinuxGpio/CSVParser.cs:124-131 | inside quotes, "" adds one quote to the field and skips both characters |
| CsvParser.StepQuotedChar | LinuxGpio/CSVParser.cs:133 | inside quotes, any other character, separators included, is field text |
| CsvParser.QuotedSection | LinuxGpio/CSVParser.cs:112-135 | inside quotes, escaped text followed by a closing quote appends the unescaped text to the field and goes on as an unquoted field |
| CsvParser.EncodedFields | LinuxGpio/CSVParser.cs:54-141 | scanning quoted, separator-joined fields emits exactly those fields |
| CsvParser.ParseEncode | LinuxGpio/CSVParser.cs:36-142 | round trip: parsing the quoted encoding of any non-empty list of fields gives the fields back; separators and quotes inside quotes are field text |
| CsvParser.ClosingQuoteContinuesField | LinuxGpio/CSVParser.cs:57-63 | an opening quote is not part of the value, the closing quote is not emitted, and characters after it append to the same field |
| CsvParser.UnquotedEscape | LinuxGpio/CSVParser.cs:98-105 | "" inside an unquoted field yields one '"' and consumes both characters |
| GpioDirection.ToDirectionString | LinuxGpio/GpioDirection.cs:13-32 | the result is always one of "in", "out", "high", "low" |
| GpioDirection.RequestedSetting | LinuxGpio/Constants.cs:9-12 | the reference decoding of a direction string: defined exactly on the four strings |
| GpioDirection.RequestedSettingOfDirectionString | LinuxGpio/GpioDirection.cs:17-29 | Input encodes to "in" whatever the level; Output encodes its level ("high"/"low") or "out" without one |
| GpioDirection.DirectionStringOfRequestedSetting | LinuxGpio/GpioDirection.cs:13-32 | every direction string is the encoding of the setting it decodes to |
| GpioDirection.DirectionStringInjective | LinuxGpio/GpioDirection.cs:13-32 | equal encodings have the same direction, and for Output the same level |
| NotifyWait.Arguments | LinuxGpio/NotifyWaitHelpers.cs:39 | with null events the argument string is "-m  -q -c " + path, with two spaces |
| NotifyWait.UnfilteredWords | LinuxGpio/NotifyWaitHelpers.cs:39 | with null events the argument string splits into "-m", an empty word, "-q", "-c" and the path |
| NotifyWait.ArgumentWords | LinuxGpio/NotifyWaitHelpers.cs:39 | the argument string splits into "-m", "-e", the events, "-q", "-c", path; without events there is an empty word in place of "-e" |
| NotifyWait.DecodeLine | LinuxGpio/NotifyWaitHelpers.cs:58-73 | a response exactly for a non-blank line with 3 CSV fields: file, event list split on ',' (at least one name), event file |
| NotifyWait.Responses | LinuxGpio/NotifyWaitHelpers.cs:46-75 | at most one response per line read |
| NotifyWait.Announce | LinuxGpio/NotifyWaitHelpers.cs:46-75 | the read loop calls back with exactly the decoded responses, in reading order |
| NotifyWait.ResponsesAppend | LinuxGpio/NotifyWaitHelpers.cs:46-75 | the callbacks for two stretches of output are those of the first, then those of the second |
| NotifyWait.BlankLineSilent | LinuxGpio/NotifyWaitHelpers.cs:52-58 | a null or whitespace-only line produces no callback |
| NotifyWait.DecodeEncodeResponse | LinuxGpio/NotifyWaitHelpers.cs:60-72 | round trip: the line inotifywait prints for a response decodes back to that response |
| NotifyWait.DecodeQuoteFreeLine | LinuxGpio/NotifyWaitHelpers.cs:60-70 | a quote-free line is accepted exactly when it has two commas, and its event list is then the middle field |
| AwaitableQueue.Empty | LinuxGpio/AwaitableQueue.cs:17-26 | a new queue is empty, live, and its semaphore count is its length |
| AwaitableQueue.EnqueueStep | LinuxGpio/AwaitableQueue.cs:17-26 | succeeds exactly on a live queue, appends one item at the tail, and keeps the count equal to the length |
| AwaitableQueue.TakeHead | LinuxGpio/AwaitableQueue.cs:33-36 | Queue.Dequeue: throws InvalidOperationException exactly on an empty queue, otherwise returns and removes the head |
| AwaitableQueue.WaitAndDequeueStep | LinuxGpio/AwaitableQueue.cs:28-37 | ObjectDisposed when disposed, OperationCanceled when cancelled, and never a time-out result: the wait's result is ignored |
| AwaitableQueue.DisposeStep | LinuxGpio/AwaitableQueue.cs:50-55 | disposal is one-way and does not clear buffered items |
| AwaitableQueue.WaitAndDequeueTakesHead | LinuxGpio/AwaitableQueue.cs:28-37 | on a non-empty live queue the dequeue returns and removes the head, and the count drops by one |
| AwaitableQueue.EmptyWait | LinuxGpio/AwaitableQueue.cs:32-36 | on an empty queue an infinite wait blocks, and a finite one throws from Queue.Dequeue instead of timing out |
| AwaitableQueue.TryDequeue | LinuxGpio/AwaitableQueue.cs:28-37 | reference definition that honours the wait's result: times out exactly when a finite wait finds no permit |
| AwaitableQueue.TryDequeueAgrees | LinuxGpio/AwaitableQueue.cs:28-37 | the code agrees with the reference except on a time-out, where it throws InvalidOperationException |
| AwaitableQueue.EnqueueAll | LinuxGpio/AwaitableQueue.cs:17-26 | a run of enqueues appends its items in order, and fails only on a disposed queue |
| AwaitableQueue.FirstInFirstOut | LinuxGpio/AwaitableQueue.cs:17-37 | FIFO: after enqueuing xs, dequeuing the earlier items returns them in order and leaves exactly xs |
| AwaitableQueue.DisposedRejectsAll | LinuxGpio/AwaitableQueue.cs:50-63 | after Dispose, Enqueue and the dequeues throw ObjectDisposedException, and Dispose again changes nothing |
| AwaitableQueue.AwaitableQueue.constructor | LinuxGpio/AwaitableQueue.cs:17-26 | the object starts as the empty queue |
| AwaitableQueue.AwaitableQueue.Enqueue | LinuxGpio/AwaitableQueue.cs:17-26 | the new state is EnqueueStep of the old, or ObjectDisposed with nothing changed |
| AwaitableQueue.AwaitableQueue.WaitAndDequeue | LinuxGpio/AwaitableQueue.cs:28-37 | result and new state are WaitAndDequeueStep of the old state; the count invariant is kept |
| AwaitableQueue.AwaitableQueue.WhenDequeue | LinuxGpio/AwaitableQueue.cs:39-48 | the same as WaitAndDequeue, as the asynchronous version does |
| AwaitableQueue.AwaitableQueue.Dispose | LinuxGpio/AwaitableQueue.cs:50-55 | the new state is DisposeStep of the old |
| ChangeScopes.FreshId | LinuxGpio/DummyGpioPin.cs:284 | a new scope's identity differs from every registered one |
| ChangeScopes.Register | LinuxGpio/DummyGpioPin.cs:280-288 | registering appends one new scope with an empty live queue, and keeps the list well formed |
| ChangeScopes.IndexOf | LinuxGpio/DummyGpioPin.cs:294 | finds a scope exactly when it is registered, at a position holding it |
| ChangeScopes.Deregister | LinuxGpio/DummyGpioPin.cs:290-296 | List.Remove: an absent scope changes nothing; a present one shortens the list by one |
| ChangeScopes.DeregisterOnlyThat | LinuxGpio/DummyGpioPin.cs:290-296 | removal takes out only that scope, at its position, and nothing else in the list changes |
| ChangeScopes.RegisterThenDeregister | LinuxGpio/DummyGpioPin.cs:308-312 | disposing a scope just registered gives the list back as it was |
| ChangeScopes.IndexOfAppend | LinuxGpio/DummyGpioPin.cs:285 | an appended scope is found at the end |
| ChangeScopes.Notify | LinuxGpio/DummyGpioPin.cs:330-339 | each scope's queue is what AwaitableQueue.Enqueue of the value makes of it, so the value lands at its tail; identities, liveness and distinctness are kept |
| ChangeScopes.NotifyAll | LinuxGpio/DummyGpioPin.cs:330-339 | the foreach loop over the scopes computes Notify |
| ChangeScopes.NotifyEach | LinuxGpio/LinuxGPIOPin.cs:449-458 | a run of notifications keeps the list's length and live queues |
| ChangeScopes.NotifyEachAppends | LinuxGpio/LinuxGPIOPin.cs:449-458 | after a run of notifications each queue holds its old items followed by the values, in order |
| ChangeScopes.NotifyEachAt | LinuxGpio/LinuxGPIOPin.cs:449-458 | one scope over a run of notifications: it keeps its identity, and its queue gains exactly the values, in order |
| ChangeScopes.LateScopeSeesLaterChanges | LinuxGpio/LinuxGPIOPin.cs:373-388 | a scope registered late receives exactly the changes made after it was registered |
| DummyPin.PinState.SetActiveLowInternal | LinuxGpio/DummyGpioPin.cs:143-146 | changes only the simulated active-low, not the level and not the scopes |
| DummyPin.PinState.SetValueInternal | LinuxGpio/DummyGpioPin.cs:182-199 | an input throws InvalidOperationException and changes nothing; an output reads back the value, and the scopes are told exactly when the raw level changes |
| DummyPin.PinState.SetDirectionInternal | LinuxGpio/DummyGpioPin.cs:105-113 | sets the direction; the level is written only for an output with a known level, and then reads back |
| DummyPin.PinState.Open | LinuxGpio/DummyGpioPin.cs:47-72 | ObjectDisposed when disposed, InvalidOperation when already open, otherwise the pin is open |
| DummyPin.PinState.GetDirection | LinuxGpio/DummyGpioPin.cs:78-87 | throws exactly when disposed |
| DummyPin.PinState.SetDirection | LinuxGpio/DummyGpioPin.cs:88-97 | caches the direction; before Open only the cache changes |
| DummyPin.PinState.GetActiveLow | LinuxGpio/DummyGpioPin.cs:116-125 | throws exactly when disposed |
| DummyPin.PinState.SetActiveLow | LinuxGpio/DummyGpioPin.cs:126-135 | caches active-low and tells no scope; before Open only the cache changes |
| DummyPin.PinState.GetValue | LinuxGpio/DummyGpioPin.cs:155-164 | throws exactly when disposed |
| DummyPin.PinState.SetValue | LinuxGpio/DummyGpioPin.cs:165-174 | caches the value even when the write then throws; before Open only the cache changes |
| DummyPin.PinState.Dispose | LinuxGpio/DummyGpioPin.cs:390-407 | marks the pin disposed; with scopes, only the first is removed and InvalidOperationException escapes from the enumerator |
| DummyPin.Created | LinuxGpio/DummyGpioPin.cs:10-45 | a new pin has nothing cached, is live, not open and has no scopes, and its simulated hardware is an input at low level without inversion |
| DummyPin.UnopenedReadsCache | LinuxGpio/DummyGpioPin.cs:78-174 | before Open the getters return the cache or the defaults Input/false/false, and each setter's value reads back |
| DummyPin.OpenApplies | LinuxGpio/DummyGpioPin.cs:47-66 | Open applies the cached active-low, then the cached direction; the cached level is written only to an output, and then reads back |
| DummyPin.OpenOnce | LinuxGpio/DummyGpioPin.cs:51-54 | once Open has succeeded, every further Open throws and changes nothing |
| DummyPin.ValueReadsBack | LinuxGpio/DummyGpioPin.cs:177-188 | on an open output a written value reads back, whatever active-low is |
| DummyPin.InputWriteThrows | LinuxGpio/DummyGpioPin.cs:165-198 | on an open input the write throws, and the cached value has already been replaced |
| DummyPin.WriteNotifiesOnChange | LinuxGpio/DummyGpioPin.cs:186-193 | a write tells every scope the logical value exactly when it changes; writing the same value tells nobody |
| DummyPin.ActiveLowFlipsSilently | LinuxGpio/DummyGpioPin.cs:143-146 | changing active-low on an open pin inverts the read value when it changes the inversion, and tells no scope |
| DummyPin.DisposedRejectsAll | LinuxGpio/DummyGpioPin.cs:390-415 | after Dispose, Open and every getter and setter throw ObjectDisposedException and change nothing |
| DummyPin.FirstMatch | LinuxGpio/DummyGpioPin.cs:428-436 | the position of the first match, with no match before it, or no match at all |
| DummyPin.DummyGpioPin.constructor | LinuxGpio/DummyGpioPin.cs:37-45 | the object starts in the Created state |
| DummyPin.DummyGpioPin.NotifyAllScopesOfPinChange | LinuxGpio/DummyGpioPin.cs:330-339 | every scope's queue gets the value; nothing else changes |
| DummyPin.DummyGpioPin.SetValueInternal | LinuxGpio/DummyGpioPin.cs:182-199 | new state and outcome are PinState.SetValueInternal of the old state |
| DummyPin.DummyGpioPin.SetDirectionInternal | LinuxGpio/DummyGpioPin.cs:105-113 | new state and outcome are PinState.SetDirectionInternal of the old state |
| DummyPin.DummyGpioPin.Open | LinuxGpio/DummyGpioPin.cs:47-72 | new state and outcome are PinState.Open of the old state |
| DummyPin.DummyGpioPin.GetDirection | LinuxGpio/DummyGpioPin.cs:78-87 | returns PinState.GetDirection |
| DummyPin.DummyGpioPin.SetDirection | LinuxGpio/DummyGpioPin.cs:88-97 | new state and outcome are PinState.SetDirection of the old state |
| DummyPin.DummyGpioPin.GetActiveLow | LinuxGpio/DummyGpioPin.cs:116-125 | returns PinState.GetActiveLow |
| DummyPin.DummyGpioPin.SetActiveLow | LinuxGpio/DummyGpioPin.cs:126-135 | new state and outcome are PinState.SetActiveLow of the old state |
| DummyPin.DummyGpioPin.GetValue | LinuxGpio/DummyGpioPin.cs:155-164 | returns PinState.GetValue |
| DummyPin.DummyGpioPin.SetValue | LinuxGpio/DummyGpioPin.cs:165-174 | new state and outcome are PinState.SetValue of the old state |
| DummyPin.DummyGpioPin.CreateAndRegisterPinChangedScope | LinuxGpio/DummyGpioPin.cs:280-288 | the list is Register of the old list, and the new scope's identity is returned |
| DummyPin.DummyGpioPin.DeregisterPinChangeScope | LinuxGpio/DummyGpioPin.cs:290-296 | the list is Deregister of the old list; nothing else changes |
| DummyPin.DummyGpioPin.Dispose | LinuxGpio/DummyGpioPin.cs:390-407 | new state and outcome are PinState.Dispose of the old state |
| DummyPin.DummyGpioPin.WaitForValue | LinuxGpio/DummyGpioPin.cs:422-438 | ignores the timeout; takes changes up to and including the first equal to state, then deregisters its scope; with no such change it waits for ever, its scope still registered |
| DummyPin.TakeUntil | LinuxGpio/DummyGpioPin.cs:428-436 | the dequeue loop takes exactly the changes up to the first match, or runs the queue dry and blocks |
| Sysfs.Read | LinuxGpio/LinuxGPIOPin.cs:128 | File.ReadAllText: succeeds exactly on an existing file, with its text |
| Sysfs.Write | LinuxGpio/LinuxGPIOPin.cs:154 | File.WriteAllText: succeeds exactly on an existing file, which then reads back the text; nothing else changes |
| Sysfs.TryWrite | LinuxGpio/LinuxGPIOPin.cs:206-213 | a write whose failure is swallowed: the write when it succeeds, otherwise nothing changes |
| Sysfs.PinDirectory | LinuxGpio/LinuxGPIOPin.cs:506-509 | GetPinDirectory: an entry directly inside /sys/class/gpio, named "gpio" followed by the pin number, with no further '/' |
| Sysfs.AttributePath | LinuxGpio/LinuxGPIOPin.cs:722-740 | an attribute file lies directly inside the pin directory, its last component being the attribute's name |
| Sysfs.ValuePath | LinuxGpio/LinuxGPIOPin.cs:722-725 | GetValuePath: the pin directory followed by "/value" |
| Sysfs.DirectionPath | LinuxGpio/LinuxGPIOPin.cs:727-730 | GetDirectionPath: the pin directory followed by "/direction" |
| Sysfs.EdgePath | LinuxGpio/LinuxGPIOPin.cs:732-735 | GetEdgePath: the pin directory followed by "/edge" |
| Sysfs.ActiveLowPath | LinuxGpio/LinuxGPIOPin.cs:737-740 | GetActiveLowPath: the pin directory followed by "/active_low" |
| Sysfs.PinExported | LinuxGpio/LinuxGPIOPin.cs:709-712 | IsPinExported: the pin directory exists (how export and unexport change it is stated by RequestExport, RequestUnexport and ExportIsPerPin) |
| Sysfs.ExportIsPerPin | LinuxGpio/LinuxGPIOPin.cs:709-712 | whether a pin is exported does not change when another pin's directory is created or removed |
| Sysfs.AttributeName | LinuxGpio/LinuxGPIOPin.cs:722-740 | the attribute file names are non-empty, with no '/' |
| Sysfs.IntToStringNoSlash | LinuxGpio/LinuxGPIOPin.cs:508 | a pin number's rendering has no '/' |
| Sysfs.PinDirectoryInjective | LinuxGpio/LinuxGPIOPin.cs:506-509 | distinct pins have distinct directories |
| Sysfs.AttributePathInjective | LinuxGpio/LinuxGPIOPin.cs:722-740 | an attribute path determines its pin and its attribute |
| Sysfs.AttributesDistinct | LinuxGpio/LinuxGPIOPin.cs:722-740 | the value, direction, edge and active_low paths of a pin are pairwise distinct |
| Sysfs.PathShape | LinuxGpio/LinuxGPIOPin.cs:17 | an attribute path is "/sys/class/gpio/gpio" + decimal(pin) + "/" + the attribute name |
| Sysfs.AttributeUnderPinDirectory | LinuxGpio/LinuxGPIOPin.cs:506-509 | every attribute path is the pin directory followed by '/' |
| Sysfs.BoolText | LinuxGpio/LinuxGPIOPin.cs:210 | "1" or "0": a single non-blank character |
| Sysfs.DecodeBool | LinuxGpio/LinuxGPIOPin.cs:244-261 | the trimmed text is "0" or "1" and gives that value; anything else throws InvalidOperationException |
| Sysfs.DecodeBoolText | LinuxGpio/LinuxGPIOPin.cs:252 | round trip: "0"/"1" with any surrounding white space decodes to its value |
| Sysfs.DecodeBoolExact | LinuxGpio/LinuxGPIOPin.cs:252 | round trip: the text written for a value decodes back to it |
| Sysfs.DecodeDirection | LinuxGpio/LinuxGPIOPin.cs:126-142 | decodes exactly the untrimmed texts "in" and "out"; anything else throws InvalidOperationException |
| Sysfs.DecodeDirectionExactly | LinuxGpio/LinuxGPIOPin.cs:130-137 | a text decodes to a direction exactly when it is that direction's level-free encoding |
| Sysfs.DirectionWithNewlineRejected | LinuxGpio/LinuxGPIOPin.cs:130-137 | "out\n" is rejected as a direction while "1\n" is accepted as a value |
| Sysfs.RequestExport | LinuxGpio/LinuxGPIOPin.cs:638-669 | writes to the export file; the pin is then exported exactly when it was or the kernel created it; no other file changes |
| Sysfs.RequestUnexport | LinuxGpio/LinuxGPIOPin.cs:678-707 | writes to the unexport file; the pin stays exported exactly when it was and the kernel did not remove it |
| Sysfs.SysfsTree.constructor | LinuxGpio/LinuxGPIOPin.cs:17 | the tree holds the given files and directories |
| Sysfs.SysfsTree.ReadAllText | LinuxGpio/LinuxGPIOPin.cs:128 | returns Read of the tree |
| Sysfs.SysfsTree.WriteAllText | LinuxGpio/LinuxGPIOPin.cs:154 | the new tree is Write of the old, or IOFailure with nothing changed |
| Sysfs.SysfsTree.TryWriteAllText | LinuxGpio/LinuxGPIOPin.cs:206-213 | the new tree is TryWrite of the old |
| Sysfs.SysfsTree.DirectoryExists | LinuxGpio/LinuxGPIOPin.cs:709-712 | true exactly for an existing directory |
| Sysfs.SysfsTree.FileExists | LinuxGpio/LinuxGPIOPin.cs:742-745 | true exactly for an existing file |
| Sysfs.SysfsTree.CreatePinDirectory | LinuxGpio/LinuxGPIOPin.cs:638-669 | the kernel's side of an export: the pin directory is added |
| Sysfs.SysfsTree.RemovePinDirectory | LinuxGpio/LinuxGPIOPin.cs:678-707 | the kernel's side of an unexport: the pin directory is removed |
| LinuxPin.World.GetDirectionInternal | LinuxGpio/LinuxGPIOPin.cs:126-142 | a missing direction file is an I/O failure; otherwise the file text is decoded untrimmed |
| LinuxPin.World.SetDirectionInternal | LinuxGpio/LinuxGPIOPin.cs:144-162 | writes ToDirectionString(direction, level) to the direction file, failing without it; an input also gets "both" in its edge file; an output's edge file is untouched |
| LinuxPin.World.GetActiveLowInternal | LinuxGpio/LinuxGPIOPin.cs:187-204 | a missing file is an I/O failure; otherwise the trimmed text is decoded |
| LinuxPin.World.SetActiveLowInternal | LinuxGpio/LinuxGPIOPin.cs:206-213 | writes "1"/"0" to active_low, swallowing a failure |
| LinuxPin.World.GetValueInternal | LinuxGpio/LinuxGPIOPin.cs:244-261 | a missing file is an I/O failure; otherwise the trimmed text is decoded |
| LinuxPin.World.SetValueInternal | LinuxGpio/LinuxGPIOPin.cs:263-275 | re-reads the direction; an output gets "1"/"0" in its value file; an input throws InvalidOperationException and nothing changes |
| LinuxPin.World.Open | LinuxGpio/LinuxGPIOPin.cs:56-98 | ObjectDisposed when disposed, InvalidOperation when open; an exported pin that passes the inotify check is opened; without export, a missing directory throws DirectoryNotFoundException and the pin stays closed |
| LinuxPin.World.CheckExported | LinuxGpio/LinuxGPIOPin.cs:65-80 | passes exactly when the pin is exported afterwards and inotify is possible if asked for; a failure is InvalidOperation or DirectoryNotFound as the Export flag says; export is requested only when asked and needed |
| LinuxPin.World.ApplySettings | LinuxGpio/LinuxGPIOPin.cs:82-92 | the pin counts as open from here on, even if a write fails; with no cached direction it succeeds |
| LinuxPin.World.GetDirection | LinuxGpio/LinuxGPIOPin.cs:103-113 | throws exactly when disposed; before Open the cache or Input, after it the direction file |
| LinuxPin.World.SetDirection | LinuxGpio/LinuxGPIOPin.cs:114-123 | caches the direction; before Open no file changes |
| LinuxPin.World.GetActiveLow | LinuxGpio/LinuxGPIOPin.cs:164-174 | throws exactly when disposed; before Open the cache or false, after it the active_low file |
| LinuxPin.World.SetActiveLow | LinuxGpio/LinuxGPIOPin.cs:175-184 | caches active-low; on an open pin writes "1"/"0", swallowing a failure; before Open no file changes |
| LinuxPin.World.GetValue | LinuxGpio/LinuxGPIOPin.cs:221-231 | throws exactly when disposed; before Open the cache or false, after it the value file |
| LinuxPin.World.SetValue | LinuxGpio/LinuxGPIOPin.cs:232-241 | the cache is updated before the write; before Open no file changes |
| LinuxPin.World.RegisterScope | LinuxGpio/LinuxGPIOPin.cs:373-389 | appends a scope; the monitor starts exactly on a register into an empty list |
| LinuxPin.World.DeregisterScope | LinuxGpio/LinuxGPIOPin.cs:391-415 | an absent scope is a no-op; the monitor stops only when a removal leaves the list empty, and a faulted monitor's exception then escapes |
| LinuxPin.World.NotifyWithValue | LinuxGpio/LinuxGPIOPin.cs:467 | the monitor reads Value and tells every scope; a failed read faults the monitor |
| LinuxPin.World.MonitorStart | LinuxGpio/LinuxGPIOPin.cs:460-473 | with inotify the monitor watches; otherwise it polls with the first reading as its baseline |
| LinuxPin.World.PollStep | LinuxGpio/LinuxGPIOPin.cs:474-486 | only a polling monitor acts; the scope count and the files are kept |
| LinuxPin.World.WatchStep | LinuxGpio/LinuxGPIOPin.cs:464-469 | a line that decodes to a response makes the monitor read and notify; any other line changes nothing |
| LinuxPin.World.Dispose | LinuxGpio/LinuxGPIOPin.cs:560-582 | marks the pin disposed; with scopes, only the first is removed and an exception escapes before the unexport; otherwise unexports when asked and exported |
| LinuxPin.World.Pulse | LinuxGpio/LinuxGPIOPin.cs:516-531 | the cached value ends false; before Open only the cache changes |
| LinuxPin.Created | LinuxGpio/LinuxGPIOPin.cs:45-54 | a new pin is closed and live, and uses inotify exactly when inotifywait exists |
| LinuxPin.OpenAppliesSettings | LinuxGpio/LinuxGPIOPin.cs:82-92 | Open writes the cached active-low, then the cached direction with the cached value (and "both" to edge for an input), and leaves the value file alone |
| LinuxPin.OpenExportFails | LinuxGpio/LinuxGPIOPin.cs:65-71 | with export requested and no directory appearing, Open throws InvalidOperationException and the pin stays closed |
| LinuxPin.UnopenedReadsCache | LinuxGpio/LinuxGPIOPin.cs:107-110 | before Open each setter's value reads back, and no file changes |
| LinuxPin.ValueWriteNeedsOutput | LinuxGpio/LinuxGPIOPin.cs:263-275 | a value write reaches the value file only when the direction file says "out"; "in" throws InvalidOperationException; any other text fails with no file changed |
| LinuxPin.DirectionCarriesCachedValue | LinuxGpio/LinuxGPIOPin.cs:114-123 | setting Output on an open pin writes "high"/"low" for the cached value; Input writes "in" |
| LinuxPin.ScopeRoundTrip | LinuxGpio/LinuxGPIOPin.cs:373-415 | a scope registered and then deregistered leaves the pin as it was |
| LinuxPin.MonitorExactlyWhileRegistered | LinuxGpio/LinuxGPIOPin.cs:373-415 | a monitor exists while scopes are registered; it starts on the first register and, when the last scope goes, stops or is left behind as failed |
| LinuxPin.Polls | LinuxGpio/LinuxGPIOPin.cs:474-486 | n rounds keep the invariant, the files and the scope count |
| LinuxPin.Repeat | LinuxGpio/LinuxGPIOPin.cs:474-486 | n copies of a value |
| LinuxPin.PollAgainstBaseline | LinuxGpio/LinuxGPIOPin.cs:473-486 | the baseline is never replaced: with a reading v that differs from it, every round notifies v; a reading equal to it notifies nothing |
| LinuxPin.PollQueuesRepeat | LinuxGpio/LinuxGPIOPin.cs:473-486 | each queue receives one copy of the differing reading per round |
| LinuxPin.SteadyValueIsSilent | LinuxGpio/LinuxGPIOPin.cs:473-486 | a value that never changes after the monitor starts produces no notification |
| LinuxPin.PulseEndsLow | LinuxGpio/LinuxGPIOPin.cs:516-531 | on an open pin whose direction file says "out", Pulse succeeds and the finally block leaves "0" in the value file and false in the cache |
| LinuxPin.DisposedRejectsAll | LinuxGpio/LinuxGPIOPin.cs:750-753 | after Dispose, Open and every property throw ObjectDisposedException and change nothing |
| LinuxPin.WatchIgnoresUndecodedLines | LinuxGpio/LinuxGPIOPin.cs:464-469 | inotifywait lines that decode to no response change nothing |
| LinuxPin.LinuxGpioPin.constructor | LinuxGpio/LinuxGPIOPin.cs:45-54 | the object starts in the Created state |
| LinuxPin.LinuxGpioPin.PlatformSupportsInotify | LinuxGpio/LinuxGPIOPin.cs:742-745 | true exactly when the inotifywait binary exists |
| LinuxPin.LinuxGpioPin.SetExport | LinuxGpio/LinuxGPIOPin.cs:300 | only the Export flag changes |
| LinuxPin.LinuxGpioPin.SetUnexport | LinuxGpio/LinuxGPIOPin.cs:305 | only the Unexport flag changes |
| LinuxPin.LinuxGpioPin.SetUseInotify | LinuxGpio/LinuxGPIOPin.cs:311 | only the UseInotify flag changes |
| LinuxPin.LinuxGpioPin.GetDirectionInternal | LinuxGpio/LinuxGPIOPin.cs:126-142 | returns World.GetDirectionInternal |
| LinuxPin.LinuxGpioPin.EnableEdgeDetection | LinuxGpio/LinuxGPIOPin.cs:584-595 | writes "both" to the edge file; reports success exactly when the file exists |
| LinuxPin.LinuxGpioPin.SetDirectionInternal | LinuxGpio/LinuxGPIOPin.cs:144-162 | new world and outcome are World.SetDirectionInternal of the old |
| LinuxPin.LinuxGpioPin.GetActiveLowInternal | LinuxGpio/LinuxGPIOPin.cs:187-204 | returns World.GetActiveLowInternal |
| LinuxPin.LinuxGpioPin.SetActiveLowInternal | LinuxGpio/LinuxGPIOPin.cs:206-213 | the new world is World.SetActiveLowInternal of the old |
| LinuxPin.LinuxGpioPin.GetValueInternal | LinuxGpio/LinuxGPIOPin.cs:244-261 | returns World.GetValueInternal |
| LinuxPin.LinuxGpioPin.SetValueInternal | LinuxGpio/LinuxGPIOPin.cs:263-275 | new world and outcome are World.SetValueInternal of the old |
| LinuxPin.LinuxGpioPin.TryExportPin | LinuxGpio/LinuxGPIOPin.cs:638-669 | requests an export, then reports whether the pin directory exists |
| LinuxPin.LinuxGpioPin.TryDisablePin | LinuxGpio/LinuxGPIOPin.cs:619-629 | an exported pin is unexported; reports whether it is then gone |
| LinuxPin.LinuxGpioPin.Open | LinuxGpio/LinuxGPIOPin.cs:56-98 | new world and outcome are World.Open of the old |
| LinuxPin.LinuxGpioPin.CheckExported | LinuxGpio/LinuxGPIOPin.cs:58-80 | new world and outcome are World.CheckExported of the old |
| LinuxPin.LinuxGpioPin.ApplySettings | LinuxGpio/LinuxGPIOPin.cs:82-92 | new world and outcome are World.ApplySettings of the old |
| LinuxPin.LinuxGpioPin.GetDirection | LinuxGpio/LinuxGPIOPin.cs:103-113 | returns World.GetDirection |
| LinuxPin.LinuxGpioPin.SetDirection | LinuxGpio/LinuxGPIOPin.cs:114-123 | new world and outcome are World.SetDirection of the old |
| LinuxPin.LinuxGpioPin.GetActiveLow | LinuxGpio/LinuxGPIOPin.cs:164-174 | returns World.GetActiveLow |
| LinuxPin.LinuxGpioPin.SetActiveLow | LinuxGpio/LinuxGPIOPin.cs:175-184 | new world and outcome are World.SetActiveLow of the old |
| LinuxPin.LinuxGpioPin.GetValue | LinuxGpio/LinuxGPIOPin.cs:221-231 | returns World.GetValue |
| LinuxPin.LinuxGpioPin.SetValue | LinuxGpio/LinuxGPIOPin.cs:232-241 | new world and outcome are World.SetValue of the old |
| LinuxPin.LinuxGpioPin.Pulse | LinuxGpio/LinuxGPIOPin.cs:516-531 | new world and outcome are World.Pulse of the old |
| LinuxPin.LinuxGpioPin.CreateAndRegisterPinChangedScope | LinuxGpio/LinuxGPIOPin.cs:373-389 | the identity and the new world are World.RegisterScope of the old |
| LinuxPin.LinuxGpioPin.DeregisterPinChangeScope | LinuxGpio/LinuxGPIOPin.cs:391-415 | new world and outcome are World.DeregisterScope of the old |
| LinuxPin.LinuxGpioPin.NotifyAllScopesOfPinChange | LinuxGpio/LinuxGPIOPin.cs:449-458 | every scope's queue gets the value; nothing else changes |
| LinuxPin.LinuxGpioPin.MonitorStart | LinuxGpio/LinuxGPIOPin.cs:460-473 | the new world is World.MonitorStart of the old |
| LinuxPin.LinuxGpioPin.PollStep | LinuxGpio/LinuxGPIOPin.cs:474-486 | the new world is World.PollStep of the old |
| LinuxPin.LinuxGpioPin.WatchStep | LinuxGpio/LinuxGPIOPin.cs:464-469 | the new world is World.WatchStep of the old |
| LinuxPin.LinuxGpioPin.Dispose | LinuxGpio/LinuxGPIOPin.cs:560-582 | new world and outcome are World.Dispose of the old |
| LegacyPin.Fields | LinuxGPIOPin.cs:18-29 | the constructor's fields: flags and settings as given, no value cached, timing defaults 50/50/5 ms for absent arguments |
| LegacyPin.World.Configure | LinuxGPIOPin.cs:66-86 | a pin that is not exported and was not created throws DirectoryNotFoundException; success means the pin is exported; past the directory check the value cache holds the initial value |
| LegacyPin.World.GetDirection | LinuxGPIOPin.cs:92-109 | throws exactly when disposed; a missing file is an I/O failure; a direction read is the level-free encoding in the file |
| LegacyPin.World.SetDirection | LinuxGPIOPin.cs:110-129 | writes ToDirectionString(d, valueCache), its failure escaping; an input also gets "both" in edge; no other file changes |
| LegacyPin.World.GetActiveLow | LinuxGPIOPin.cs:133-151 | throws exactly when disposed; otherwise the trimmed active_low text is decoded |
| LegacyPin.World.SetActiveLow | LinuxGPIOPin.cs:152-160 | fails only when disposed; writes "1"/"0", swallowing a failure |
| LegacyPin.World.GetValue | LinuxGPIOPin.cs:170-188 | throws exactly when disposed; otherwise the trimmed value text is decoded |
| LegacyPin.World.SetValue | LinuxGPIOPin.cs:189-201 | fails only when disposed; records the value cache before the write and swallows a write failure |
| LegacyPin.World.Pulse | LinuxGPIOPin.cs:225-245 | the cached value ends false even when the delay is cancelled, which is reported as OperationCanceledException |
| LegacyPin.World.Dispose | LinuxGPIOPin.cs:268-277 | marks the pin disposed; unexports only when asked and exported |
| LegacyPin.ConfigureOrder | LinuxGPIOPin.cs:66-86 | the constructor writes active_low, then caches the initial value, then writes the direction for it, and leaves the value file alone |
| LegacyPin.FailedExportIsDirectoryNotFound | LinuxGPIOPin.cs:66-71 | a failed export is not reported as such; the directory check throws DirectoryNotFoundException |
| LegacyPin.SetValues | LinuxGPIOPin.cs:189-201 | a run of value writes keeps the pin's number and disposed flag |
| LegacyPin.CacheHoldsLastValue | LinuxGPIOPin.cs:189-201 | the value cache always holds the last value assigned |
| LegacyPin.DirectionCarriesLastValue | LinuxGPIOPin.cs:110-129 | an Output written after a value write is written as "high"/"low" for that value |
| LegacyPin.WritesReadBack | LinuxGPIOPin.cs:133-201 | what the ActiveLow and Value setters write, their getters read back |
| LegacyPin.PulseEndsLow | LinuxGPIOPin.cs:225-245 | a pulse leaves the cache false and "0" in the value file |
| LegacyPin.DisposedRejectsAll | LinuxGPIOPin.cs:615-618 | after Dispose every property and Pulse throw ObjectDisposedException |
| LegacyPin.DisposeUnexportsOnlyOnRequest | LinuxGPIOPin.cs:268-277 | without the unexport flag Dispose changes no file; with it, a removed pin is no longer exported |
| LegacyPin.LegacyLinuxGpioPin.constructor | LinuxGPIOPin.cs:43-64 | the object holds Fields of the arguments |
| LegacyPin.LegacyLinuxGpioPin.Configure | LinuxGPIOPin.cs:66-86 | new world and outcome are World.Configure of the old |
| LegacyPin.LegacyLinuxGpioPin.EnsurePinEnabled | LinuxGPIOPin.cs:467-477 | an exported pin is left alone, otherwise an export is requested; reports whether the pin is exported |
| LegacyPin.LegacyLinuxGpioPin.EnsurePinDisabled | LinuxGPIOPin.cs:484-494 | an exported pin is unexported; reports whether it is then gone |
| LegacyPin.LegacyLinuxGpioPin.GetDirection | LinuxGPIOPin.cs:92-109 | returns World.GetDirection |
| LegacyPin.LegacyLinuxGpioPin.SetDirection | LinuxGPIOPin.cs:110-129 | new world and outcome are World.SetDirection of the old |
| LegacyPin.LegacyLinuxGpioPin.EnableEdgeDetection | LinuxGPIOPin.cs:279-290 | writes "both" to the edge file; reports success exactly when the file exists |
| LegacyPin.LegacyLinuxGpioPin.GetActiveLow | LinuxGPIOPin.cs:133-151 | returns World.GetActiveLow |
| LegacyPin.LegacyLinuxGpioPin.SetActiveLow | LinuxGPIOPin.cs:152-160 | new world and outcome are World.SetActiveLow of the old |
| LegacyPin.LegacyLinuxGpioPin.GetValue | LinuxGPIOPin.cs:170-188 | returns World.GetValue |
| LegacyPin.LegacyLinuxGpioPin.SetValue | LinuxGPIOPin.cs:189-201 | new world and outcome are World.SetValue of the old |
| LegacyPin.LegacyLinuxGpioPin.Pulse | LinuxGPIOPin.cs:225-245 | new world and outcome are World.Pulse of the old |
| LegacyPin.LegacyLinuxGpioPin.Dispose | LinuxGPIOPin.cs:268-277 | the new world is World.Dispose of the old |
| LegacyPin.Create | LinuxGPIOPin.cs:43-86 | new LinuxGpioPin(...): a fresh object in the state, and with the outcome, of Configure applied to Fields of the arguments |
| ResetTimer.Created | TimedResetEvent.cs:12-23 | the flag as given, the timer stopped, the interval the default 100 ms |
| ResetTimer.SetInterval | TimedResetEvent.cs:61 | Timer.Interval: an interval of 0 throws ArgumentException and changes nothing |
| ResetTimer.SetAfter | TimedResetEvent.cs:51-72 | restarts the timer with the new interval, leaving the flag untouched; a disposed event throws |
| ResetTimer.ResetAndSetAfter | TimedResetEvent.cs:78-99 | clears the flag and restarts the timer with the new interval; a disposed event throws |
| ResetTimer.SetAndStop | TimedResetEvent.cs:104-121 | cancels the pending timer and sets the flag; a disposed event throws |
| ResetTimer.ResetAndStop | TimedResetEvent.cs:126-143 | cancels the pending timer and clears the flag; a disposed event throws |
| ResetTimer.Elapse | TimedResetEvent.cs:30-40 | only a running timer fires, stopping as it is one-shot; it sets the flag unless the event is disposed |
| ResetTimer.Dispose | TimedResetEvent.cs:145-153 | marks the event disposed and stops the timer; the flag is kept |
| ResetTimer.Restarts | TimedResetEvent.cs:78-99 | a run of ResetAndSetAfter calls keeps the invariant |
| ResetTimer.LastRestartWins | TimedResetEvent.cs:78-99 | the last call wins: one pending timer with the last interval, and the flag clear |
| ResetTimer.SetAfterRestarts | TimedResetEvent.cs:51-72 | SetAfter twice is SetAfter with the second interval: a restart replaces the pending timer |
| ResetTimer.ElapseOnce | TimedResetEvent.cs:16-20 | the timer fires once: the flag is then set, and a second Elapse changes nothing |
| ResetTimer.StopCancelsPendingSet | TimedResetEvent.cs:104-143 | after ResetAndStop the expiry leaves the flag clear; after SetAndStop it is set |
| ResetTimer.DisposedRejectsAll | TimedResetEvent.cs:32-35 | after Dispose all four operations throw ObjectDisposedException, and an expiry no longer sets the flag |
| TimedResetEvent.AutoResetWait | TimedResetEvent.cs:42-45 | WaitOne returns exactly when the flag is set, and consumes it |
| TimedResetEvent.OneExpiryOneRelease | TimedResetEvent.cs:14 | auto-reset: one expiry releases exactly one wait |
| TimedResetEvent.ResetBlocksUntilExpiry | TimedResetEvent.cs:78-99 | after ResetAndSetAfter a wait blocks until the timer expires |
| TimedResetEvent.TimedAutoResetEvent.constructor | TimedResetEvent.cs:12-23 | the object starts in the Created state |
| TimedResetEvent.TimedAutoResetEvent.Elapse | TimedResetEvent.cs:30-40 | the new state is ResetTimer.Elapse of the old |
| TimedResetEvent.TimedAutoResetEvent.WaitOne | TimedResetEvent.cs:42-45 | returns exactly when AutoResetWait releases, taking its new state; otherwise nothing changes |
| TimedResetEvent.TimedAutoResetEvent.SetAfter | TimedResetEvent.cs:51-72 | new state and outcome are ResetTimer.SetAfter of the old |
| TimedResetEvent.TimedAutoResetEvent.ResetAndSetAfter | TimedResetEvent.cs:78-99 | new state and outcome are ResetTimer.ResetAndSetAfter of the old |
| TimedResetEvent.TimedAutoResetEvent.SetAndStop | TimedResetEvent.cs:104-121 | new state and outcome are ResetTimer.SetAndStop of the old |
| TimedResetEvent.TimedAutoResetEvent.ResetAndStop | TimedResetEvent.cs:126-143 | new state and outcome are ResetTimer.ResetAndStop of the old |
| TimedResetEvent.TimedAutoResetEvent.Dispose | TimedResetEvent.cs:145-153 | the new state is ResetTimer.Dispose of the old |
| AsyncTimedResetEvent.AsyncTimedResetEvent.constructor | AsyncTimedResetEvent.cs:12-21 | the base flag and auto-reset mode as given, and the timer stopped |
| AsyncTimedResetEvent.AsyncTimedResetEvent.Set | AsyncTimedResetEvent.cs:27-37 | the base class's Set: only the flag changes, to set |
| AsyncTimedResetEvent.AsyncTimedResetEvent.Reset | AsyncTimedResetEvent.cs:118-135 | the base class's Reset: only the flag changes, to clear |
| AsyncTimedResetEvent.AsyncTimedResetEvent.Elapse | AsyncTimedResetEvent.cs:27-37 | the new state is ResetTimer.Elapse of the old |
| AsyncTimedResetEvent.AsyncTimedResetEvent.SetAfter | AsyncTimedResetEvent.cs:43-64 | new state and outcome are ResetTimer.SetAfter of the old |
| AsyncTimedResetEvent.AsyncTimedResetEvent.ResetAndSetAfter | AsyncTimedResetEvent.cs:70-91 | new state and outcome are ResetTimer.ResetAndSetAfter of the old |
| AsyncTimedResetEvent.AsyncTimedResetEvent.SetAndStop | AsyncTimedResetEvent.cs:96-113 | new state and outcome are ResetTimer.SetAndStop of the old |
| AsyncTimedResetEvent.AsyncTimedResetEvent.ResetAndStop | AsyncTimedResetEvent.cs:118-135 | new state and outcome are ResetTimer.ResetAndStop of the old |
| AsyncTimedResetEvent.AsyncTimedResetEvent.Dispose | AsyncTimedResetEvent.cs:137-146 | the new state is ResetTimer.Dispose of the old |
| LegacyDummyPin.DummyState.GetDirection | DummyGpioPin.cs:48-52 | throws exactly when disposed, otherwise the field |
| LegacyDummyPin.DummyState.SetDirection | DummyGpioPin.cs:53-56 | a plain field write; a disposed pin throws and nothing changes |
| LegacyDummyPin.DummyState.GetActiveLow | DummyGpioPin.cs:76-80 | throws exactly when disposed, otherwise the field |
| LegacyDummyPin.DummyState.SetActiveLow | DummyGpioPin.cs:81-84 | a plain field write; a disposed pin throws and nothing changes |
| LegacyDummyPin.DummyState.GetValue | DummyGpioPin.cs:59-63 | throws exactly when disposed, otherwise the field |
| LegacyDummyPin.DummyState.SetValue | DummyGpioPin.cs:64-73 | stores the value whatever the direction, and signals the change event exactly when the value differs |
| LegacyDummyPin.DummyState.Pulse | DummyGpioPin.cs:92-107 | a disposed pin throws; otherwise a cancelled delay is reported as OperationCanceledException |
| LegacyDummyPin.DummyState.Dispose | DummyGpioPin.cs:114-118 | marks the pin disposed; the fields are kept |
| LegacyDummyPin.Created | DummyGpioPin.cs:21-39 | direction Input and value false unless given; the activeLow argument is not stored, so active-low starts false |
| LegacyDummyPin.Describe | DummyGpioPin.cs:109-112 | ToString is "[Dummy] " followed by the name |
| LegacyDummyPin.FirstWrite | DummyGpioPin.cs:120-128 | the position of the first write equal to state, with none before it, or none at all |
| LegacyDummyPin.SettingsDoNotTouchValue | DummyGpioPin.cs:48-85 | Direction and ActiveLow are plain fields: neither changes the value or signals, and each reads back |
| LegacyDummyPin.ValueWritesAnyDirection | DummyGpioPin.cs:59-74 | the value can be written on an input and reads back; writing the same value changes nothing |
| LegacyDummyPin.PulseEndsLow | DummyGpioPin.cs:92-107 | a pulse always ends low, even when cancelled, and leaves the change event set |
| LegacyDummyPin.DisposedRejectsAll | DummyGpioPin.cs:133-136 | after Dispose every property and Pulse throw ObjectDisposedException |
| LegacyDummyPin.LegacyDummyGpioPin.constructor | DummyGpioPin.cs:21-39 | the object starts in the Created state, with timings 50/50/5 ms unless given |
| LegacyDummyPin.LegacyDummyGpioPin.GetValue | DummyGpioPin.cs:59-63 | returns DummyState.GetValue |
| LegacyDummyPin.LegacyDummyGpioPin.SetValue | DummyGpioPin.cs:64-73 | new state and outcome are DummyState.SetValue of the old |
| LegacyDummyPin.LegacyDummyGpioPin.GetDirection | DummyGpioPin.cs:48-52 | returns DummyState.GetDirection |
| LegacyDummyPin.LegacyDummyGpioPin.SetDirection | DummyGpioPin.cs:53-56 | new state and outcome are DummyState.SetDirection of the old |
| LegacyDummyPin.LegacyDummyGpioPin.GetActiveLow | DummyGpioPin.cs:76-80 | returns DummyState.GetActiveLow |
| LegacyDummyPin.LegacyDummyGpioPin.SetActiveLow | DummyGpioPin.cs:81-84 | new state and outcome are DummyState.SetActiveLow of the old |
| LegacyDummyPin.LegacyDummyGpioPin.Pulse | DummyGpioPin.cs:92-107 | new state and outcome are DummyState.Pulse of the old |
| LegacyDummyPin.LegacyDummyGpioPin.Dispose | DummyGpioPin.cs:114-118 | the new state is DummyState.Dispose of the old |
| LegacyDummyPin.LegacyDummyGpioPin.WaitForSteadyState | DummyGpioPin.cs:120-128 | returns at once when the value already equals state; otherwise it returns after the first write of state, with the event consumed by the released wait, or waits for ever; disposed pins throw |

## Left out

- File and directory I/O is a map of paths to texts. Other I/O failures (permissions, concurrent writers) are not modelled, and neither is the kernel's reaction to a write: a direction written as "high" reading back as "out", a value file rejecting writes on an input.
- Export and unexport (TryExportPin, TryUnexportPin, TryEnablePin, EnsurePinIsExported, and the root pin's TryEnablePin and TryDisablePin) are modelled as one write each. The kernel's answer is a parameter. The 500 ms sleeps and the logged exceptions are left out.
- Threads, tasks, locks, cancellation token sources and the semaphore's blocking are sequential steps. Interleavings are not modelled, including the race that the isDisposed check in ResetTimer_Elapsed guards.
- EnableRaisingEvents, EnableRaisingEventsInternal, the event-raising task and the ValueChanged event of both newer pins are left out. They are event plumbing over a scope like any other. The EnableRaisingEventsInternal(false) call at the head of Dispose is included with them.
- The process handling of NotifyWait (starting inotifywait, ReadLineAsync, Kill, the cancellation registration) is left out. Only the argument string and the line decoding are modelled.
- The newer sysfs pin's WaitForValue, WhenValue, WaitForChange and WhenChanged are not part of this model. The same loop is modelled for the dummy pin.
- PulseAsync of the sysfs pins is left out: it is Pulse with an awaited delay, and Pulse is modelled.
- ToString of the sysfs pins ("[" + Pin + "] " + Name, LinuxGpio/LinuxGPIOPin.cs:555-558) is not modelled; only the pin-number rendering (Text.IntToString) and the legacy dummy pin's "[Dummy] " + name (LegacyDummyPin.Describe) are.
- The root sysfs pin's WaitForSteadyState (the Stopwatch poll and the inotify debounce) is left out because it is time-driven.
- DummyPin.DummyGpioPin.WaitForValue: the other writers' changes arrive as a given sequence, taken until the first match. The model does not capture values arriving while the method runs.
- LegacyDummyPin.LegacyDummyGpioPin.WaitForSteadyState: the writes that other callers make are a given sequence.
- Cancellation tokens are a boolean: a cancelled delay in Pulse, a cancelled dequeue.
- TimeSpan arithmetic is left out: the double multiplier of Pulse, Math.Round, TotalMilliseconds, negative and fractional durations, and intervals above Int32.MaxValue. Durations are whole milliseconds.
- The asynchronous base class of AsyncTimedResetEvent (AsyncResetEvent and its WaitAsync) is not part of this model. Only its Set and Reset flag is modelled.
- The old dummy pin's AsyncAutoResetEvent is a flag. Its waiters are the writes sequence of WaitForSteadyState.
- LinuxGpioCli/Program.cs, LinuxGpioFactory.cs, the interfaces and PinValueChangedEventArgs are left out; they have no behaviour to prove.
- Pin numbers are unbounded integers. Int32 wrap-around does not arise in the paths.
