/** The pin direction of LinuxGpio/GpioDirection.cs and its encoding as the
    text written to a Linux sysfs GPIO "direction" file. */
module GpioDirection {
  import opened Outcomes

  datatype Direction = Input | Output

  // The four texts the kernel accepts in a "direction" file.
  const InputText: string := "in"
  const OutputText: string := "out"
  const OutputHighText: string := "high"
  const OutputLowText: string := "low"

  predicate IsDirectionText(s: string) {
    s == InputText || s == OutputText || s == OutputHighText || s == OutputLowText
  }

  /** ToDirectionString: "high" and "low" configure an output and drive it in
      one write; an input ignores the level. The enum has two members, so
      the C# default branch that throws cannot be reached. */
  function ToDirectionString(direction: Direction, initialLevel: Option<bool>): (r: string)
    ensures IsDirectionText(r)
  {
    match direction
    case Input => InputText
    case Output =>
      if initialLevel.Some? then (if initialLevel.value then OutputHighText else OutputLowText)
      else OutputText
  }

  /** What writing s to a direction file asks for: the direction and, for
      "high"/"low", the level driven at the same time. */
  function RequestedSetting(s: string): (r: Option<(Direction, Option<bool>)>)
    ensures r.Some? <==> IsDirectionText(s)
  {
    if s == InputText then Some((Input, None))
    else if s == OutputText then Some((Output, None))
    else if s == OutputHighText then Some((Output, Some(true)))
    else if s == OutputLowText then Some((Output, Some(false)))
    else None
  }

  /** The encoding loses nothing the kernel is told: an output gets back its
      level, an input gets back Input and no level, whatever level was given. */
  lemma RequestedSettingOfDirectionString(direction: Direction, initialLevel: Option<bool>)
    ensures direction == Output ==> RequestedSetting(ToDirectionString(direction, initialLevel)) == Some((Output, initialLevel))
    ensures direction == Input ==> RequestedSetting(ToDirectionString(direction, initialLevel)) == Some((Input, None))
  {
  }

  /** Each of the four texts is the encoding of exactly the setting it requests. */
  lemma DirectionStringOfRequestedSetting(s: string)
    requires IsDirectionText(s)
    ensures ToDirectionString(RequestedSetting(s).value.0, RequestedSetting(s).value.1) == s
  {
  }

  /** The direction is recovered from the text, whatever the level. */
  lemma DirectionStringInjective(d1: Direction, l1: Option<bool>, d2: Direction, l2: Option<bool>)
    requires ToDirectionString(d1, l1) == ToDirectionString(d2, l2)
    ensures d1 == d2
    ensures d1 == Output ==> l1 == l2
  {
    RequestedSettingOfDirectionString(d1, l1);
    RequestedSettingOfDirectionString(d2, l2);
  }
}
