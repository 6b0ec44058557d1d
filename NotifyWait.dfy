/** The pure parts of LinuxGpio/NotifyWaitHelpers.cs: the command line given
    to inotifywait, and the decoding of each line it prints in its CSV
    output mode ("-c") into a NotifyWaitResponse. */
module NotifyWait {
  import opened Outcomes
  import opened Text
  import opened CsvParser

  /** NotifyWaitResponse: the watched path, the event names, and the file the
      event happened to. */
  datatype Response = Response(watchedFilename: string, eventNames: seq<string>, eventFilename: string)

  /** The argument string: monitor mode, the event filter when events are
      given (null is None), quiet, CSV output, then the path. With no events
      the empty filter leaves two spaces after "-m". */
  function Arguments(events: Option<seq<string>>, path: string): (r: string)
    ensures events.None? ==> r == "-m  -q -c " + path
  {
    "-m " + (if events.None? then "" else "-e " + Join(events.value, " ")) + " -q -c " + path
  }

  /** Every event name and the path are single non-empty words. */
  predicate IsWord(s: string) {
    |s| > 0 && ' ' !in s
  }

  /** Read as inotifywait reads its command line (cut at the spaces), the
      arguments are the monitor flag, the filter flag, each event, the quiet
      and CSV flags, and the path; events that are absent leave one empty word. */
  lemma ArgumentWords(events: Option<seq<string>>, path: string)
    requires events.Some? ==> |events.value| >= 1 && forall k :: 0 <= k < |events.value| ==> IsWord(events.value[k])
    requires IsWord(path)
    ensures events.Some? ==> Split(Arguments(events, path), ' ') == ["-m", "-e"] + events.value + ["-q", "-c", path]
    ensures events.None? ==> Split(Arguments(events, path), ' ') == ["-m", "", "-q", "-c", path]
  {
    if events.Some? {
      FilteredWords(events.value, path);
    } else {
      UnfilteredWords(path);
    }
  }

  /** The arguments without an event filter, read back word by word. */
  lemma UnfilteredWords(path: string)
    requires IsWord(path)
    ensures Split(Arguments(None, path), ' ') == ["-m", "", "-q", "-c", path]
  {
    var words := ["-m", "", "-q", "-c", path];
    TailJoin(path);
    assert Join(words, " ") == "-m " + "" + " " + Join(words[2..], " ");
    assert Arguments(None, path) == Join(words, " ");
    SplitJoin(words, ' ');
  }

  /** The last three words joined. */
  lemma TailJoin(path: string)
    ensures Join(["-q", "-c", path], " ") == "-q -c " + path
  {
    var tail := ["-q", "-c", path];
    assert tail[1..] == ["-c", path] && tail[1..][1..] == [path];
    assert Join(["-c", path], " ") == "-c" + " " + path;
  }

  /** The arguments with an event filter, read back word by word. */
  lemma FilteredWords(es: seq<string>, path: string)
    requires |es| >= 1 && forall k :: 0 <= k < |es| ==> IsWord(es[k])
    requires IsWord(path)
    ensures Split(Arguments(Some(es), path), ' ') == ["-m", "-e"] + es + ["-q", "-c", path]
  {
    var words := ["-m", "-e"] + es + ["-q", "-c", path];
    FilteredJoin(es, path);
    FilteredSpaceFree(es, path);
    SplitJoin(words, ' ');
  }

  lemma FilteredJoin(es: seq<string>, path: string)
    requires |es| >= 1
    ensures Arguments(Some(es), path) == Join(["-m", "-e"] + es + ["-q", "-c", path], " ")
  {
    var head := ["-m", "-e"];
    var tail := ["-q", "-c", path];
    TailJoin(path);
    assert Join(head, " ") == "-m -e";
    JoinAppend(head, es, " ");
    JoinAppend(head + es, tail, " ");
    var e := Join(es, " ");
    assert Join(head + es + tail, " ") == ("-m -e" + " " + e) + " " + ("-q -c " + path);
    Regroup(e, path);
  }

  /** The same characters, grouped as Arguments groups them. */
  lemma Regroup(e: string, path: string)
    ensures ("-m -e" + " " + e) + " " + ("-q -c " + path) == "-m " + ("-e " + e) + " -q -c " + path
  {
    var x := "-m " + ("-e " + e);
    assert "-m -e" + " " + e == x by {
      assert "-m -e" + " " == "-m " + "-e ";
      assert ("-m " + "-e ") + e == "-m " + ("-e " + e);
    }
    assert (x + " ") + ("-q -c " + path) == ((x + " ") + "-q -c ") + path;
    assert (x + " ") + "-q -c " == x + " -q -c " by {
      assert " " + "-q -c " == " -q -c ";
      assert (x + " ") + "-q -c " == x + (" " + "-q -c ");
    }
  }

  lemma FilteredSpaceFree(es: seq<string>, path: string)
    requires forall k :: 0 <= k < |es| ==> IsWord(es[k])
    requires IsWord(path)
    ensures forall k :: 0 <= k < |["-m", "-e"] + es + ["-q", "-c", path]| ==> ' ' !in (["-m", "-e"] + es + ["-q", "-c", path])[k]
  {
    var head := ["-m", "-e"];
    var tail := ["-q", "-c", path];
    var words := head + es + tail;
    forall k | 0 <= k < |words| ensures ' ' !in words[k] {
      if k >= |head| + |es| { assert words[k] == tail[k - |head| - |es|]; }
      else if k >= |head| { assert words[k] == es[k - |head|]; }
    }
  }

  /** The line read from inotifywait (null when the stream ended is None):
      blank lines are skipped, and of the rest only those that parse as three
      CSV fields give a response; the middle field is the comma-separated
      event list. */
  function DecodeLine(line: Option<string>): (r: Option<Response>)
    ensures r.Some? <==> !IsNullOrWhiteSpace(line) && |ParseLine(line.value)| == 3
    ensures r.Some? ==> (r.value.watchedFilename == ParseLine(line.value)[0]
                         && r.value.eventNames == Split(ParseLine(line.value)[1], ',')
                         && r.value.eventFilename == ParseLine(line.value)[2])
    ensures r.Some? ==> |r.value.eventNames| >= 1
  {
    if IsNullOrWhiteSpace(line) then None
    else
      var parts := ParseLine(line.value);
      if |parts| == 3 then Some(Response(parts[0], Split(parts[1], ','), parts[2]))
      else None
  }

  /** The fields of a line as CSVParser.ParseLine(line) yields them. */
  function ParseLine(line: string): seq<string> {
    Parse(line, Comma)
  }

  /** The responses announced for a sequence of lines, in reading order. */
  function Responses(lines: seq<Option<string>>): (r: seq<Response>)
    ensures |r| <= |lines|
    decreases |lines|
  {
    if |lines| == 0 then []
    else
      var earlier := Responses(lines[..|lines| - 1]);
      match DecodeLine(lines[|lines| - 1])
      case Some(resp) => earlier + [resp]
      case None => earlier
  }

  /** The read loop with the process replaced by the lines it prints: every
      line is decoded as it arrives and the callback (here, appending to the
      result) runs once for each line that decodes. */
  method Announce(lines: seq<Option<string>>) returns (announced: seq<Response>)
    ensures announced == Responses(lines)
  {
    announced := [];
    var i := 0;
    while i < |lines|
      invariant 0 <= i <= |lines|
      invariant announced == Responses(lines[..i])
    {
      var line := lines[i];
      assert lines[..i + 1][..i] == lines[..i];
      if !IsNullOrWhiteSpace(line) {
        var parts := ParseLineWith(line.value, Comma);
        if |parts| == 3 {
          var eventNames := Split(parts[1], ',');
          announced := announced + [Response(parts[0], eventNames, parts[2])];
        }
      }
      i := i + 1;
    }
    assert lines[..i] == lines;
  }

  /** Lines are announced independently and in order: a batch of lines
      followed by another gives the responses of the first, then those of
      the second. */
  lemma {:induction false} ResponsesAppend(a: seq<Option<string>>, b: seq<Option<string>>)
    ensures Responses(a + b) == Responses(a) + Responses(b)
    decreases |b|
  {
    if |b| == 0 {
      assert a + b == a;
    } else {
      var b' := b[..|b| - 1];
      assert (a + b)[..|a + b| - 1] == a + b';
      assert (a + b)[|a + b| - 1] == b[|b| - 1];
      ResponsesAppend(a, b');
    }
  }

  /** A blank or null line announces nothing. */
  lemma BlankLineSilent(line: Option<string>)
    requires IsNullOrWhiteSpace(line)
    ensures Responses([line]) == []
  {
    assert [line][..0] == [];
  }

  /** A line inotifywait would print for one event: the fields quoted as in
      RFC 4180, the event names joined by commas. */
  function EncodeResponse(resp: Response): string {
    Encode([resp.watchedFilename, Join(resp.eventNames, ","), resp.eventFilename], Comma)
  }

  /** Round trip: the line for a response with at least one event name, none
      of which contains a comma, decodes back to that response. */
  lemma DecodeEncodeResponse(resp: Response)
    requires |resp.eventNames| >= 1
    requires forall k :: 0 <= k < |resp.eventNames| ==> Comma !in resp.eventNames[k]
    ensures DecodeLine(Some(EncodeResponse(resp))) == Some(resp)
  {
    var fields := [resp.watchedFilename, Join(resp.eventNames, ","), resp.eventFilename];
    var line := EncodeResponse(resp);
    ParseEncode(fields, Comma);
    assert QuoteAll(fields)[0] == Quote(fields[0]);
    JoinAppend([QuoteAll(fields)[0]], QuoteAll(fields)[1..], [Comma]);
    assert [QuoteAll(fields)[0]] + QuoteAll(fields)[1..] == QuoteAll(fields);
    assert line[0] == DoubleQuote;
    assert !IsWhiteSpace(line[0]);
    SplitJoin(resp.eventNames, ',');
  }

  /** The usual output line, with no quotes at all, is cut at its commas: it
      gives a response exactly when it holds two commas, and then names one
      event. */
  lemma DecodeQuoteFreeLine(line: string)
    requires DoubleQuote !in line && !AllWhiteSpace(line)
    ensures DecodeLine(Some(line)).Some? <==> Count(line, Comma) == 2
    ensures DecodeLine(Some(line)).Some? ==> DecodeLine(Some(line)).value.eventNames == [Split(line, Comma)[1]]
  {
    ParseQuoteFree(line, Comma);
    var parts := Split(line, Comma);
    if |parts| == 3 {
      SplitFree(parts[1], Comma);
    }
  }
}
