/** The one-line CSV reader of LinuxGpio/CSVParser.cs: a three-state machine
    that splits a line into fields, with double-quoted sections and "" as an
    escaped quote, after section 2 of RFC 4180 but more lenient (a quote in
    the middle of an unquoted field is kept as text, an unterminated quoted
    section runs to the end of the line). */
module CsvParser {
  import opened Text

  datatype ReadState = WaitingForNewField | InsideNormal | InsideQuotes

  const DoubleQuote: char := '"'
  const Comma: char := ','

  /** The machine run over the unread rest of the line: st is the state,
      cur the field being built and acc the fields already yielded. Each
      step looks at the current character and at whether the next one is a
      double quote, as the C# loop does with currentChar and nextChar. */
  function Scan(rest: string, sep: char, st: ReadState, cur: string, acc: seq<string>): (r: seq<string>)
    ensures |r| > |acc| && r[..|acc|] == acc
    decreases |rest|
  {
    if |rest| == 0 then acc + [cur]
    else
      var c := rest[0];
      var nextIsQuote := |rest| > 1 && rest[1] == DoubleQuote;
      match st
      case WaitingForNewField =>
        if c == DoubleQuote then Scan(rest[1..], sep, InsideQuotes, "", acc)
        else if c == sep then Scan(rest[1..], sep, WaitingForNewField, "", acc + [""])
        else Scan(rest[1..], sep, InsideNormal, [c], acc)
      case InsideNormal =>
        if c == sep then Scan(rest[1..], sep, WaitingForNewField, "", acc + [cur])
        else if c == DoubleQuote && nextIsQuote then Scan(rest[2..], sep, InsideNormal, cur + [DoubleQuote], acc)
        else Scan(rest[1..], sep, InsideNormal, cur + [c], acc)
      case InsideQuotes =>
        if c == DoubleQuote && !nextIsQuote then Scan(rest[1..], sep, InsideNormal, cur, acc)
        else if c == DoubleQuote && nextIsQuote then Scan(rest[2..], sep, InsideQuotes, cur + [DoubleQuote], acc)
        else Scan(rest[1..], sep, InsideQuotes, cur + [c], acc)
  }

  /** The fields ParseLine(line, separator) yields. Any line, quoted
      sections, stray quotes and unterminated quotes included, has one field
      more than the separators outside quotes. */
  function Parse(line: string, sep: char): (r: seq<string>)
    ensures |r| == 1 + Seps(line, sep, WaitingForNewField)
  {
    ScanCount(line, sep, WaitingForNewField, "", []);
    Scan(line, sep, WaitingForNewField, "", [])
  }

  /** ParseLine(line, separator): the C# for loop, whose index is advanced a
      second time inside the body when "" is read. The fields are returned
      all at once instead of one by one. */
  method ParseLineWith(line: string, separator: char) returns (fields: seq<string>)
    ensures fields == Parse(line, separator)
    ensures |fields| >= 1
  {
    var currentValue: string := "";
    var currentState := WaitingForNewField;
    fields := [];
    var charIndex := 0;
    while charIndex < |line|
      invariant 0 <= charIndex <= |line|
      invariant Scan(line[charIndex..], separator, currentState, currentValue, fields) == Parse(line, separator)
      decreases |line| - charIndex
    {
      var currentChar := line[charIndex];
      var nextIsQuote := charIndex < |line| - 1 && line[charIndex + 1] == DoubleQuote;
      ghost var rest := line[charIndex..];
      assert rest[0] == currentChar && rest[1..] == line[charIndex + 1..];
      assert nextIsQuote == (|rest| > 1 && rest[1] == DoubleQuote);
      ghost var before := Scan(rest, separator, currentState, currentValue, fields);
      match currentState {
        case WaitingForNewField =>
          currentValue := "";
          if currentChar == DoubleQuote {
            currentState := InsideQuotes;
            assert before == Scan(rest[1..], separator, InsideQuotes, "", fields);
          } else if currentChar == separator {
            fields := fields + [currentValue];
            currentState := WaitingForNewField;
          } else {
            currentValue := currentValue + [currentChar];
            assert currentValue == [currentChar];
            currentState := InsideNormal;
          }
        case InsideNormal =>
          if currentChar == separator {
            currentState := WaitingForNewField;
            fields := fields + [currentValue];
            currentValue := "";
          } else if currentChar == DoubleQuote && nextIsQuote {
            currentValue := currentValue + [DoubleQuote];
            assert rest[2..] == line[charIndex + 2..];
            charIndex := charIndex + 1;
          } else {
            currentValue := currentValue + [currentChar];
          }
        case InsideQuotes =>
          if currentChar == DoubleQuote && !nextIsQuote {
            currentState := InsideNormal;
          } else if currentChar == DoubleQuote && nextIsQuote {
            currentValue := currentValue + [DoubleQuote];
            assert rest[2..] == line[charIndex + 2..];
            charIndex := charIndex + 1;
          } else {
            currentValue := currentValue + [currentChar];
          }
      }
      charIndex := charIndex + 1;
      assert Scan(line[charIndex..], separator, currentState, currentValue, fields) == before;
    }
    fields := fields + [currentValue];
  }

  /** ParseLine(line): the comma-separated form. */
  method ParseLine(line: string) returns (fields: seq<string>)
    ensures fields == Parse(line, Comma)
  {
    fields := ParseLineWith(line, Comma);
  }

  // ---------------------------------------------------------------------
  // Properties of the machine

  /** The final yield always emits a field: even the empty line gives one. */
  lemma ParseNeverEmpty(line: string, sep: char)
    ensures |Parse(line, sep)| >= 1
    ensures Parse("", sep) == [""]
  {
  }

  /** Appends cur to the first piece of a split. */
  function Glue(cur: string, pieces: seq<string>): seq<string>
    requires |pieces| >= 1
  {
    [cur + pieces[0]] + pieces[1..]
  }

  /** Inside an unquoted field, a quote-free rest of the line is cut at every separator. */
  lemma {:induction false} NormalQuoteFree(rest: string, sep: char, cur: string, acc: seq<string>)
    requires DoubleQuote !in rest
    ensures Scan(rest, sep, InsideNormal, cur, acc) == acc + Glue(cur, Split(rest, sep))
    decreases |rest|
  {
    if |rest| > 0 {
      assert rest == [rest[0]] + rest[1..];
      if rest[0] == sep {
        WaitingQuoteFree(rest[1..], sep, acc + [cur]);
        var pieces := [""] + Split(rest[1..], sep);
        assert Split(rest, sep) == pieces;
        assert cur + "" == cur;
        assert Glue(cur, pieces) == [cur] + Split(rest[1..], sep);
        assert Scan(rest, sep, InsideNormal, cur, acc) == Scan(rest[1..], sep, WaitingForNewField, "", acc + [cur]);
        assert (acc + [cur]) + Split(rest[1..], sep) == acc + ([cur] + Split(rest[1..], sep));
      } else {
        NormalQuoteFree(rest[1..], sep, cur + [rest[0]], acc);
        var pieces := Split(rest[1..], sep);
        var whole := [[rest[0]] + pieces[0]] + pieces[1..];
        assert Split(rest, sep) == whole;
        assert whole[1..] == pieces[1..];
        assert (cur + [rest[0]]) + pieces[0] == cur + ([rest[0]] + pieces[0]);
        assert Scan(rest, sep, InsideNormal, cur, acc) == Scan(rest[1..], sep, InsideNormal, cur + [rest[0]], acc);
        assert Glue(cur + [rest[0]], pieces) == Glue(cur, whole);
      }
    } else {
      assert cur + "" == cur;
    }
  }

  /** At the start of a field, a quote-free rest of the line parses as its split. */
  lemma {:induction false} WaitingQuoteFree(rest: string, sep: char, acc: seq<string>)
    requires DoubleQuote !in rest
    ensures Scan(rest, sep, WaitingForNewField, "", acc) == acc + Split(rest, sep)
    decreases |rest|
  {
    if |rest| > 0 {
      assert rest == [rest[0]] + rest[1..];
      if rest[0] == sep {
        WaitingQuoteFree(rest[1..], sep, acc + [""]);
      } else {
        NormalQuoteFree(rest[1..], sep, [rest[0]], acc);
      }
    }
  }

  /** A line without any double quote parses exactly as String.Split at the
      separator: empty leading, middle and trailing fields are kept. */
  lemma ParseQuoteFree(line: string, sep: char)
    requires DoubleQuote !in line
    ensures Parse(line, sep) == Split(line, sep)
  {
    WaitingQuoteFree(line, sep, []);
  }

  /** For a quote-free line the number of fields is one more than the number of separators. */
  lemma FieldCountQuoteFree(line: string, sep: char)
    requires DoubleQuote !in line
    ensures |Parse(line, sep)| == Count(line, sep) + 1
  {
    ParseQuoteFree(line, sep);
  }

  /** The separators the machine meets outside a quoted section, following
      the same transitions as Scan but keeping only the state: a separator
      read while waiting for a field or inside an unquoted field ends a
      field; one inside quotes is text. */
  function Seps(rest: string, sep: char, st: ReadState): (r: nat)
    ensures r <= Count(rest, sep)
    decreases |rest|
  {
    if |rest| == 0 then 0
    else
      var c := rest[0];
      var nextIsQuote := |rest| > 1 && rest[1] == DoubleQuote;
      match st
      case WaitingForNewField =>
        if c == DoubleQuote then Seps(rest[1..], sep, InsideQuotes)
        else if c == sep then 1 + Seps(rest[1..], sep, WaitingForNewField)
        else Seps(rest[1..], sep, InsideNormal)
      case InsideNormal =>
        if c == sep then 1 + Seps(rest[1..], sep, WaitingForNewField)
        else if c == DoubleQuote && nextIsQuote then Seps(rest[2..], sep, InsideNormal)
        else Seps(rest[1..], sep, InsideNormal)
      case InsideQuotes =>
        if c == DoubleQuote && !nextIsQuote then Seps(rest[1..], sep, InsideNormal)
        else if c == DoubleQuote && nextIsQuote then Seps(rest[2..], sep, InsideQuotes)
        else Seps(rest[1..], sep, InsideQuotes)
  }

  /** Every separator met outside quotes adds exactly one field, and the end
      of the line adds the last one. */
  lemma {:induction false} ScanCount(rest: string, sep: char, st: ReadState, cur: string, acc: seq<string>)
    ensures |Scan(rest, sep, st, cur, acc)| == |acc| + 1 + Seps(rest, sep, st)
    decreases |rest|
  {
    if |rest| > 0 {
      var c := rest[0];
      var nextIsQuote := |rest| > 1 && rest[1] == DoubleQuote;
      match st
      case WaitingForNewField =>
        if c == DoubleQuote { ScanCount(rest[1..], sep, InsideQuotes, "", acc); }
        else if c == sep { ScanCount(rest[1..], sep, WaitingForNewField, "", acc + [""]); }
        else { ScanCount(rest[1..], sep, InsideNormal, [c], acc); }
      case InsideNormal =>
        if c == sep { ScanCount(rest[1..], sep, WaitingForNewField, "", acc + [cur]); }
        else if c == DoubleQuote && nextIsQuote { ScanCount(rest[2..], sep, InsideNormal, cur + [DoubleQuote], acc); }
        else { ScanCount(rest[1..], sep, InsideNormal, cur + [c], acc); }
      case InsideQuotes =>
        if c == DoubleQuote && !nextIsQuote { ScanCount(rest[1..], sep, InsideNormal, cur, acc); }
        else if c == DoubleQuote && nextIsQuote { ScanCount(rest[2..], sep, InsideQuotes, cur + [DoubleQuote], acc); }
        else { ScanCount(rest[1..], sep, InsideQuotes, cur + [c], acc); }
    }
  }

  /** A separator inside a quoted section is not counted: "x,y",z has two fields. */
  lemma QuotedSeparatorNotCounted()
    ensures |Parse("\"x,y\",z", ',')| == 2
  {
    var l := "\"x,y\",z";
    assert l[1..][1..][1..][1..][1..] == ",z";
    assert Seps(l, ',', WaitingForNewField) == 1;
  }

  // ---------------------------------------------------------------------
  // Quoting: the writer side of RFC 4180 and the round trip through the parser

  /** Doubles every double quote of a field. */
  function Escape(f: string): (r: string)
    ensures DoubleQuote !in f ==> r == f
    decreases |f|
  {
    if |f| == 0 then ""
    else (if f[0] == DoubleQuote then [DoubleQuote, DoubleQuote] else [f[0]]) + Escape(f[1..])
  }

  /** A field written as a quoted section. */
  function Quote(f: string): string {
    [DoubleQuote] + Escape(f) + [DoubleQuote]
  }

  function QuoteAll(fields: seq<string>): (r: seq<string>)
    ensures |r| == |fields|
  {
    seq(|fields|, k requires 0 <= k < |fields| => Quote(fields[k]))
  }

  /** A record of fields, each quoted, joined by the separator. */
  function Encode(fields: seq<string>, sep: char): string {
    Join(QuoteAll(fields), [sep])
  }

  /** Single steps of the machine, each as one unfolding of Scan. */
  lemma StepQuotedClose(t: string, sep: char, cur: string, acc: seq<string>)
    requires |t| == 0 || t[0] != DoubleQuote
    ensures Scan([DoubleQuote] + t, sep, InsideQuotes, cur, acc) == Scan(t, sep, InsideNormal, cur, acc)
  {
    assert ([DoubleQuote] + t)[1..] == t;
  }

  lemma StepQuotedEscape(u: string, sep: char, cur: string, acc: seq<string>)
    ensures Scan([DoubleQuote, DoubleQuote] + u, sep, InsideQuotes, cur, acc) == Scan(u, sep, InsideQuotes, cur + [DoubleQuote], acc)
  {
    assert ([DoubleQuote, DoubleQuote] + u)[2..] == u;
  }

  lemma StepQuotedChar(c: char, u: string, sep: char, cur: string, acc: seq<string>)
    requires c != DoubleQuote
    ensures Scan([c] + u, sep, InsideQuotes, cur, acc) == Scan(u, sep, InsideQuotes, cur + [c], acc)
  {
    assert ([c] + u)[1..] == u;
  }

  lemma StepOpenQuote(u: string, sep: char, acc: seq<string>)
    ensures Scan([DoubleQuote] + u, sep, WaitingForNewField, "", acc) == Scan(u, sep, InsideQuotes, "", acc)
  {
    assert ([DoubleQuote] + u)[1..] == u;
  }

  lemma StepNormalSeparator(u: string, sep: char, cur: string, acc: seq<string>)
    ensures Scan([sep] + u, sep, InsideNormal, cur, acc) == Scan(u, sep, WaitingForNewField, "", acc + [cur])
  {
    assert ([sep] + u)[1..] == u;
  }

  /** Inside a quoted section, an escaped field followed by the closing quote
      gives the field's text, "" read as one quote and separators read as
      text; the closing quote is dropped and reading goes on in an unquoted field. */
  lemma {:induction false} QuotedSection(f: string, t: string, sep: char, cur: string, acc: seq<string>)
    requires |t| == 0 || t[0] != DoubleQuote
    ensures Scan(Escape(f) + [DoubleQuote] + t, sep, InsideQuotes, cur, acc) == Scan(t, sep, InsideNormal, cur + f, acc)
    decreases |f|
  {
    var input := Escape(f) + [DoubleQuote] + t;
    if |f| == 0 {
      assert input == [DoubleQuote] + t;
      StepQuotedClose(t, sep, cur, acc);
      assert cur + f == cur;
    } else {
      QuotedSection(f[1..], t, sep, cur + [f[0]], acc);
      QuotedFirst(f, t, sep, cur, acc);
      assert cur + [f[0]] + f[1..] == cur + f by { assert f == [f[0]] + f[1..]; }
    }
  }

  /** The first character of a non-empty escaped field, read inside quotes. */
  lemma QuotedFirst(f: string, t: string, sep: char, cur: string, acc: seq<string>)
    requires |f| > 0
    ensures Scan(Escape(f) + [DoubleQuote] + t, sep, InsideQuotes, cur, acc)
         == Scan(Escape(f[1..]) + [DoubleQuote] + t, sep, InsideQuotes, cur + [f[0]], acc)
  {
    var later := Escape(f[1..]) + [DoubleQuote] + t;
    if f[0] == DoubleQuote {
      assert Escape(f) + [DoubleQuote] + t == [DoubleQuote, DoubleQuote] + later by {
        assert Escape(f) == [DoubleQuote, DoubleQuote] + Escape(f[1..]);
      }
      StepQuotedEscape(later, sep, cur, acc);
    } else {
      assert Escape(f) + [DoubleQuote] + t == [f[0]] + later by {
        assert Escape(f) == [f[0]] + Escape(f[1..]);
      }
      StepQuotedChar(f[0], later, sep, cur, acc);
    }
  }

  lemma {:induction false} EncodedFields(fields: seq<string>, sep: char, acc: seq<string>)
    requires |fields| >= 1 && sep != DoubleQuote
    ensures Scan(Encode(fields, sep), sep, WaitingForNewField, "", acc) == acc + fields
    decreases |fields|
  {
    var f := fields[0];
    var tail := EncodedTail(fields, sep);
    EncodeShape(fields, sep);
    StepOpenQuote(Escape(f) + [DoubleQuote] + tail, sep, acc);
    QuotedSection(f, tail, sep, "", acc);
    assert "" + f == f;
    if |fields| == 1 {
      assert acc + fields == acc + [f];
    } else {
      StepNormalSeparator(Encode(fields[1..], sep), sep, f, acc);
      EncodedFields(fields[1..], sep, acc + [f]);
      assert acc + [f] + fields[1..] == acc + fields;
    }
  }

  /** What follows the first quoted field of an encoding. */
  function EncodedTail(fields: seq<string>, sep: char): string
    requires |fields| >= 1
  {
    if |fields| == 1 then "" else [sep] + Encode(fields[1..], sep)
  }

  /** An encoding is the first field quoted, then a separator and the rest. */
  lemma EncodeShape(fields: seq<string>, sep: char)
    requires |fields| >= 1 && sep != DoubleQuote
    ensures Encode(fields, sep) == [DoubleQuote] + (Escape(fields[0]) + [DoubleQuote] + EncodedTail(fields, sep))
    ensures |EncodedTail(fields, sep)| == 0 || EncodedTail(fields, sep)[0] != DoubleQuote
  {
    var q := QuoteAll(fields);
    if |fields| > 1 {
      assert q[1..] == QuoteAll(fields[1..]);
    }
  }

  /** Round trip: quoting every field and joining them with a separator other
      than the double quote parses back to exactly those fields, whatever
      quotes and separators the fields contain. */
  lemma ParseEncode(fields: seq<string>, sep: char)
    requires |fields| >= 1 && sep != DoubleQuote
    ensures Parse(Encode(fields, sep), sep) == fields
  {
    EncodedFields(fields, sep, []);
  }

  /** A lone quote closes the quoted section without being kept, and the
      characters after it, up to the next separator, extend the same field. */
  lemma ClosingQuoteContinuesField(a: string, b: string, sep: char)
    requires DoubleQuote !in a && DoubleQuote !in b && sep !in b
    ensures Parse([DoubleQuote] + a + [DoubleQuote] + b, sep) == [a + b]
  {
    var line := [DoubleQuote] + a + [DoubleQuote] + b;
    assert line[1..] == Escape(a) + [DoubleQuote] + b;
    if |b| > 0 {
      assert b[0] in b;
    }
    QuotedSection(a, b, sep, "", []);
    NormalQuoteFree(b, sep, a, []);
    SplitFree(b, sep);
    assert "" + a == a;
  }

  /** In an unquoted field that has started, "" is read as one quote and
      both characters are consumed. */
  lemma UnquotedEscape(c: char, b: string, sep: char)
    requires c != DoubleQuote && c != sep && sep != DoubleQuote
    requires DoubleQuote !in b && sep !in b
    ensures Parse([c, DoubleQuote, DoubleQuote] + b, sep) == [[c, DoubleQuote] + b]
  {
    var line := [c, DoubleQuote, DoubleQuote] + b;
    var rest := line[1..];
    assert rest == [DoubleQuote, DoubleQuote] + b;
    assert rest[2..] == b;
    assert Scan(line, sep, WaitingForNewField, "", []) == Scan(rest, sep, InsideNormal, [c], []);
    assert [c] + [DoubleQuote] == [c, DoubleQuote];
    assert Scan(rest, sep, InsideNormal, [c], []) == Scan(b, sep, InsideNormal, [c, DoubleQuote], []);
    NormalQuoteFree(b, sep, [c, DoubleQuote], []);
    SplitFree(b, sep);
  }
}
