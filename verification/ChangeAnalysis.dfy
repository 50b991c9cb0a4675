/** Reading a numbered snippet back, and choosing the line a comment is anchored to. */
module ChangeAnalysis {
  import opened Text
  import opened Hunks
  import opened HeaderTheorems

  // ----- parsing one line --------------------------------------------------------------------

  /** A number, a bar, a marker, a blank and the text. Either prefix may carry either marker. */
  function ParseNumbered(s: string, isNew: bool): Option<DiffLine>
  {
    match ReadNumber(s)
    case None => None
    case Some((n, rest)) =>
      match After(rest, " | ")
      case None => None
      case Some(t) =>
        if |t| >= 2 && (t[0] == '+' || t[0] == '-') && t[1] == ' '
        then Some(DiffLine(t[0], t[2..], if isNew then None else Some(n), if isNew then Some(n) else None))
        else None
  }

  /** The numbered form `L12 | + text` or `OLD7 | - text`. */
  function ParseNumberedLine(s: string): Option<DiffLine>
  {
    if After(s, "L").Some? then ParseNumbered(After(s, "L").value, true)
    else if After(s, "OLD").Some? then ParseNumbered(After(s, "OLD").value, false)
    else None
  }

  /** The raw form `+text` or `-text`, unless a second sign follows. */
  function ParseRawLine(s: string): Option<DiffLine>
  {
    if s != [] && (s[0] == '+' || s[0] == '-') && !(|s| > 1 && (s[1] == '+' || s[1] == '-'))
    then Some(DiffLine(s[0], s[1..], None, None))
    else None
  }

  function ParseLine(raw: string): Option<DiffLine>
  {
    var stripped := Strip(raw);
    if ParseNumberedLine(stripped).Some? then ParseNumberedLine(stripped) else ParseRawLine(stripped)
  }

  function ParseLines(lines: seq<string>): seq<DiffLine>
  {
    if lines == [] then []
    else if ParseLine(lines[0]).Some? then [ParseLine(lines[0]).value] + ParseLines(lines[1..])
    else ParseLines(lines[1..])
  }

  function ParseSnippet(snippet: string): seq<DiffLine>
  {
    ParseLines(SplitLines(snippet))
  }

  lemma {:induction false} ParseLinesFrom(raw: seq<string>, i: nat, before: seq<DiffLine>)
    requires i < |raw|
    ensures before + ParseLines(raw[i..]) ==
            (if ParseLine(raw[i]).Some? then before + [ParseLine(raw[i]).value] else before) + ParseLines(raw[i + 1..])
  {
    assert raw[i..][0] == raw[i] && raw[i..][1..] == raw[i + 1..];
    if ParseLine(raw[i]).Some? {
      Associates(before, [ParseLine(raw[i]).value], ParseLines(raw[i + 1..]));
    }
  }

  method ParseNumberedChangeSnippet(snippet: string) returns (lines: seq<DiffLine>)
    ensures lines == ParseSnippet(snippet)
  {
    lines := [];
    var raw := SplitLines(snippet);
    for i := 0 to |raw|
      invariant ParseLines(raw) == lines + ParseLines(raw[i..])
    {
      ParseLinesFrom(raw, i, lines);
      var stripped := Strip(raw[i]);
      var numbered := ParseNumberedLine(stripped);
      if numbered.Some? {
        lines := lines + [numbered.value];
        continue;
      }
      var plain := ParseRawLine(stripped);
      if plain.Some? {
        lines := lines + [plain.value];
      }
    }
  }

  /** `\d+ \| [+-] .*` after the prefix */
  ghost predicate HasNumberedForm(s: string, prefix: string, number: string, marker: char, text: string)
  {
    && IsNumber(number) && (marker == '+' || marker == '-')
    && s == prefix + (number + (" | " + ([marker] + (" " + text))))
  }

  lemma {:induction false} FormIsReadAsNumbered(s: string, prefix: string, number: string, marker: char, text: string,
                                                isNew: bool)
    requires HasNumberedForm(s, prefix, number, marker, text)
    ensures After(s, prefix).Some?
    ensures ParseNumbered(After(s, prefix).value, isNew) ==
            Some(DiffLine(marker, text, if isNew then None else Some(Value(number)),
                          if isNew then Some(Value(number)) else None))
  {
    var signed := [marker] + (" " + text);
    AfterOf(prefix, number + (" | " + signed));
    DigitRunOf(number, " | " + signed);
    AfterOf(" | ", signed);
    assert signed[2..] == text;
    ParsedInTwo(number + (" | " + signed), Value(number), " | " + signed, signed, isNew);
  }

  lemma SignedText(t: string)
    requires |t| >= 2 && t[1] == ' '
    ensures t == [t[0]] + (" " + t[2..])
  {
  }

  lemma {:induction false} NumberedHasForm(s: string, prefix: string, isNew: bool) returns (number: string)
    requires After(s, prefix).Some? && ParseNumbered(After(s, prefix).value, isNew).Some?
    ensures var l := ParseNumbered(After(s, prefix).value, isNew).value;
            && HasNumberedForm(s, prefix, number, l.marker, l.text)
            && l.oldNo == (if isNew then None else Some(Value(number)))
            && l.newNo == (if isNew then Some(Value(number)) else None)
  {
    var r := AfterIs(s, prefix);
    var tail;
    number, tail := ReadIsNumber(r);
    var t := AfterIs(tail, " | ");
    ParsedInTwo(r, Value(number), tail, t, isNew);
    SignedText(t);
  }

  /** The line has the numbered form of this changed line. */
  ghost predicate ShowsLine(s: string, l: DiffLine)
  {
    exists number ::
      || (HasNumberedForm(s, "L", number, l.marker, l.text) && l.newNo == Some(Value(number)) && l.oldNo == None)
      || (HasNumberedForm(s, "OLD", number, l.marker, l.text) && l.oldNo == Some(Value(number)) && l.newNo == None)
  }

  lemma {:induction false} PrefixesDiffer(s: string)
    requires After(s, "L").Some?
    ensures After(s, "OLD") == None
  {
    assert s[0] == 'L' && "OLD"[0] == 'O';
  }

  /** Which lines are read with a number: exactly those of the form of the pattern. */
  lemma {:induction false} NumberedLineExactlyWhen(s: string, l: DiffLine)
    ensures ParseNumberedLine(s) == Some(l) <==> ShowsLine(s, l)
  {
    if After(s, "L").Some? {
      PrefixesDiffer(s);
    }
    if ParseNumberedLine(s) == Some(l) {
      var isNew := After(s, "L").Some?;
      var number := NumberedHasForm(s, if isNew then "L" else "OLD", isNew);
    }
    forall number | HasNumberedForm(s, "L", number, l.marker, l.text)
      ensures ParseNumberedLine(s) == Some(DiffLine(l.marker, l.text, None, Some(Value(number))))
    {
      FormIsReadAsNumbered(s, "L", number, l.marker, l.text, true);
    }
    forall number | HasNumberedForm(s, "OLD", number, l.marker, l.text)
      ensures ParseNumberedLine(s) == Some(DiffLine(l.marker, l.text, Some(Value(number)), None))
    {
      FormIsReadAsNumbered(s, "OLD", number, l.marker, l.text, false);
    }
  }

  /** Which lines are read without a number: exactly those that, stripped, are a sign and a text that does not
      begin with another sign. */
  lemma {:induction false} RawLineExactlyWhen(raw: string, marker: char, text: string)
    ensures ParseLine(raw) == Some(DiffLine(marker, text, None, None)) <==>
            && (marker == '+' || marker == '-') && Strip(raw) == [marker] + text
            && (text != [] ==> text[0] != '+' && text[0] != '-')
  {
    var s := Strip(raw);
    if s != [] {
      assert s == [s[0]] + s[1..];
    }
  }

  // ----- the round trip ----------------------------------------------------------------------

  /** What survives printing a changed line and reading it back: its number and its text without
      trailing blanks; nothing if it has no number or its text is blank. */
  function Readable(l: DiffLine): Option<DiffLine>
  {
    if PrintLine(l).None? || RStrip(l.text) == [] then None else Some(l.(text := RStrip(l.text)))
  }

  function AllReadable(lines: seq<DiffLine>): seq<DiffLine>
  {
    if lines == [] then []
    else if Readable(lines[0]).Some? then [Readable(lines[0]).value] + AllReadable(lines[1..])
    else AllReadable(lines[1..])
  }

  /** A changed line as a hunk walk records it. */
  ghost predicate Recordable(l: DiffLine)
  {
    && (l.marker == '+' || l.marker == '-')
    && (l.marker == '+' ==> l.oldNo.None?)
    && (l.marker == '-' ==> l.newNo.None?)
    && NoBreak(l.text)
  }

  ghost predicate AllRecordable(lines: seq<DiffLine>)
  {
    forall i :: 0 <= i < |lines| ==> Recordable(lines[i])
  }

  lemma LStripKeeps(s: string)
    requires s == [] || !IsSpace(s[0])
    ensures LStrip(s) == s
  {
  }

  lemma RStripKeeps(s: string)
    requires s == [] || !IsSpace(s[|s| - 1])
    ensures RStrip(s) == s
  {
  }

  lemma {:induction false} BlankStrips()
    ensures RStrip(" ") == []
  {
    assert " "[..0] == [];
  }

  /** What the marker and the text look like once trailing blanks are gone. */
  function Trimmed(marker: char, text: string): string
  {
    [marker] + if RStrip(text) == [] then "" else " " + RStrip(text)
  }

  lemma {:induction false} TrimmedTail(marker: char, text: string)
    requires !IsSpace(marker)
    ensures RStrip([marker] + (" " + text)) == Trimmed(marker, text)
  {
    BlankStrips();
    RStripAppend(" ", text);
    RStripKeeps([marker]);
    RStripAppend([marker], " " + text);
  }

  /** A printed line, stripped. */
  lemma {:induction false} StrippedLine(number: string, marker: char, text: string)
    requires number != [] && !IsSpace(number[0]) && !IsSpace(marker)
    ensures Strip(Tagged(number, marker, text)) == number + (" | " + Trimmed(marker, text))
  {
    var tail := [marker] + (" " + text);
    LStripKeeps(Tagged(number, marker, text));
    TrimmedTail(marker, text);
    RStripAppend(" | ", tail);
    RStripAppend(number, " | " + tail);
  }

  /** A line whose number, bar and rest are known. */
  lemma ParsedInTwo(s: string, n: nat, rest: string, t: string, isNew: bool)
    requires ReadNumber(s) == Some((n, rest)) && After(rest, " | ") == Some(t)
    ensures ParseNumbered(s, isNew) ==
            if |t| >= 2 && (t[0] == '+' || t[0] == '-') && t[1] == ' '
            then Some(DiffLine(t[0], t[2..], if isNew then None else Some(n), if isNew then Some(n) else None))
            else None
  {
  }

  lemma {:induction false} TrimmedForm(marker: char, text: string)
    ensures var t := Trimmed(marker, text);
            && t != [] && t[0] == marker && (|t| >= 2 <==> RStrip(text) != [])
            && (RStrip(text) != [] ==> t[1] == ' ' && t[2..] == RStrip(text))
  {
    var t := Trimmed(marker, text);
    if RStrip(text) != [] {
      assert t == [marker, ' '] + RStrip(text);
    }
  }

  /** Reading the number and the rest of a stripped line. */
  lemma {:induction false} ParseTrimmed(n: nat, marker: char, text: string, isNew: bool)
    requires marker == '+' || marker == '-'
    ensures ParseNumbered(Decimal(n) + (" | " + Trimmed(marker, text)), isNew) ==
            if RStrip(text) == [] then None
            else Some(DiffLine(marker, RStrip(text), if isNew then None else Some(n), if isNew then Some(n) else None))
  {
    var t := Trimmed(marker, text);
    var rest := " | " + t;
    ReadNumberOf(n, rest);
    AfterOf(" | ", t);
    TrimmedForm(marker, text);
    ParsedInTwo(Decimal(n) + rest, n, rest, t, isNew);
  }

  lemma {:induction false} NewPrefix(rest: string)
    ensures ParseNumberedLine("L" + rest) == ParseNumbered(rest, true)
  {
    assert ("L" + rest)[1..] == rest;
  }

  lemma {:induction false} OldPrefix(rest: string)
    ensures ParseNumberedLine("OLD" + rest) == ParseNumbered(rest, false)
  {
    var s := "OLD" + rest;
    assert s[0] == 'O' && s[3..] == rest;
  }

  /** A printed line as its number's prefix and the rest, stripped. */
  lemma {:induction false} StrippedTagged(prefix: string, n: nat, marker: char, text: string)
    requires prefix != [] && !IsSpace(prefix[0]) && !IsSpace(marker)
    ensures Strip(Tagged(prefix + Decimal(n), marker, text)) == prefix + (Decimal(n) + (" | " + Trimmed(marker, text)))
  {
    StrippedLine(prefix + Decimal(n), marker, text);
    var d, t := Decimal(n), " | " + Trimmed(marker, text);
    assert prefix + d + t == prefix + (d + t);
  }

  lemma NotRaw(s: string)
    requires s != [] && s[0] != '+' && s[0] != '-'
    ensures ParseRawLine(s).None?
  {
  }

  /** A line printed by one module is read back by the other, up to trailing blanks. */
  lemma {:induction false} LineRoundTrip(l: DiffLine)
    requires Recordable(l) && PrintLine(l).Some?
    ensures ParseLine(PrintLine(l).value) == Readable(l)
  {
    if l.marker == '+' {
      var rest := Decimal(l.newNo.value) + (" | " + Trimmed('+', l.text));
      StrippedTagged("L", l.newNo.value, '+', l.text);
      ParseTrimmed(l.newNo.value, '+', l.text, true);
      NewPrefix(rest);
      NotRaw("L" + rest);
    } else {
      var rest := Decimal(l.oldNo.value) + (" | " + Trimmed('-', l.text));
      StrippedTagged("OLD", l.oldNo.value, '-', l.text);
      ParseTrimmed(l.oldNo.value, '-', l.text, false);
      OldPrefix(rest);
      NotRaw("OLD" + rest);
    }
  }

  /** A header line is not read as a changed line. */
  lemma {:induction false} HeaderIsSkipped(header: string)
    requires IsHeader(header)
    ensures ParseLine(header).None?
  {
    LStripKeeps(header);
    var stripped := RStrip(header);
    assert stripped != [] ==> stripped[0] == header[0];
  }

  lemma {:induction false} PrintedLines(changed: seq<DiffLine>)
    requires AllRecordable(changed)
    ensures ParseLines(NumberedLines(changed)) == AllReadable(changed)
    ensures NoBreaks(NumberedLines(changed))
    ensures forall i :: 0 <= i < |NumberedLines(changed)| ==> NumberedLines(changed)[i] != []
  {
    if changed != [] {
      PrintedLines(changed[1..]);
      if PrintLine(changed[0]).Some? {
        LineRoundTrip(changed[0]);
        PrintedNoBreak(changed[0]);
        var rest := NumberedLines(changed[1..]);
        assert ([PrintLine(changed[0]).value] + rest)[1..] == rest;
      }
    }
  }

  lemma {:induction false} PrintedNoBreak(l: DiffLine)
    requires Recordable(l) && PrintLine(l).Some?
    ensures NoBreak(PrintLine(l).value) && PrintLine(l).value != []
  {
    var d := Decimal(if l.marker == '+' then l.newNo.value else l.oldNo.value);
    assert forall i :: 0 <= i < |d| ==> IsDigit(d[i]);
    assert NoBreak(d);
  }

  /** A snippet: a header line over the numbered lines. */
  lemma {:induction false} SnippetRoundTrip(header: string, changed: seq<DiffLine>)
    requires IsHeader(header) && NoBreak(header) && AllRecordable(changed)
    ensures ParseSnippet(Join([header] + NumberedLines(changed))) == AllReadable(changed)
  {
    var lines := [header] + NumberedLines(changed);
    PrintedLines(changed);
    SplitJoin(lines);
    HeaderIsSkipped(header);
    assert lines[1..] == NumberedLines(changed);
  }

  lemma {:induction false} WalkRecords(lines: seq<string>, oldNo: Option<nat>, newNo: Option<nat>)
    requires NoBreaks(lines)
    ensures AllRecordable(Changes(lines, oldNo, newNo))
  {
    if lines != [] {
      WalkRecords(lines[1..], NextOld(lines[0], oldNo), NextNew(lines[0], newNo));
      assert lines[0] != [] ==> NoBreak(lines[0][1..]);
    }
  }

  /** Reading the snippet of any hunk's unit gives back its changed lines with their numbers, less
      the blank ones and with trailing blanks trimmed. */
  lemma {:induction false} UnitSnippetRoundTrip(header: string, lines: seq<string>)
    requires IsHeader(header) && NoBreak(header) && NoBreaks(lines)
    ensures ParseSnippet(UnitOf(header, lines).snippet) == AllReadable(UnitOf(header, lines).changed)
  {
    WalkRecords(lines, Starts(header).0, Starts(header).1);
    SnippetRoundTrip(header, UnitOf(header, lines).changed);
  }
}
