/** Hunk headers as the pattern describes them: the reader accepts exactly the texts of that form, the cuts are
    exactly at the lines that begin like one, and the default line is the first that is announced. */
module HeaderTheorems {
  import opened Text
  import opened Hunks
  import opened HunkTheorems

  // ----- the pattern -------------------------------------------------------------------------

  /** `\d+` */
  predicate IsNumber(s: string)
  {
    s != "" && AllDigits(s)
  }

  /** `(?:,\d+)?` */
  predicate IsCount(s: string)
  {
    s == "" || (s[0] == ',' && IsNumber(s[1..]))
  }

  /** `@@ -(\d+)(?:,\d+)? \+(\d+)(?:,\d+)? @@`, and anything after it. */
  ghost predicate HasForm(s: string, from: string, fromCount: string, to: string, toCount: string, rest: string)
  {
    && IsNumber(from) && IsCount(fromCount) && IsNumber(to) && IsCount(toCount)
    && s == "@@ -" + (from + (fromCount + (" +" + (to + (toCount + (" @@" + rest))))))
  }

  lemma {:induction false} CountIsSkipped(count: string, rest: string)
    requires IsCount(count) && rest != [] && rest[0] == ' '
    ensures SkipCount(count + rest) == rest
  {
    var tail := count + rest;
    if count == "" {
      assert tail == rest;
    } else {
      assert tail[1..] == count[1..] + rest;
      DigitRunOf(count[1..], rest);
      assert tail[|count|..] == rest;
    }
  }

  lemma {:induction false} SkippedIsCount(s: string) returns (count: string)
    ensures IsCount(count) && s == count + SkipCount(s)
  {
    count := "";
    if s != [] && s[0] == ',' && DigitRun(s[1..]) > 0 {
      var k := DigitRun(s[1..]);
      count := [','] + s[1..][..k];
      assert count[1..] == s[1..][..k];
      assert s == [','] + s[1..];
    }
  }

  lemma {:induction false} RangeIsRead(marker: string, number: string, count: string, rest: string)
    requires IsNumber(number) && IsCount(count) && rest != [] && rest[0] == ' '
    ensures ReadRange(marker + (number + (count + rest)), marker) == Some((Value(number), rest))
  {
    var tail := count + rest;
    assert tail[0] == if count == "" then ' ' else ',';
    AfterOf(marker, number + tail);
    DigitRunOf(number, tail);
    CountIsSkipped(count, rest);
  }

  lemma {:induction false} AfterIs(s: string, prefix: string) returns (rest: string)
    requires After(s, prefix).Some?
    ensures s == prefix + rest && After(s, prefix) == Some(rest)
  {
    rest := s[|prefix|..];
  }

  lemma {:induction false} ReadIsNumber(s: string) returns (number: string, rest: string)
    requires ReadNumber(s).Some?
    ensures IsNumber(number) && s == number + rest && ReadNumber(s) == Some((Value(number), rest))
  {
    var k := DigitRun(s);
    number, rest := s[..k], s[k..];
  }

  lemma {:induction false} ReadIsRange(s: string, marker: string) returns (number: string, count: string)
    requires ReadRange(s, marker).Some?
    ensures IsNumber(number) && IsCount(count) && ReadRange(s, marker).value.0 == Value(number)
    ensures s == marker + (number + (count + ReadRange(s, marker).value.1))
  {
    var r := AfterIs(s, marker);
    var tail;
    number, tail := ReadIsNumber(r);
    count := SkippedIsCount(tail);
  }

  lemma {:induction false} FormIsRead(s: string, from: string, fromCount: string, to: string, toCount: string,
                                      rest: string)
    requires HasForm(s, from, fromCount, to, toCount, rest)
    ensures ParseHeader(s) == Some((Value(from), Value(to)))
  {
    var end := " @@" + rest;
    var middle := " +" + (to + (toCount + end));
    RangeIsRead("@@ -", from, fromCount, middle);
    RangeIsRead(" +", to, toCount, end);
    AfterOf(" @@", rest);
  }

  lemma PartsHaveForm(s: string, from: string, fromCount: string, middle: string, to: string, toCount: string,
                      end: string, rest: string)
    requires IsNumber(from) && IsCount(fromCount) && IsNumber(to) && IsCount(toCount)
    requires s == "@@ -" + (from + (fromCount + middle)) && middle == " +" + (to + (toCount + end))
    requires end == " @@" + rest
    ensures HasForm(s, from, fromCount, to, toCount, rest)
  {
  }

  lemma ReadInTwo(s: string)
    requires ParseHeader(s).Some?
    ensures ReadRange(s, "@@ -").Some?
    ensures var (o, middle) := ReadRange(s, "@@ -").value;
            ReadRange(middle, " +").Some?
            && After(ReadRange(middle, " +").value.1, " @@").Some?
            && ParseHeader(s) == Some((o, ReadRange(middle, " +").value.0))
  {
  }

  lemma {:induction false} ReadIsForm(s: string)
    returns (from: string, fromCount: string, to: string, toCount: string, rest: string)
    requires ParseHeader(s).Some?
    ensures HasForm(s, from, fromCount, to, toCount, rest)
    ensures ParseHeader(s) == Some((Value(from), Value(to)))
  {
    ReadInTwo(s);
    from, fromCount := ReadIsRange(s, "@@ -");
    var middle := ReadRange(s, "@@ -").value.1;
    to, toCount := ReadIsRange(middle, " +");
    var end := ReadRange(middle, " +").value.1;
    rest := AfterIs(end, " @@");
    PartsHaveForm(s, from, fromCount, middle, to, toCount, end, rest);
  }

  ghost predicate AnnouncesAs(s: string, o: nat, n: nat)
  {
    exists from, fromCount, to, toCount, rest ::
      HasForm(s, from, fromCount, to, toCount, rest) && Value(from) == o && Value(to) == n
  }

  /** The reader is the pattern: a text is read as a header of these two start lines if and only if it has the
      form with these two numbers. */
  lemma {:induction false} HeaderIsReadExactlyWhen(s: string, o: nat, n: nat)
    ensures ParseHeader(s) == Some((o, n)) <==> AnnouncesAs(s, o, n)
  {
    if ParseHeader(s) == Some((o, n)) {
      var from, fromCount, to, toCount, rest := ReadIsForm(s);
    }
    if AnnouncesAs(s, o, n) {
      var from, fromCount, to, toCount, rest :|
        HasForm(s, from, fromCount, to, toCount, rest) && Value(from) == o && Value(to) == n;
      FormIsRead(s, from, fromCount, to, toCount, rest);
    }
  }

  // ----- the default line --------------------------------------------------------------------

  /** The pattern fits from position i on, at no earlier one, and announces new line n. */
  ghost predicate FirstAnnounced(s: string, i: nat, n: nat)
  {
    i <= |s| && (exists o :: AnnouncesAs(s[i..], o, n)) && forall j, o, m :: 0 <= j < i ==> !AnnouncesAs(s[j..], o, m)
  }

  lemma {:induction false} AnnouncedOrNot(s: string)
    ensures ParseHeader(s) == None ==> forall o, n :: !AnnouncesAs(s, o, n)
    ensures ParseHeader(s).Some? ==> AnnouncesAs(s, ParseHeader(s).value.0, ParseHeader(s).value.1)
  {
    forall o, n
      ensures ParseHeader(s) == None ==> !AnnouncesAs(s, o, n)
    {
      HeaderIsReadExactlyWhen(s, o, n);
    }
    if ParseHeader(s).Some? {
      HeaderIsReadExactlyWhen(s, ParseHeader(s).value.0, ParseHeader(s).value.1);
    }
  }

  /** The search gives the new start line of the first header in the text, and nothing if there is none. */
  lemma {:induction false} FirstHeaderIsFound(s: string) returns (i: nat)
    ensures ExtractLineNo(s).Some? ==> FirstAnnounced(s, i, ExtractLineNo(s).value)
    ensures ExtractLineNo(s) == None ==> forall j, o, n :: 0 <= j <= |s| ==> !AnnouncesAs(s[j..], o, n)
  {
    i := 0;
    AnnouncedOrNot(s);
    assert s[0..] == s;
    if ParseHeader(s) == None && s != [] {
      var later := FirstHeaderIsFound(s[1..]);
      i := later + 1;
      assert forall j :: 1 <= j <= |s| ==> s[j..] == s[1..][j - 1..];
    }
  }

  /** A hunk's default line is its first added one; if it adds none, the start its header announces. */
  lemma {:induction false} DefaultLineIs(header: string, lines: seq<string>, o: nat, n: nat)
    requires AnnouncesAs(header, o, n)
    ensures var unit := UnitOf(header, lines);
            unit.defaultLine == if unit.candidates == [] then Some(n) else Some(unit.candidates[0])
  {
    HeaderIsReadExactlyWhen(header, o, n);
  }

  // ----- the cuts ----------------------------------------------------------------------------

  /** The hunk begins at a line that starts with two at-signs and goes on to the line before the next such one. */
  ghost predicate CutAtHeader(h: RawHunk)
  {
    "@@" <= h.header && forall j :: 0 <= j < |h.body| ==> !("@@" <= h.body[j])
  }

  ghost predicate AllCutAtHeaders(segments: seq<RawHunk>)
  {
    forall i :: 0 <= i < |segments| ==> CutAtHeader(segments[i])
  }

  lemma {:induction false} RunOnCutsAtHeaders(header: string, body: seq<string>, lines: seq<string>)
    requires CutAtHeader(RawHunk(header, body))
    ensures AllCutAtHeaders(RunOn(header, body, lines))
    decreases |lines|
  {
    if lines != [] {
      if IsHeader(lines[0]) {
        RunOnCutsAtHeaders(lines[0], [], lines[1..]);
      } else {
        RunOnCutsAtHeaders(header, body + [lines[0]], lines[1..]);
      }
    }
  }

  /** No line starts with two at-signs. */
  ghost predicate NoneAnnounces(lines: seq<string>)
  {
    forall i :: 0 <= i < |lines| ==> !("@@" <= lines[i])
  }

  lemma {:induction false} NoneBefore(lines: seq<string>)
    ensures NoneAnnounces(lines[..HeaderAt(lines)])
  {
    if lines != [] && !IsHeader(lines[0]) {
      NoneBefore(lines[1..]);
      assert lines[..HeaderAt(lines)] == [lines[0]] + lines[1..][..HeaderAt(lines[1..])];
    }
  }

  lemma {:induction false} SegmentsCutAtHeaders(lines: seq<string>)
    ensures AllCutAtHeaders(Segments(lines))
  {
    if lines != [] {
      if IsHeader(lines[0]) {
        RunOnCutsAtHeaders(lines[0], [], lines[1..]);
      } else {
        SegmentsCutAtHeaders(lines[1..]);
      }
    }
  }

  /** The hunks are the lines from the first that starts with two at-signs on, cut before each such line. */
  lemma {:induction false} CutExactlyAtHeaders(lines: seq<string>) returns (before: seq<string>)
    ensures AllCutAtHeaders(Segments(lines))
    ensures NoneAnnounces(before) && lines == before + Flatten(Segments(lines))
  {
    before := lines[..HeaderAt(lines)];
    NoneBefore(lines);
    SegmentsCutAtHeaders(lines);
    SegmentsConserve(lines);
    assert lines == before + lines[HeaderAt(lines)..];
  }
}
