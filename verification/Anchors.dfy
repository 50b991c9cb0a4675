/** The line a finding is anchored to is always an added line of its own hunk. */
module Anchors {
  import opened Text
  import opened Sorting
  import opened Hunks
  import opened HunkTheorems
  import opened DiffScripts
  import opened SplitTheorems
  import opened PatchTheorems
  import opened ChangeAnalysis

  /** How an issue looks for its line: by groups of keywords in order of priority, by one test, or
      not at all. The tests themselves are tables of keywords and stay abstract. */
  datatype LineRule =
    | ByPriority(groups: seq<string -> bool>)
    | FirstMatch(matches: string -> bool)
    | AnyLine

  /** Exactly the issues with keywords need a line that shows them. */
  predicate RequiresDirectSignal(rule: LineRule)
  {
    !rule.AnyLine?
  }

  predicate NumberedAddition(l: DiffLine)
  {
    l.marker == '+' && l.newNo.Some?
  }

  function PrioritizedNewLines(lines: seq<DiffLine>): seq<DiffLine>
  {
    if Filter(lines, NumberedAddition) != [] then Filter(lines, NumberedAddition) else Filter(lines, HasNumber)
  }

  function FirstMatching(lines: seq<DiffLine>, matches: string -> bool): Option<DiffLine>
  {
    if lines == [] then None
    else if matches(lines[0].text) then Some(lines[0])
    else FirstMatching(lines[1..], matches)
  }

  function FirstByPriority(lines: seq<DiffLine>, groups: seq<string -> bool>): Option<DiffLine>
  {
    if groups == [] then None
    else if FirstMatching(lines, groups[0]).Some? then FirstMatching(lines, groups[0])
    else FirstByPriority(lines, groups[1..])
  }

  function SelectCandidateLine(snippet: string, candidates: seq<nat>, rule: LineRule): Option<nat>
  {
    if candidates == [] then None
    else
      var lines := PrioritizedNewLines(ParseSnippet(snippet));
      if lines == [] then Some(candidates[0])
      else
        match rule
        case ByPriority(groups) =>
          if FirstByPriority(lines, groups).Some? then FirstByPriority(lines, groups).value.newNo else None
        case FirstMatch(matches) =>
          if FirstMatching(lines, matches).Some? then FirstMatching(lines, matches).value.newNo else None
        case AnyLine => lines[0].newNo
  }

  function ResolveTargetLine(requested: Option<nat>, unit: ReviewUnit, rule: LineRule): Option<nat>
  {
    if requested.Some? && requested.value in unit.candidates then requested
    else
      var inferred := SelectCandidateLine(unit.snippet, unit.candidates, rule);
      if inferred.Some? then inferred
      else if RequiresDirectSignal(rule) then None
      else if unit.defaultLine.Some? && unit.defaultLine.value in unit.candidates then unit.defaultLine
      else if unit.candidates != [] then Some(unit.candidates[0])
      else if requested.Some? && requested.value != 0 then requested
      else unit.defaultLine
  }

  /** The line stored with a decision: the target, or the first candidate when there is none. */
  function DecisionLine(unit: ReviewUnit, rule: LineRule): Option<nat>
  {
    var target := ResolveTargetLine(None, unit, rule);
    if target.None? && unit.candidates != [] then Some(unit.candidates[0]) else target
  }

  /** The test that suppresses a new finding of an incremental run as out of scope. */
  predicate OutOfScope(line: Option<nat>, candidates: seq<nat>)
  {
    line.None? || line.value !in candidates
  }

  // ----- every unit's snippet is its changed lines -------------------------------------------

  ghost predicate WellMade(unit: ReviewUnit, header: string)
  {
    && IsHeader(header) && NoBreak(header)
    && AllRecordable(unit.changed)
    && unit.snippet == Join([header] + NumberedLines(unit.changed))
    && unit.candidates == CandidateLines(unit.changed)
  }

  ghost predicate IsWellMade(unit: ReviewUnit)
  {
    exists header :: WellMade(unit, header)
  }

  ghost predicate AllWellMade(units: seq<ReviewUnit>)
  {
    forall i :: 0 <= i < |units| ==> IsWellMade(units[i])
  }

  lemma {:induction false} ChunkIsWellMade(chunk: seq<DiffLine>)
    requires chunk != [] && AllAdded(chunk) && AllRecordable(chunk)
    ensures IsWellMade(ChunkUnit(chunk))
  {
    ParseHeaderOf(0, Some(0), chunk[0].newNo.value, Some(|chunk|), "");
    HeaderNoBreak(0, Some(0), chunk[0].newNo.value, Some(|chunk|), "");
    assert WellMade(ChunkUnit(chunk), ChunkHeader(chunk[0].newNo.value, |chunk|));
  }

  lemma WellMadeAppend(a: seq<ReviewUnit>, b: seq<ReviewUnit>)
    requires AllWellMade(a) && AllWellMade(b)
    ensures AllWellMade(a + b)
  {
  }

  lemma {:induction false} ChunksAreWellMade(lines: seq<DiffLine>)
    requires AllAdded(lines) && AllRecordable(lines)
    ensures AllWellMade(ChunkUnits(lines))
    decreases |lines|
  {
    if lines != [] {
      var n := if |lines| < MAX_LINES_PER_REVIEW_UNIT then |lines| else MAX_LINES_PER_REVIEW_UNIT;
      assert AllAdded(lines[..n]) && AllRecordable(lines[..n]) && AllRecordable(lines[n..]);
      ChunkIsWellMade(lines[..n]);
      ChunksAreWellMade(lines[n..]);
      WellMadeAppend([ChunkUnit(lines[..n])], ChunkUnits(lines[n..]));
    }
  }

  lemma {:induction false} SplitIsWellMade(hunk: RawHunk)
    requires IsHeader(hunk.header) && NoBreak(hunk.header) && NoBreaks(hunk.body)
    ensures AllWellMade(SplitUnit(UnitOf(hunk.header, hunk.body)))
  {
    var unit := UnitOf(hunk.header, hunk.body);
    WalkRecords(hunk.body, Starts(hunk.header).0, Starts(hunk.header).1);
    assert WellMade(unit, hunk.header);
    if Splits(unit) {
      NumberedAdditions(unit.changed);
      NumberedOrNot(hunk.body, Starts(hunk.header).0, Starts(hunk.header).1);
      ChunksAreWellMade(unit.changed);
    }
  }

  lemma {:induction false} SplitAllIsWellMade(segments: seq<RawHunk>)
    requires AllProper(segments)
    ensures AllWellMade(SplitAll(UnitsOf(segments)))
  {
    if segments != [] {
      SplitIsWellMade(segments[0]);
      SplitAllIsWellMade(segments[1..]);
      var units := UnitsOf(segments);
      assert units[0] == UnitOf(segments[0].header, segments[0].body) && units[1..] == UnitsOf(segments[1..]);
      WellMadeAppend(SplitUnit(units[0]), SplitAll(units[1..]));
    }
  }

  /** Every unit of every patch shows its changed lines under a header; the unit of a patch without
      a hunk has no candidates. */
  lemma {:induction false} EveryUnitIsWellMade(patch: string, i: nat)
    requires i < |ReviewUnits(patch)|
    ensures ReviewUnits(patch)[i].candidates == [] || IsWellMade(ReviewUnits(patch)[i])
  {
    SplitLinesHaveNoBreaks(patch);
    SegmentsAreProper(SplitLines(patch));
    SplitAllIsWellMade(Segments(SplitLines(patch)));
  }

  /** Snippet round trip, for every unit of every patch: reading back what one module printed gives
      the unit's changed lines with their numbers, less blank ones and trailing blanks. */
  lemma {:induction false} EverySnippetReadsBack(patch: string, i: nat)
    requires i < |ReviewUnits(patch)| && WholeUnits(patch) != []
    ensures ParseSnippet(ReviewUnits(patch)[i].snippet) == AllReadable(ReviewUnits(patch)[i].changed)
  {
    SplitLinesHaveNoBreaks(patch);
    SegmentsAreProper(SplitLines(patch));
    SplitAllIsWellMade(Segments(SplitLines(patch)));
    var header :| WellMade(ReviewUnits(patch)[i], header);
    SnippetRoundTrip(header, ReviewUnits(patch)[i].changed);
  }

  // ----- anchors -----------------------------------------------------------------------------

  /** The new-file numbers read back are the numbers of added lines. */
  lemma {:induction false} ReadableNumbers(changed: seq<DiffLine>)
    requires AllRecordable(changed)
    ensures forall l :: l in AllReadable(changed) && l.newNo.Some? ==> l.newNo.value in CandidateLines(changed)
  {
    if changed != [] {
      ReadableNumbers(changed[1..]);
      var rest := CandidateLines(changed[1..]);
      assert forall n :: n in rest ==> n in CandidateLines(changed);
      if Readable(changed[0]).Some? {
        assert AllReadable(changed) == [Readable(changed[0]).value] + AllReadable(changed[1..]);
      }
    }
  }

  lemma {:induction false} PrioritizedFrom(lines: seq<DiffLine>)
    ensures forall l :: l in PrioritizedNewLines(lines) ==> l in lines && l.newNo.Some?
  {
    FilterElements(lines, NumberedAddition);
    FilterElements(lines, HasNumber);
  }

  lemma {:induction false} FirstMatchingIn(lines: seq<DiffLine>, matches: string -> bool)
    ensures FirstMatching(lines, matches).Some? ==> FirstMatching(lines, matches).value in lines
  {
    if lines != [] {
      FirstMatchingIn(lines[1..], matches);
    }
  }

  lemma {:induction false} FirstByPriorityIn(lines: seq<DiffLine>, groups: seq<string -> bool>)
    ensures FirstByPriority(lines, groups).Some? ==> FirstByPriority(lines, groups).value in lines
  {
    if groups != [] {
      FirstMatchingIn(lines, groups[0]);
      FirstByPriorityIn(lines, groups[1..]);
    }
  }

  /** Whatever the issue's keywords, the line inferred for a unit is one of its candidates. */
  lemma {:induction false} InferredLineIsACandidate(patch: string, i: nat, rule: LineRule)
    requires i < |ReviewUnits(patch)|
    ensures var unit := ReviewUnits(patch)[i];
            var line := SelectCandidateLine(unit.snippet, unit.candidates, rule);
            line.None? || line.value in unit.candidates
  {
    var unit := ReviewUnits(patch)[i];
    EveryUnitIsWellMade(patch, i);
    if unit.candidates != [] {
      var header :| WellMade(unit, header);
      SnippetRoundTrip(header, unit.changed);
      ReadableNumbers(unit.changed);
      var lines := PrioritizedNewLines(ParseSnippet(unit.snippet));
      PrioritizedFrom(ParseSnippet(unit.snippet));
      match rule
      case ByPriority(groups) => FirstByPriorityIn(lines, groups);
      case FirstMatch(matches) => FirstMatchingIn(lines, matches);
      case AnyLine => assert lines != [] ==> lines[0] in lines;
    }
  }

  /** A stored decision names an added line of its own hunk whenever the hunk adds one, so an
      incremental run finds a decision out of scope exactly for hunks that add nothing. */
  lemma {:induction false} DecisionsStayInScope(patch: string, i: nat, rule: LineRule)
    requires i < |ReviewUnits(patch)|
    ensures var unit := ReviewUnits(patch)[i];
            && (unit.candidates != [] ==>
                  DecisionLine(unit, rule).Some? && DecisionLine(unit, rule).value in unit.candidates)
            && (OutOfScope(DecisionLine(unit, rule), unit.candidates) <==> unit.candidates == [])
  {
    InferredLineIsACandidate(patch, i, rule);
    DecisionIsACandidate(ReviewUnits(patch)[i], rule);
  }

  lemma {:induction false} DecisionIsACandidate(unit: ReviewUnit, rule: LineRule)
    requires var line := SelectCandidateLine(unit.snippet, unit.candidates, rule);
             line.None? || line.value in unit.candidates
    ensures unit.candidates != [] ==>
              DecisionLine(unit, rule).Some? && DecisionLine(unit, rule).value in unit.candidates
  {
    assert unit.candidates != [] ==> unit.candidates[0] in unit.candidates;
  }

  // ----- the anchor shows the issue ----------------------------------------------------------

  lemma {:induction false} FirstMatchingMatches(lines: seq<DiffLine>, matches: string -> bool)
    ensures var r := FirstMatching(lines, matches);
            && (r.Some? ==> r.value in lines && matches(r.value.text))
            && (r.None? <==> forall l :: l in lines ==> !matches(l.text))
  {
    if lines != [] {
      FirstMatchingMatches(lines[1..], matches);
      assert lines == [lines[0]] + lines[1..];
    }
  }

  /** The tests of an issue, in order of priority. */
  function Tests(rule: LineRule): seq<string -> bool>
  {
    match rule
    case ByPriority(groups) => groups
    case FirstMatch(matches) => [matches]
    case AnyLine => []
  }

  /** The line shows the signal of the issue. */
  ghost predicate Shows(l: DiffLine, rule: LineRule)
  {
    exists k :: 0 <= k < |Tests(rule)| && Tests(rule)[k](l.text)
  }

  /** Line j is the first that passes test k, and no line passes an earlier test. */
  ghost predicate IsBest(lines: seq<DiffLine>, tests: seq<string -> bool>, j: nat, k: nat)
  {
    && j < |lines| && k < |tests| && tests[k](lines[j].text)
    && (forall i :: 0 <= i < j ==> !tests[k](lines[i].text))
    && (forall m, i :: 0 <= m < k && 0 <= i < |lines| ==> !tests[m](lines[i].text))
  }

  ghost predicate NoneShows(lines: seq<DiffLine>, tests: seq<string -> bool>)
  {
    forall m, i :: 0 <= m < |tests| && 0 <= i < |lines| ==> !tests[m](lines[i].text)
  }

  lemma {:induction false} FirstMatchingIsFirst(lines: seq<DiffLine>, matches: string -> bool) returns (j: nat)
    ensures FirstMatching(lines, matches).None? <==> j == |lines|
    ensures j <= |lines| && forall i :: 0 <= i < j ==> !matches(lines[i].text)
    ensures j < |lines| ==> FirstMatching(lines, matches) == Some(lines[j]) && matches(lines[j].text)
  {
    if lines == [] || matches(lines[0].text) {
      j := 0;
    } else {
      var rest := FirstMatchingIsFirst(lines[1..], matches);
      j := rest + 1;
    }
  }

  lemma {:induction false} FirstByPriorityIsBest(lines: seq<DiffLine>, tests: seq<string -> bool>)
    returns (j: nat, k: nat)
    ensures FirstByPriority(lines, tests).None? ==> NoneShows(lines, tests)
    ensures FirstByPriority(lines, tests).Some? ==>
              IsBest(lines, tests, j, k) && FirstByPriority(lines, tests) == Some(lines[j])
  {
    j, k := 0, 0;
    if tests != [] {
      var first := FirstMatchingIsFirst(lines, tests[0]);
      if first < |lines| {
        j := first;
      } else {
        var rest;
        j, rest := FirstByPriorityIsBest(lines, tests[1..]);
        k := rest + 1;
      }
    }
  }

  /** The added lines of a unit that can be read back from its snippet. */
  function ReadableAdditions(unit: ReviewUnit): seq<DiffLine>
  {
    Filter(AllReadable(unit.changed), NumberedAddition)
  }

  lemma {:induction false} ReadableNumbersAreAdditions(changed: seq<DiffLine>)
    requires AllRecordable(changed)
    ensures forall l :: l in AllReadable(changed) && l.newNo.Some? ==> NumberedAddition(l)
  {
    if changed != [] {
      ReadableNumbersAreAdditions(changed[1..]);
      if Readable(changed[0]).Some? {
        assert AllReadable(changed) == [Readable(changed[0]).value] + AllReadable(changed[1..]);
      }
    }
  }

  lemma {:induction false} PrioritizedAreAdditions(unit: ReviewUnit)
    requires IsWellMade(unit)
    ensures PrioritizedNewLines(ParseSnippet(unit.snippet)) == ReadableAdditions(unit)
    ensures ReadableAdditions(unit) != [] ==> unit.candidates != []
  {
    var header :| WellMade(unit, header);
    SnippetRoundTrip(header, unit.changed);
    ReadableNumbersAreAdditions(unit.changed);
    ReadableNumbers(unit.changed);
    var lines := AllReadable(unit.changed);
    FilterElements(lines, NumberedAddition);
    FilterElements(lines, HasNumber);
    if ReadableAdditions(unit) == [] {
      assert forall l :: l in lines ==> l !in ReadableAdditions(unit);
      FilterNone(lines, HasNumber);
    } else {
      assert ReadableAdditions(unit)[0] in ReadableAdditions(unit);
    }
  }

  /** The anchor of an issue that needs a direct signal is the readable added line that shows it best:
      the first to pass the first test that any of them passes. There is none exactly when there are
      readable added lines and none shows the signal, or the unit adds nothing. The decision stands at the
      anchor; without one, at the first added line. */
  lemma {:induction false} AnchorShowsTheBestSignal(unit: ReviewUnit, rule: LineRule)
    requires IsWellMade(unit) && RequiresDirectSignal(rule) && ReadableAdditions(unit) != []
    ensures unit.candidates != []
    ensures match ResolveTargetLine(None, unit, rule) {
              case None =>
                NoneShows(ReadableAdditions(unit), Tests(rule)) && DecisionLine(unit, rule) == Some(unit.candidates[0])
              case Some(n) =>
                DecisionLine(unit, rule) == Some(n)
                && exists j: nat, k: nat :: IsBest(ReadableAdditions(unit), Tests(rule), j, k)
                                            && ReadableAdditions(unit)[j].newNo == Some(n)
            }
  {
    var added := ReadableAdditions(unit);
    PrioritizedAreAdditions(unit);
    FilterElements(AllReadable(unit.changed), NumberedAddition);
    var tests := Tests(rule);
    if rule.ByPriority? {
      var j, k := FirstByPriorityIsBest(added, tests);
      assert FirstByPriority(added, tests).Some? ==> added[j] in added;
    } else {
      var j := FirstMatchingIsFirst(added, rule.matches);
      OneTest(added, rule.matches, j);
      assert j < |added| ==> added[j] in added;
    }
  }

  lemma OneTest(lines: seq<DiffLine>, matches: string -> bool, j: nat)
    requires j <= |lines| && forall i :: 0 <= i < j ==> !matches(lines[i].text)
    requires j < |lines| ==> matches(lines[j].text)
    ensures if j < |lines| then IsBest(lines, [matches], j, 0) else NoneShows(lines, [matches])
  {
  }

  /** Some readable added line of the unit stands at the anchor and shows the signal. */
  ghost predicate ShownAt(unit: ReviewUnit, rule: LineRule, anchor: Option<nat>)
  {
    exists l :: l in ReadableAdditions(unit) && l.newNo == anchor && Shows(l, rule)
  }

  lemma {:induction false} AnchorIsShown(unit: ReviewUnit, rule: LineRule)
    requires IsWellMade(unit) && RequiresDirectSignal(rule) && ReadableAdditions(unit) != []
    ensures ResolveTargetLine(None, unit, rule).Some? ==> ShownAt(unit, rule, ResolveTargetLine(None, unit, rule))
  {
    var (added, anchor) := (ReadableAdditions(unit), ResolveTargetLine(None, unit, rule));
    AnchorShowsTheBestSignal(unit, rule);
    if anchor.Some? {
      var j: nat, k: nat :| IsBest(added, Tests(rule), j, k) && added[j].newNo == anchor;
      assert added[j] in added && Shows(added[j], rule);
    }
  }

  /** An issue that needs a direct signal is anchored at a line that shows it, except for exactly the
      units that add lines of which none can be read back, that is blank ones: there the anchor is the
      first added line and shows nothing. */
  lemma {:induction false} AnchorShowsTheSignalExactlyWhenReadable(patch: string, i: nat, rule: LineRule)
    requires i < |ReviewUnits(patch)| && RequiresDirectSignal(rule)
    ensures var unit := ReviewUnits(patch)[i];
            var anchor := ResolveTargetLine(None, unit, rule);
            && (anchor.Some? && !ShownAt(unit, rule, anchor) <==>
                unit.candidates != [] && ReadableAdditions(unit) == [])
            && (unit.candidates != [] && ReadableAdditions(unit) == [] ==> anchor == Some(unit.candidates[0]))
            && (unit.candidates == [] ==> anchor == None)
  {
    var unit := ReviewUnits(patch)[i];
    EveryUnitIsWellMade(patch, i);
    if unit.candidates != [] {
      PrioritizedAreAdditions(unit);
      if ReadableAdditions(unit) != [] {
        AnchorIsShown(unit, rule);
      }
    }
  }

  lemma {:induction false} FirstAdditionIsNumbered(unit: ReviewUnit)
    requires ReadableAdditions(unit) != []
    ensures ReadableAdditions(unit)[0].newNo.Some?
  {
    FilterElements(AllReadable(unit.changed), NumberedAddition);
    assert ReadableAdditions(unit)[0] in ReadableAdditions(unit);
  }

  lemma {:induction false} AnyLineOf(unit: ReviewUnit)
    requires IsWellMade(unit) && unit.candidates != []
    ensures ResolveTargetLine(None, unit, AnyLine) ==
            if ReadableAdditions(unit) != [] then ReadableAdditions(unit)[0].newNo else Some(unit.candidates[0])
    ensures ResolveTargetLine(None, unit, AnyLine).Some?
  {
    PrioritizedAreAdditions(unit);
    if ReadableAdditions(unit) != [] {
      FirstAdditionIsNumbered(unit);
    }
  }

  /** An issue without keywords is anchored at the first added line that can be read back; if there is none, at
      the first added line; and at the default line if the unit adds nothing. There the decision stands. */
  lemma {:induction false} AnyLineIsTheFirst(patch: string, i: nat)
    requires i < |ReviewUnits(patch)|
    ensures var unit := ReviewUnits(patch)[i];
            DecisionLine(unit, AnyLine) == ResolveTargetLine(None, unit, AnyLine) ==
            if unit.candidates == [] then unit.defaultLine
            else if ReadableAdditions(unit) != [] then ReadableAdditions(unit)[0].newNo
            else Some(unit.candidates[0])
  {
    var unit := ReviewUnits(patch)[i];
    EveryUnitIsWellMade(patch, i);
    if unit.candidates != [] {
      AnyLineOf(unit);
    }
  }

  /** A line that is asked for is taken if it is one of the candidates, and makes no difference if there are
      candidates and it is none of them. */
  lemma RequestedLineCountsExactlyWhenACandidate(requested: nat, unit: ReviewUnit, rule: LineRule)
    ensures requested in unit.candidates ==> ResolveTargetLine(Some(requested), unit, rule) == Some(requested)
    ensures unit.candidates != [] && requested !in unit.candidates ==>
              ResolveTargetLine(Some(requested), unit, rule) == ResolveTargetLine(None, unit, rule)
    ensures unit.candidates == [] ==>
              ResolveTargetLine(Some(requested), unit, rule) ==
              if RequiresDirectSignal(rule) then None
              else if requested == 0 then unit.defaultLine else Some(requested)
  {
  }

  /** A hunk that deletes a call and adds a blank line in its place. */
  function BlankedCall(): ReviewUnit
  {
    UnitOf(HeaderText(1, None, 1, None, ""), ["-free(p);", "+"])
  }

  lemma {:induction false} BlankedCallChanges()
    ensures Changes(["-free(p);", "+"], Some(1), Some(1)) ==
            [DiffLine('-', "free(p);", Some(1), None), DiffLine('+', "", None, Some(1))]
  {
    assert ["-free(p);", "+"][1..] == ["+"] && ["+"][1..] == [];
    assert "-free(p);"[1..] == "free(p);" && "+"[1..] == "";
    assert "-free(p);"[1] == 'f';
    assert IsDeleted("-free(p);") && !IsAdded("-free(p);") && !IsContext("-free(p);");
    assert Changes(["+"], Some(2), Some(1)) == [DiffLine('+', "", None, Some(1))];
  }

  lemma {:induction false} BlankedCallUnbroken()
    ensures NoBreaks(["-free(p);", "+"])
  {
    var s := "-free(p);";
    assert s[0] == '-' && s[1] == 'f' && s[2] == 'r' && s[3] == 'e' && s[4] == 'e';
    assert s[5] == '(' && s[6] == 'p' && s[7] == ')' && s[8] == ';';
    assert NoBreak(s) && NoBreak("+");
  }

  lemma {:induction false} BlankedCallRecords()
    ensures BlankedCall().changed == [DiffLine('-', "free(p);", Some(1), None), DiffLine('+', "", None, Some(1))]
    ensures IsWellMade(BlankedCall())
  {
    var (header, lines) := (HeaderText(1, None, 1, None, ""), ["-free(p);", "+"]);
    ParseHeaderOf(1, None, 1, None, "");
    HeaderNoBreak(1, None, 1, None, "");
    BlankedCallChanges();
    BlankedCallUnbroken();
    UnitRecords(header, lines, 1, 1);
    WalkRecords(lines, Some(1), Some(1));
    assert WellMade(BlankedCall(), header);
  }

  lemma {:induction false} BlankedCallReads(gone: DiffLine, blank: DiffLine)
    requires gone.marker == '-' && blank == DiffLine('+', "", None, Some(1))
    ensures CandidateLines([gone, blank]) == [1]
    ensures forall l :: l in AllReadable([gone, blank]) ==> !NumberedAddition(l)
  {
    assert [gone, blank][1..] == [blank] && [blank][1..] == [];
    assert AllReadable([blank]) == [];
    assert CandidateLines([blank]) == [1];
  }

  /** Whatever shows the issue, its comment is anchored at the blank line. */
  lemma {:induction false} BlankLineIsAnchoredWithoutSignal(rule: LineRule)
    requires RequiresDirectSignal(rule)
    ensures BlankedCall().changed == [DiffLine('-', "free(p);", Some(1), None), DiffLine('+', "", None, Some(1))]
    ensures ResolveTargetLine(None, BlankedCall(), rule) == Some(1) && !ShownAt(BlankedCall(), rule, Some(1))
  {
    BlankedCallRecords();
    var changed := BlankedCall().changed;
    BlankedCallReads(changed[0], changed[1]);
    FilterNone(AllReadable(changed), NumberedAddition);
    PrioritizedAreAdditions(BlankedCall());
  }

  // ----- anchors of a printed diff -----------------------------------------------------------

  lemma {:induction false} CandidateIsAdded(changed: seq<DiffLine>, n: nat) returns (l: DiffLine)
    requires n in CandidateLines(changed)
    ensures l in changed && l.marker == '+' && l.newNo == Some(n)
  {
    if changed[0].marker == '+' && changed[0].newNo == Some(n) {
      l := changed[0];
    } else {
      l := CandidateIsAdded(changed[1..], n);
    }
  }

  lemma {:induction false} UnitLinesAreAll(units: seq<ReviewUnit>, i: nat)
    requires i < |units|
    ensures forall l :: l in units[i].changed ==> l in AllChanged(units)
  {
    if i > 0 {
      UnitLinesAreAll(units[1..], i - 1);
    }
  }

  lemma {:induction false} ConcatNames(hunks: seq<seq<DiffLine>>, oldFile: seq<string>, newFile: seq<string>)
    requires AllHunksName(hunks, oldFile, newFile)
    ensures AllName(Concat(hunks), oldFile, newFile)
  {
    if hunks != [] {
      assert forall k :: 0 <= k < |hunks[1..]| ==> hunks[1..][k] == hunks[k + 1];
      ConcatNames(hunks[1..], oldFile, newFile);
      assert AllName(hunks[0], oldFile, newFile);
    }
  }

  /** End to end: of a patch that is read truly, the decision of any unit that adds a line names a line
      of the new file that the diff adds. */
  lemma {:induction false} DecisionNamesAnAddedLine(preamble: seq<string>, script: seq<Segment>, ended: bool, i: nat,
                                                    rule: LineRule)
    returns (l: DiffLine)
    requires NoHeaders(ReadLines(preamble)) && ScriptReadsTruly(script)
    requires i < |ReviewUnits(PrintPatch(preamble, script, ended))|
    requires ReviewUnits(PrintPatch(preamble, script, ended))[i].candidates != []
    ensures l in Concat(TrueHunks(script, START)) && l.marker == '+'
    ensures DecisionLine(ReviewUnits(PrintPatch(preamble, script, ended))[i], rule) == l.newNo
    ensures NamesItsLine(l, OldFile(script), NewFile(script))
  {
    var patch := PrintPatch(preamble, script, ended);
    var unit := ReviewUnits(patch)[i];
    DecisionsStayInScope(patch, i, rule);
    EveryUnitIsWellMade(patch, i);
    var header :| WellMade(unit, header);
    l := CandidateIsAdded(unit.changed, DecisionLine(unit, rule).value);
    UnitLinesAreAll(ReviewUnits(patch), i);
    ReviewedLinesAreTheChangedLines(preamble, script, ended);
    ConcatNames(TrueHunks(script, START), OldFile(script), NewFile(script));
    var k :| 0 <= k < |Concat(TrueHunks(script, START))| && Concat(TrueHunks(script, START))[k] == l;
  }
}
