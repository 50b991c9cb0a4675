/** Unified diffs cut into review units: hunk headers, numbered changed lines, split chunks. */
module Hunks {
  import opened Text
  import opened Sorting

  /** A changed line: '+' with its number in the new file or '-' with its number in the old one. */
  datatype DiffLine = DiffLine(marker: char, text: string, oldNo: Option<nat>, newNo: Option<nat>)

  datatype ReviewUnit = ReviewUnit(
    patch: string,
    snippet: string,
    defaultLine: Option<nat>,
    candidates: seq<nat>,
    changed: seq<DiffLine>)

  const MAX_LINES_PER_REVIEW_UNIT: nat := 80

  // ----- hunk headers ------------------------------------------------------------------------

  function After(s: string, prefix: string): Option<string>
  {
    if prefix <= s then Some(s[|prefix|..]) else None
  }

  lemma {:induction false} AfterOf(prefix: string, rest: string)
    ensures After(prefix + rest, prefix) == Some(rest)
  {
    assert (prefix + rest)[|prefix|..] == rest;
  }

  /** A greedy run of digits, read as a number. */
  function ReadNumber(s: string): Option<(nat, string)>
  {
    var k := DigitRun(s);
    if k == 0 then None else Some((Value(s[..k]), s[k..]))
  }

  lemma {:induction false} ReadNumberOf(n: nat, tail: string)
    requires tail != [] && !IsDigit(tail[0])
    ensures ReadNumber(Decimal(n) + tail) == Some((n, tail))
  {
    DigitRunOf(Decimal(n), tail);
    DecimalRoundTrip(n);
  }

  /** An optional ",count". */
  function SkipCount(s: string): string
  {
    if s != [] && s[0] == ',' && DigitRun(s[1..]) > 0 then s[1 + DigitRun(s[1..])..] else s
  }

  /** One side of a header: a marker, a start line and an optional count. */
  function ReadRange(s: string, marker: string): Option<(nat, string)>
  {
    match After(s, marker)
    case None => None
    case Some(r) =>
      match ReadNumber(r)
      case None => None
      case Some((n, rest)) => Some((n, SkipCount(rest)))
  }

  /** The hunk pattern matched at the start: the old and new start lines. */
  function ParseHeader(s: string): Option<(nat, nat)>
  {
    match ReadRange(s, "@@ -")
    case None => None
    case Some((o, r)) =>
      match ReadRange(r, " +")
      case None => None
      case Some((n, rest)) => if After(rest, " @@").Some? then Some((o, n)) else None
  }

  /** The new start line of the first place the hunk pattern matches. */
  function ExtractLineNo(s: string): Option<nat>
  {
    if ParseHeader(s).Some? then Some(ParseHeader(s).value.1)
    else if s == [] then None
    else ExtractLineNo(s[1..])
  }

  function CountText(count: Option<nat>): string
  {
    if count.Some? then "," + Decimal(count.value) else ""
  }

  /** A side of a header: the count is left out or given. */
  function RangeText(start: nat, count: Option<nat>): string
  {
    Decimal(start) + CountText(count)
  }

  function HeaderEnd(newStart: nat, newCount: Option<nat>, section: string): string
  {
    " +" + RangeText(newStart, newCount) + (" @@" + section)
  }

  function HeaderText(oldStart: nat, oldCount: Option<nat>, newStart: nat, newCount: Option<nat>,
                      section: string): string
  {
    "@@ -" + RangeText(oldStart, oldCount) + HeaderEnd(newStart, newCount, section)
  }

  predicate IsHeader(line: string)
  {
    |line| >= 2 && line[0] == '@' && line[1] == '@'
  }

  // ----- walking a hunk ----------------------------------------------------------------------

  predicate First(raw: string, c: char)
  {
    raw != [] && raw[0] == c
  }

  predicate IsAdded(raw: string)
  {
    First(raw, '+') && !("+++" <= raw)
  }

  predicate IsDeleted(raw: string)
  {
    First(raw, '-') && !("---" <= raw)
  }

  predicate IsContext(raw: string)
  {
    First(raw, ' ')
  }

  function Inc(n: Option<nat>): Option<nat>
  {
    if n.Some? then Some(n.value + 1) else None
  }

  /** The old-file number after a hunk line: deleted and context lines are old lines. */
  function NextOld(raw: string, oldNo: Option<nat>): Option<nat>
  {
    if IsDeleted(raw) || IsContext(raw) then Inc(oldNo) else oldNo
  }

  /** The new-file number after a hunk line: added and context lines are new lines. */
  function NextNew(raw: string, newNo: Option<nat>): Option<nat>
  {
    if IsAdded(raw) || IsContext(raw) then Inc(newNo) else newNo
  }

  /** What a hunk line records. */
  function Recorded(raw: string, oldNo: Option<nat>, newNo: Option<nat>): Option<DiffLine>
  {
    if IsAdded(raw) then Some(DiffLine('+', raw[1..], None, newNo))
    else if IsDeleted(raw) then Some(DiffLine('-', raw[1..], oldNo, None))
    else None
  }

  /** The changed lines of a hunk body, numbered from the given starts. */
  function Changes(lines: seq<string>, oldNo: Option<nat>, newNo: Option<nat>): seq<DiffLine>
  {
    if lines == [] then []
    else
      var rest := Changes(lines[1..], NextOld(lines[0], oldNo), NextNew(lines[0], newNo));
      var line := Recorded(lines[0], oldNo, newNo);
      if line.Some? then [line.value] + rest else rest
  }

  /** The new-file numbers of the added lines that have one. */
  function CandidateLines(changed: seq<DiffLine>): seq<nat>
  {
    if changed == [] then []
    else if changed[0].marker == '+' && changed[0].newNo.Some?
    then [changed[0].newNo.value] + CandidateLines(changed[1..])
    else CandidateLines(changed[1..])
  }

  /** `{number} | {marker} {text}` */
  function Tagged(number: string, marker: char, text: string): string
  {
    number + (" | " + ([marker] + (" " + text)))
  }

  /** `L12 | + text` or `OLD7 | - text`, if the line has its number. */
  function PrintLine(l: DiffLine): Option<string>
  {
    if l.marker == '+' then
      if l.newNo.Some? then Some(Tagged("L" + Decimal(l.newNo.value), '+', l.text)) else None
    else
      if l.oldNo.Some? then Some(Tagged("OLD" + Decimal(l.oldNo.value), '-', l.text)) else None
  }

  /** The numbered lines shown for the changed lines that have a number. */
  function NumberedLines(changed: seq<DiffLine>): seq<string>
  {
    if changed == [] then []
    else if PrintLine(changed[0]).Some? then [PrintLine(changed[0]).value] + NumberedLines(changed[1..])
    else NumberedLines(changed[1..])
  }

  function Starts(header: string): (Option<nat>, Option<nat>)
  {
    match ParseHeader(header)
    case None => (None, None)
    case Some((o, n)) => (Some(o), Some(n))
  }

  /** The review unit of one hunk. */
  function UnitOf(header: string, lines: seq<string>): ReviewUnit
  {
    var changed := Changes(lines, Starts(header).0, Starts(header).1);
    var candidates := CandidateLines(changed);
    ReviewUnit(
      Join([header] + lines),
      Join([header] + NumberedLines(changed)),
      if candidates != [] then Some(candidates[0]) else ExtractLineNo(header),
      candidates,
      changed)
  }

  // ----- the walk keeps numbers ascending ----------------------------------------------------

  /** Candidate line numbers strictly ascend from the new start line. */
  lemma {:induction false} CandidatesAscend(lines: seq<string>, oldNo: Option<nat>, newNo: Option<nat>)
    ensures var c := CandidateLines(Changes(lines, oldNo, newNo));
            && Ascending(c)
            && (c != [] ==> newNo.Some?)
            && (forall i :: 0 <= i < |c| ==> newNo.value <= c[i])
  {
    if lines != [] {
      CandidatesAscend(lines[1..], NextOld(lines[0], oldNo), NextNew(lines[0], newNo));
      var rest := Changes(lines[1..], NextOld(lines[0], oldNo), NextNew(lines[0], newNo));
      var line := Recorded(lines[0], oldNo, newNo);
      assert line.Some? ==> ([line.value] + rest)[1..] == rest;
    }
  }

  /** `tuple(dict.fromkeys(xs))` */
  function Distinct(xs: seq<nat>): seq<nat>
  {
    if xs == [] then []
    else
      var front := Distinct(xs[..|xs| - 1]);
      if xs[|xs| - 1] in front then front else front + [xs[|xs| - 1]]
  }

  lemma {:induction false} AscendingIsDistinct(xs: seq<nat>)
    requires Ascending(xs)
    ensures Distinct(xs) == xs
  {
    if xs != [] {
      AscendingIsDistinct(xs[..|xs| - 1]);
      assert xs == xs[..|xs| - 1] + [xs[|xs| - 1]];
    }
  }

  lemma {:induction false} NumberedAppend(a: seq<DiffLine>, b: seq<DiffLine>)
    ensures NumberedLines(a + b) == NumberedLines(a) + NumberedLines(b)
  {
    if a == [] {
      assert a + b == b;
    } else {
      assert (a + b)[1..] == a[1..] + b;
      NumberedAppend(a[1..], b);
    }
  }

  lemma {:induction false} CandidatesAppend(a: seq<DiffLine>, b: seq<DiffLine>)
    ensures CandidateLines(a + b) == CandidateLines(a) + CandidateLines(b)
  {
    if a == [] {
      assert a + b == b;
    } else {
      assert (a + b)[1..] == a[1..] + b;
      CandidatesAppend(a[1..], b);
    }
  }

  /** Records one more line. */
  function Extend(changed: seq<DiffLine>, raw: string, oldNo: Option<nat>, newNo: Option<nat>): seq<DiffLine>
  {
    var line := Recorded(raw, oldNo, newNo);
    if line.Some? then changed + [line.value] else changed
  }

  lemma {:induction false} WalkStep(lines: seq<string>, i: nat, changed: seq<DiffLine>, oldNo: Option<nat>,
                                    newNo: Option<nat>)
    requires i < |lines|
    ensures changed + Changes(lines[i..], oldNo, newNo) ==
            Extend(changed, lines[i], oldNo, newNo)
            + Changes(lines[i + 1..], NextOld(lines[i], oldNo), NextNew(lines[i], newNo))
  {
    assert lines[i..][0] == lines[i] && lines[i..][1..] == lines[i + 1..];
  }

  lemma {:induction false} PrintStep(header: string, changed: seq<DiffLine>, line: DiffLine)
    ensures CandidateLines(changed + [line]) ==
            CandidateLines(changed) + if line.marker == '+' && line.newNo.Some? then [line.newNo.value] else []
    ensures [header] + NumberedLines(changed + [line]) ==
            [header] + NumberedLines(changed) + if PrintLine(line).Some? then [PrintLine(line).value] else []
  {
    CandidatesAppend(changed, [line]);
    NumberedAppend(changed, [line]);
    assert NumberedLines([line]) == if PrintLine(line).Some? then [PrintLine(line).value] else [];
  }

  /** The loop over a hunk's lines, with its two line counters and three growing lists. */
  method WalkHunk(header: string, hunkLines: seq<string>, oldStart: Option<nat>, newStart: Option<nat>)
    returns (changed: seq<DiffLine>, candidates: seq<nat>, numbered: seq<string>)
    ensures changed == Changes(hunkLines, oldStart, newStart)
    ensures candidates == CandidateLines(changed)
    ensures numbered == [header] + NumberedLines(changed)
  {
    var oldNo, newNo := oldStart, newStart;
    changed, candidates, numbered := [], [], [header];
    for i := 0 to |hunkLines|
      invariant Changes(hunkLines, oldStart, newStart) == changed + Changes(hunkLines[i..], oldNo, newNo)
      invariant candidates == CandidateLines(changed)
      invariant numbered == [header] + NumberedLines(changed)
    {
      var raw := hunkLines[i];
      ghost var before, oldBefore, newBefore := changed, oldNo, newNo;
      WalkStep(hunkLines, i, changed, oldNo, newNo);
      if First(raw, '\\') {
      } else if First(raw, '+') && !("+++" <= raw) {
        var line := DiffLine('+', raw[1..], None, newNo);
        PrintStep(header, changed, line);
        changed := changed + [line];
        if newNo.Some? {
          candidates := candidates + [newNo.value];
          numbered := numbered + [Tagged("L" + Decimal(newNo.value), '+', raw[1..])];
          newNo := Some(newNo.value + 1);
        }
      } else if First(raw, '-') && !("---" <= raw) {
        var line := DiffLine('-', raw[1..], oldNo, None);
        PrintStep(header, changed, line);
        changed := changed + [line];
        if oldNo.Some? {
          numbered := numbered + [Tagged("OLD" + Decimal(oldNo.value), '-', raw[1..])];
          oldNo := Some(oldNo.value + 1);
        }
      } else if First(raw, ' ') {
        if oldNo.Some? {
          oldNo := Some(oldNo.value + 1);
        }
        if newNo.Some? {
          newNo := Some(newNo.value + 1);
        }
      }
      assert oldNo == NextOld(raw, oldBefore) && newNo == NextNew(raw, newBefore);
      assert changed == Extend(before, raw, oldBefore, newBefore);
    }
  }

  method BuildReviewUnit(header: string, hunkLines: seq<string>) returns (unit: ReviewUnit)
    ensures unit == UnitOf(header, hunkLines)
  {
    var starts := ParseHeader(header);
    var oldStart: Option<nat> := if starts.Some? then Some(starts.value.0) else None;
    var newStart: Option<nat> := if starts.Some? then Some(starts.value.1) else None;
    var changed, candidates, numbered := WalkHunk(header, hunkLines, oldStart, newStart);
    CandidatesAscend(hunkLines, oldStart, newStart);
    AscendingIsDistinct(candidates);
    var distinct := Distinct(candidates);
    var defaultLine := if distinct != [] then Some(distinct[0]) else ExtractLineNo(header);
    unit := ReviewUnit(Join([header] + hunkLines), Join(numbered), defaultLine, distinct, changed);
  }

  // ----- splitting large additions -----------------------------------------------------------

  ghost predicate AllAdded(lines: seq<DiffLine>)
  {
    forall i :: 0 <= i < |lines| ==> lines[i].marker == '+' && lines[i].newNo.Some?
  }

  /** `@@ -0,0 +first,count @@` */
  function ChunkHeader(first: nat, count: nat): string
  {
    HeaderText(0, Some(0), first, Some(count), "")
  }

  function RawLines(chunk: seq<DiffLine>): seq<string>
  {
    if chunk == [] then [] else ["+" + chunk[0].text] + RawLines(chunk[1..])
  }

  /** The unit of one chunk of added lines. Its header claims the numbers run on from the first. */
  function ChunkUnit(chunk: seq<DiffLine>): ReviewUnit
    requires chunk != [] && AllAdded(chunk)
  {
    var header := ChunkHeader(chunk[0].newNo.value, |chunk|);
    var candidates := CandidateLines(chunk);
    ReviewUnit(
      Join([header] + RawLines(chunk)),
      Join([header] + NumberedLines(chunk)),
      if candidates != [] then Some(candidates[0]) else chunk[0].newNo,
      candidates,
      chunk)
  }

  function ChunkUnits(lines: seq<DiffLine>): seq<ReviewUnit>
    requires AllAdded(lines)
    decreases |lines|
  {
    if lines == [] then []
    else
      var n := if |lines| < MAX_LINES_PER_REVIEW_UNIT then |lines| else MAX_LINES_PER_REVIEW_UNIT;
      [ChunkUnit(lines[..n])] + ChunkUnits(lines[n..])
  }

  predicate HasNumber(l: DiffLine)
  {
    l.newNo.Some?
  }

  predicate OnlyAdditions(lines: seq<DiffLine>)
  {
    forall i :: 0 <= i < |lines| ==> lines[i].marker == '+'
  }

  predicate Splits(unit: ReviewUnit)
  {
    && |unit.candidates| > MAX_LINES_PER_REVIEW_UNIT
    && unit.changed != [] && OnlyAdditions(unit.changed)
    && |Filter(unit.changed, HasNumber)| > MAX_LINES_PER_REVIEW_UNIT
  }

  lemma {:induction false} NumberedAdditions(lines: seq<DiffLine>)
    requires OnlyAdditions(lines)
    ensures AllAdded(Filter(lines, HasNumber))
  {
    FilterElements(lines, HasNumber);
    var kept := Filter(lines, HasNumber);
    assert forall i :: 0 <= i < |kept| ==> kept[i] in kept;
  }

  /** The unit alone, or its additions in chunks. */
  function SplitUnit(unit: ReviewUnit): seq<ReviewUnit>
  {
    if !Splits(unit) then [unit]
    else
      NumberedAdditions(unit.changed);
      ChunkUnits(Filter(unit.changed, HasNumber))
  }

  lemma {:induction false} CandidatesOfAdded(chunk: seq<DiffLine>)
    requires AllAdded(chunk)
    ensures |CandidateLines(chunk)| == |NumberedLines(chunk)| == |chunk|
    ensures chunk != [] ==> CandidateLines(chunk)[0] == chunk[0].newNo.value
  {
    if chunk != [] {
      CandidatesOfAdded(chunk[1..]);
    }
  }

  method SplitLargeAddedUnit(unit: ReviewUnit) returns (units: seq<ReviewUnit>)
    ensures units == SplitUnit(unit)
  {
    if |unit.candidates| <= MAX_LINES_PER_REVIEW_UNIT {
      return [unit];
    }
    if unit.changed == [] || !OnlyAdditions(unit.changed) {
      return [unit];
    }
    var added := Filter(unit.changed, HasNumber);
    if |added| <= MAX_LINES_PER_REVIEW_UNIT {
      return [unit];
    }
    NumberedAdditions(unit.changed);
    units := SplitAdditions(added);
  }

  method SplitAdditions(added: seq<DiffLine>) returns (units: seq<ReviewUnit>)
    requires AllAdded(added)
    ensures units == ChunkUnits(added)
  {
    units := [];
    var start := 0;
    while start < |added|
      invariant 0 <= start <= |added| && AllAdded(added[start..])
      invariant ChunkUnits(added) == units + ChunkUnits(added[start..])
    {
      var stop := if start + MAX_LINES_PER_REVIEW_UNIT < |added| then start + MAX_LINES_PER_REVIEW_UNIT else |added|;
      ChunkStep(added, start, stop);
      var chunk := ChunkUnit(added[start..stop]);
      Associates(units, [chunk], ChunkUnits(added[stop..]));
      units := units + [chunk];
      start := stop;
    }
  }

  lemma {:induction false} ChunkStep(added: seq<DiffLine>, start: nat, stop: nat)
    requires AllAdded(added) && start < |added|
    requires stop == if start + MAX_LINES_PER_REVIEW_UNIT < |added| then start + MAX_LINES_PER_REVIEW_UNIT else |added|
    ensures AllAdded(added[start..]) && AllAdded(added[start..stop]) && AllAdded(added[stop..])
    ensures ChunkUnits(added[start..]) == [ChunkUnit(added[start..stop])] + ChunkUnits(added[stop..])
  {
    var rest := added[start..];
    assert rest[..stop - start] == added[start..stop] && rest[stop - start..] == added[stop..];
  }

  // ----- cutting a patch into hunks ----------------------------------------------------------

  /** The position of the first header line, or the length. */
  function HeaderAt(lines: seq<string>): (k: nat)
    ensures k <= |lines|
  {
    if lines == [] || IsHeader(lines[0]) then 0 else 1 + HeaderAt(lines[1..])
  }

  /** A header line with the lines up to the next one. */
  datatype RawHunk = RawHunk(header: string, body: seq<string>)

  /** The hunks of a patch. */
  function Segments(lines: seq<string>): seq<RawHunk>
  {
    if lines == [] then []
    else if IsHeader(lines[0]) then RunOn(lines[0], [], lines[1..])
    else Segments(lines[1..])
  }

  /** The segment begun by a header and some lines, run on to the next header and beyond. */
  function RunOn(header: string, body: seq<string>, lines: seq<string>): seq<RawHunk>
    decreases |lines|
  {
    if lines == [] then [RawHunk(header, body)]
    else if IsHeader(lines[0]) then [RawHunk(header, body)] + RunOn(lines[0], [], lines[1..])
    else RunOn(header, body + [lines[0]], lines[1..])
  }

  function UnitsOf(segments: seq<RawHunk>): seq<ReviewUnit>
  {
    if segments == [] then [] else [UnitOf(segments[0].header, segments[0].body)] + UnitsOf(segments[1..])
  }

  function SplitAll(units: seq<ReviewUnit>): seq<ReviewUnit>
  {
    if units == [] then [] else SplitUnit(units[0]) + SplitAll(units[1..])
  }

  /** The units of a patch before any is split. */
  function WholeUnits(patch: string): seq<ReviewUnit>
  {
    UnitsOf(Segments(SplitLines(patch)))
  }

  /** The review units of a patch; one that has no hunk is a single unit without changed lines. */
  function ReviewUnits(patch: string): seq<ReviewUnit>
  {
    if WholeUnits(patch) == [] then [ReviewUnit(patch, patch, ExtractLineNo(patch), [], [])]
    else SplitAll(WholeUnits(patch))
  }

  lemma {:induction false} UnitsAppend(a: seq<RawHunk>, b: seq<RawHunk>)
    ensures UnitsOf(a + b) == UnitsOf(a) + UnitsOf(b)
  {
    if a == [] {
      assert a + b == b;
    } else {
      assert (a + b)[1..] == a[1..] + b;
      UnitsAppend(a[1..], b);
    }
  }

  /** What the loop still owes: the open segment, if any, run on over the remaining lines. */
  function Pending(header: Option<string>, body: seq<string>, lines: seq<string>): seq<ReviewUnit>
  {
    UnitsOf(if header.None? then Segments(lines) else RunOn(header.value, body, lines))
  }

  lemma {:induction false} PendingStep(header: Option<string>, body: seq<string>, lines: seq<string>, i: nat)
    requires i < |lines|
    ensures Pending(header, body, lines[i..]) ==
            if IsHeader(lines[i]) then
              (if header.Some? then [UnitOf(header.value, body)] else []) + Pending(Some(lines[i]), [], lines[i + 1..])
            else Pending(header, body + [lines[i]], lines[i + 1..])
  {
    var rest := lines[i..];
    assert rest[0] == lines[i] && rest[1..] == lines[i + 1..];
    if header.Some? && IsHeader(lines[i]) {
      UnitsAppend([RawHunk(header.value, body)], RunOn(lines[i], [], lines[i + 1..]));
      assert UnitsOf([RawHunk(header.value, body)]) == [UnitOf(header.value, body)] + UnitsOf([]);
    }
  }

  method CutIntoUnits(lines: seq<string>) returns (units: seq<ReviewUnit>)
    ensures units == UnitsOf(Segments(lines))
  {
    units := [];
    var currentHeader: Option<string>, currentLines: seq<string> := None, [];
    for i := 0 to |lines|
      invariant UnitsOf(Segments(lines)) == units + Pending(currentHeader, currentLines, lines[i..])
    {
      var line := lines[i];
      PendingStep(currentHeader, currentLines, lines, i);
      if IsHeader(line) {
        if currentHeader.Some? {
          var unit := BuildReviewUnit(currentHeader.value, currentLines);
          Associates(units, [unit], Pending(Some(line), [], lines[i + 1..]));
          units := units + [unit];
        }
        currentHeader, currentLines := Some(line), [];
      } else if currentHeader.Some? {
        currentLines := currentLines + [line];
      }
    }
    if currentHeader.Some? {
      var unit := BuildReviewUnit(currentHeader.value, currentLines);
      assert UnitsOf([RawHunk(currentHeader.value, currentLines)]) == [unit] + UnitsOf([]);
      units := units + [unit];
    }
  }

  lemma {:induction false} SplitAllPush(units: seq<ReviewUnit>, unit: ReviewUnit)
    ensures SplitAll(units + [unit]) == SplitAll(units) + SplitUnit(unit)
  {
    if units == [] {
      assert [] + [unit] == [unit] && [unit][1..] == [];
    } else {
      assert (units + [unit])[1..] == units[1..] + [unit];
      SplitAllPush(units[1..], unit);
      Associates(SplitUnit(units[0]), SplitAll(units[1..]), SplitUnit(unit));
    }
  }

  method SplitEach(units: seq<ReviewUnit>) returns (expanded: seq<ReviewUnit>)
    ensures expanded == SplitAll(units)
  {
    expanded := [];
    for i := 0 to |units|
      invariant expanded == SplitAll(units[..i])
    {
      SplitAllPush(units[..i], units[i]);
      assert units[..i + 1] == units[..i] + [units[i]];
      var pieces := SplitLargeAddedUnit(units[i]);
      expanded := expanded + pieces;
    }
    assert units[..|units|] == units;
  }

  method IterReviewUnits(patch: string) returns (expanded: seq<ReviewUnit>)
    ensures expanded == ReviewUnits(patch)
  {
    var units := CutIntoUnits(SplitLines(patch));
    if units != [] {
      expanded := SplitEach(units);
    } else {
      expanded := [ReviewUnit(patch, patch, ExtractLineNo(patch), [], [])];
    }
  }
}
