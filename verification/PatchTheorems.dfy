/** Whole patches: the diff of two files is printed and the text is cut into units. What is recorded is
    the truth exactly when the texts leave nothing behind that reads as something else. */
module PatchTheorems {
  import opened Text
  import opened Hunks
  import opened HunkTheorems
  import opened DiffScripts
  import opened SplitTheorems

  // ----- what the texts of a script can do ---------------------------------------------------

  /** A changed line the walk can record: one line, that does not look like a file header. */
  predicate Plain(op: Op)
  {
    NoBreak(TextOf(op)) && !LooksLikeFileHeader(op)
  }

  predicate ChangesArePlain(ops: seq<Op>)
  {
    forall i :: 0 <= i < |ops| && IsChange(ops[i]) ==> Plain(ops[i])
  }

  predicate Marked(raw: string)
  {
    IsAdded(raw) || IsDeleted(raw)
  }

  predicate NoneMarked(lines: seq<string>)
  {
    forall k :: 0 <= k < |lines| ==> !Marked(lines[k])
  }

  /** No text of the hunk leaves behind, after a line break, what reads as a changed line. */
  predicate ExtrasAreUnmarked(ops: seq<Op>, section: string)
  {
    NoneMarked(Extras(section)) && forall i :: 0 <= i < |ops| ==> NoneMarked(Extras(TextOf(ops[i])))
  }

  function ExtraContexts(extras: seq<string>, ops: seq<Op>): nat
  {
    if ops == [] then Contexts(extras)
    else ExtraContexts(extras, ops[..|ops| - 1]) + Contexts(Extras(TextOf(ops[|ops| - 1])))
  }

  /** As many lines are left behind that read as context as there are bare lines, which are not counted. */
  predicate Balanced(ops: seq<Op>, section: string)
  {
    ExtraContexts(Extras(section), ops) == Bares(ops)
  }

  /** The two balance before every change. */
  predicate NothingShifts(ops: seq<Op>, section: string)
  {
    forall j :: 0 <= j < |ops| && IsChange(ops[j]) ==> Balanced(ops[..j], section)
  }

  /** No text of the hunk leaves behind what reads as a hunk header. */
  predicate NoStrayHeaders(ops: seq<Op>, section: string)
  {
    NoHeaders(Extras(section)) && forall i :: 0 <= i < |ops| ==> NoHeaders(Extras(TextOf(ops[i])))
  }

  predicate HunkReadsTruly(ops: seq<Op>, section: string)
  {
    ChangesArePlain(ops) && ExtrasAreUnmarked(ops, section) && NothingShifts(ops, section)
  }

  predicate ScriptReadsTruly(script: seq<Segment>)
  {
    forall i :: 0 <= i < |script| && script[i].Hunk? ==>
      NoStrayHeaders(script[i].ops, script[i].section) && HunkReadsTruly(script[i].ops, script[i].section)
  }

  // ----- what a hunk reads as ----------------------------------------------------------------

  /** The operation as far as its first line break. */
  function Shortened(op: Op): Op
  {
    match op
    case Keep(t) => Keep(FirstPiece(t))
    case Bare => Bare
    case Add(t) => Add(FirstPiece(t))
    case Del(t) => Del(FirstPiece(t))
    case NoNewline(t) => NoNewline(FirstPiece(t))
  }

  /** The lines an operation is read as. */
  function ReadAs(op: Op): seq<string>
  {
    [Render(Shortened(op))] + Extras(TextOf(op))
  }

  /** The lines read after a hunk's header: what its section leaves behind, then the body. */
  function HunkLines(ops: seq<Op>, section: string): seq<string>
  {
    if ops == [] then Extras(section)
    else HunkLines(ops[..|ops| - 1], section) + ReadAs(ops[|ops| - 1])
  }

  lemma {:induction false} RenderedReads(op: Op)
    ensures Pieces(Render(op)) == ReadAs(op)
    ensures NoBreak(TextOf(op)) ==> Shortened(op) == op && Extras(TextOf(op)) == []
  {
    PiecesOfUnbroken(TextOf(op));
    PiecesOfPrefixed(Sign(op), TextOf(op));
    assert Pieces(Render(op)) == [FirstPiece(Render(op))] + Extras(Render(op));
  }

  lemma {:induction false} HunkLinesAreRead(ops: seq<Op>, section: string)
    ensures HunkLines(ops, section) == Extras(section) + ReadLines(RenderAll(ops))
  {
    if ops == [] {
      assert Extras(section) + ReadLines(RenderAll(ops)) == Extras(section);
    } else {
      var (before, op) := (ops[..|ops| - 1], ops[|ops| - 1]);
      HunkLinesAreRead(before, section);
      LastOperationReads(ops, before, op);
      Associates(Extras(section), ReadLines(RenderAll(before)), ReadAs(op));
    }
  }

  lemma {:induction false} HunkLinesPush(before: seq<Op>, op: Op, section: string)
    ensures HunkLines(before + [op], section) == HunkLines(before, section) + ReadAs(op)
  {
    assert (before + [op])[..|before|] == before;
  }

  lemma {:induction false} LastOperationReads(ops: seq<Op>, before: seq<Op>, op: Op)
    requires ops != [] && before == ops[..|ops| - 1] && op == ops[|ops| - 1]
    ensures ReadLines(RenderAll(ops)) == ReadLines(RenderAll(before)) + ReadAs(op)
  {
    RenderLast(ops, before, op);
    ReadLinesAppend(RenderAll(before), [Render(op)]);
    assert [Render(op)][1..] == [];
    assert ReadLines([Render(op)]) == Pieces(Render(op)) + [];
    RenderedReads(op);
  }

  lemma {:induction false} HunkLinesHaveNoBreaks(ops: seq<Op>, section: string)
    ensures NoBreaks(HunkLines(ops, section))
  {
    HunkLinesAreRead(ops, section);
    PiecesHaveNoBreaks(section);
    ReadLinesHaveNoBreaks(RenderAll(ops));
  }

  // ----- a recorded line is plain ------------------------------------------------------------

  predicate PlainLine(l: DiffLine)
  {
    NoBreak(l.text) && (l.marker == '+' ==> !("++" <= l.text)) && (l.marker == '-' ==> !("--" <= l.text))
  }

  lemma {:induction false} RecordedArePlain(lines: seq<string>, oldNo: Option<nat>, newNo: Option<nat>)
    requires NoBreaks(lines)
    ensures forall l :: l in Changes(lines, oldNo, newNo) ==> PlainLine(l)
  {
    if lines != [] {
      RecordedArePlain(lines[1..], NextOld(lines[0], oldNo), NextNew(lines[0], newNo));
      var line := Recorded(lines[0], oldNo, newNo);
      if line.Some? {
        MarkedIsPlain(lines[0], oldNo, newNo);
      }
    }
  }

  lemma {:induction false} MarkedIsPlain(raw: string, oldNo: Option<nat>, newNo: Option<nat>)
    requires NoBreak(raw) && Recorded(raw, oldNo, newNo).Some?
    ensures PlainLine(Recorded(raw, oldNo, newNo).value)
  {
    var text := raw[1..];
    assert raw == [raw[0]] + text;
    RenderedKind(Add(text));
    RenderedKind(Del(text));
  }

  lemma {:induction false} TrueLineOf(ops: seq<Op>, o: nat, n: nat, i: nat) returns (l: DiffLine)
    requires i < |ops| && IsChange(ops[i])
    ensures l in TrueLines(ops, o, n) && l.text == TextOf(ops[i]) && l.marker == if ops[i].Add? then '+' else '-'
  {
    var before := ops[..|ops| - 1];
    if i < |ops| - 1 {
      l := TrueLineOf(before, o, n, i);
    } else if ops[i].Add? {
      l := DiffLine('+', TextOf(ops[i]), None, Some(n + |NewSide(before)|));
    } else {
      l := DiffLine('-', TextOf(ops[i]), Some(o + |OldSide(before)|), None);
    }
  }

  /** A changed line that is not plain is never recorded. */
  lemma {:induction false} TrueMeansPlain(lines: seq<string>, ops: seq<Op>, o: nat, n: nat)
    requires NoBreaks(lines) && Changes(lines, Some(o), Some(n)) == TrueLines(ops, o, n)
    ensures ChangesArePlain(ops)
  {
    RecordedArePlain(lines, Some(o), Some(n));
    forall i | 0 <= i < |ops| && IsChange(ops[i])
      ensures Plain(ops[i])
    {
      var l := TrueLineOf(ops, o, n, i);
    }
  }

  // ----- counting what is left behind --------------------------------------------------------

  function Marks(lines: seq<string>): nat
  {
    if lines == [] then 0 else (if Marked(lines[0]) then 1 else 0) + Marks(lines[1..])
  }

  lemma {:induction false} MarksAppend(a: seq<string>, b: seq<string>)
    ensures Marks(a + b) == Marks(a) + Marks(b)
  {
    if a == [] {
      assert a + b == b;
    } else {
      assert (a + b)[1..] == a[1..] + b;
      MarksAppend(a[1..], b);
    }
  }

  lemma {:induction false} MarksAreRecorded(lines: seq<string>, oldNo: Option<nat>, newNo: Option<nat>)
    ensures |Changes(lines, oldNo, newNo)| == Marks(lines)
  {
    if lines != [] {
      MarksAreRecorded(lines[1..], NextOld(lines[0], oldNo), NextNew(lines[0], newNo));
    }
  }

  lemma {:induction false} NoMarks(lines: seq<string>)
    ensures Marks(lines) == 0 <==> NoneMarked(lines)
  {
    if lines != [] {
      NoMarks(lines[1..]);
      assert forall k :: 1 <= k < |lines| ==> lines[k] == lines[1..][k - 1];
    }
  }

  /** Unmarked lines count as nothing but context. */
  lemma {:induction false} UnmarkedCount(lines: seq<string>)
    requires NoneMarked(lines)
    ensures Olds(lines) == News(lines) == Contexts(lines)
  {
    if lines != [] {
      UnmarkedCount(lines[1..]);
    }
  }

  function ExtraMarks(extras: seq<string>, ops: seq<Op>): nat
  {
    if ops == [] then Marks(extras)
    else ExtraMarks(extras, ops[..|ops| - 1]) + Marks(Extras(TextOf(ops[|ops| - 1])))
  }

  lemma UnmarkedLast(ops: seq<Op>, section: string)
    requires ops != []
    ensures ExtrasAreUnmarked(ops, section) <==>
            ExtrasAreUnmarked(ops[..|ops| - 1], section) && NoneMarked(Extras(TextOf(ops[|ops| - 1])))
  {
  }

  lemma {:induction false} NoExtraMarks(ops: seq<Op>, section: string)
    ensures ExtraMarks(Extras(section), ops) == 0 <==> ExtrasAreUnmarked(ops, section)
  {
    if ops == [] {
      NoMarks(Extras(section));
    } else {
      NoExtraMarks(ops[..|ops| - 1], section);
      NoMarks(Extras(TextOf(ops[|ops| - 1])));
      UnmarkedLast(ops, section);
    }
  }

  lemma {:induction false} NothingShiftsLast(ops: seq<Op>, section: string)
    requires ops != []
    ensures var (before, op) := (ops[..|ops| - 1], ops[|ops| - 1]);
            NothingShifts(ops, section) <==>
            NothingShifts(before, section) && (IsChange(op) ==> Balanced(before, section))
  {
    var (before, op) := (ops[..|ops| - 1], ops[|ops| - 1]);
    assert forall j :: 0 <= j < |before| ==> before[j] == ops[j] && before[..j] == ops[..j];
  }

  // ----- one hunk ----------------------------------------------------------------------------

  lemma {:induction false} MarksPush(lines: seq<string>, op: Op)
    requires IsChange(op) ==> Plain(op)
    ensures Marks(lines + ReadAs(op)) == Marks(lines) + (if IsChange(op) then 1 else 0) + Marks(Extras(TextOf(op)))
  {
    var first := Render(Shortened(op));
    MarksAppend(lines, ReadAs(op));
    assert ReadAs(op)[1..] == Extras(TextOf(op));
    RenderedReads(op);
    RenderedKind(Shortened(op));
  }

  lemma {:induction false} CountsPush(lines: seq<string>, op: Op)
    requires (IsChange(op) ==> Plain(op)) && NoneMarked(Extras(TextOf(op)))
    ensures News(lines + ReadAs(op)) ==
            News(lines) + (if op.Keep? || op.Add? then 1 else 0) + Contexts(Extras(TextOf(op)))
    ensures Olds(lines + ReadAs(op)) ==
            Olds(lines) + (if op.Keep? || op.Del? then 1 else 0) + Contexts(Extras(TextOf(op)))
  {
    CountsAppend(lines, ReadAs(op));
    assert ReadAs(op)[1..] == Extras(TextOf(op));
    UnmarkedCount(Extras(TextOf(op)));
    RenderedReads(op);
    RenderedKind(Shortened(op));
  }

  /** The hunk as read has a marked line for every change, and one for every extra that is marked. */
  lemma {:induction false} MarksOfHunk(ops: seq<Op>, section: string, o: nat, n: nat)
    requires ChangesArePlain(ops)
    ensures Marks(HunkLines(ops, section)) == |TrueLines(ops, o, n)| + ExtraMarks(Extras(section), ops)
  {
    if ops != [] {
      MarksOfHunk(ops[..|ops| - 1], section, o, n);
      MarksPush(HunkLines(ops[..|ops| - 1], section), ops[|ops| - 1]);
    }
  }

  /** With nothing marked left behind, the walk counts what the files have, less the bare lines, and every
      line of context left behind. */
  lemma {:induction false} CountsOfHunk(ops: seq<Op>, section: string)
    requires ChangesArePlain(ops) && ExtrasAreUnmarked(ops, section)
    ensures News(HunkLines(ops, section)) + Bares(ops) == |NewSide(ops)| + ExtraContexts(Extras(section), ops)
    ensures Olds(HunkLines(ops, section)) + Bares(ops) == |OldSide(ops)| + ExtraContexts(Extras(section), ops)
  {
    if ops == [] {
      UnmarkedCount(Extras(section));
    } else {
      CountsOfHunk(ops[..|ops| - 1], section);
      CountsPush(HunkLines(ops[..|ops| - 1], section), ops[|ops| - 1]);
    }
  }

  /** The lines an operation is read as record its changed line and nothing more. */
  lemma {:induction false} OperationRecords(op: Op, oldNo: nat, newNo: nat)
    requires (IsChange(op) ==> Plain(op)) && NoneMarked(Extras(TextOf(op)))
    ensures Changes(ReadAs(op), Some(oldNo), Some(newNo)) == ChangedLine(op, Numbers(oldNo, newNo))
  {
    var (first, more) := (Render(Shortened(op)), Extras(TextOf(op)));
    RenderedReads(op);
    RenderedKind(Shortened(op));
    assert ReadAs(op)[1..] == more;
    NoMarks(more);
    MarksAreRecorded(more, NextOld(first, Some(oldNo)), NextNew(first, Some(newNo)));
  }

  lemma {:induction false} LastIsTrue(ops: seq<Op>, section: string, o: nat, n: nat)
    requires ops != [] && (IsChange(ops[|ops| - 1]) ==> Plain(ops[|ops| - 1]))
             && NoneMarked(Extras(TextOf(ops[|ops| - 1])))
    requires |Changes(HunkLines(ops[..|ops| - 1], section), Some(o), Some(n))| == |TrueLines(ops[..|ops| - 1], o, n)|
    ensures var (before, op) := (ops[..|ops| - 1], ops[|ops| - 1]);
            var lines := HunkLines(before, section);
            Changes(HunkLines(ops, section), Some(o), Some(n)) == TrueLines(ops, o, n) <==>
            && Changes(lines, Some(o), Some(n)) == TrueLines(before, o, n)
            && ChangedLine(op, NumbersRead(lines, o, n)) == ChangedLine(op, NumbersAfter(before, o, n))
  {
    var (before, op) := (ops[..|ops| - 1], ops[|ops| - 1]);
    var read := NumbersRead(HunkLines(before, section), o, n);
    OperationRecords(op, read.oldNo, read.newNo);
    OneMoreIsTrue(HunkLines(before, section), ReadAs(op), TrueLines(before, o, n), op, o, n, read,
                  NumbersAfter(before, o, n));
  }

  lemma {:induction false} LastLineIsTrue(before: seq<Op>, op: Op, section: string, o: nat, n: nat)
    requires ChangesArePlain(before) && ExtrasAreUnmarked(before, section)
    ensures ChangedLine(op, NumbersRead(HunkLines(before, section), o, n)) ==
            ChangedLine(op, NumbersAfter(before, o, n))
            <==>
            (IsChange(op) ==> Balanced(before, section))
  {
    CountsOfHunk(before, section);
    DriftingLine(op, NumbersRead(HunkLines(before, section), o, n), NumbersAfter(before, o, n), Bares(before),
                 ExtraContexts(Extras(section), before));
  }

  lemma DriftingLine(op: Op, read: Numbers, meant: Numbers, lag: nat, lead: nat)
    requires read.oldNo + lag == meant.oldNo + lead && read.newNo + lag == meant.newNo + lead
    ensures ChangedLine(op, read) == ChangedLine(op, meant) <==> (IsChange(op) ==> lead == lag)
  {
  }

  lemma {:induction false} SameLength(ops: seq<Op>, section: string, o: nat, n: nat)
    requires ChangesArePlain(ops) && ExtrasAreUnmarked(ops, section)
    ensures |Changes(HunkLines(ops, section), Some(o), Some(n))| == |TrueLines(ops, o, n)|
  {
    MarksOfHunk(ops, section, o, n);
    NoExtraMarks(ops, section);
    MarksAreRecorded(HunkLines(ops, section), Some(o), Some(n));
  }

  /** With nothing marked left behind, the recorded numbers are true exactly when nothing shifts. */
  lemma {:induction false} NumbersAreTrueExactlyWhenNothingShifts(ops: seq<Op>, section: string, o: nat, n: nat)
    requires ChangesArePlain(ops) && ExtrasAreUnmarked(ops, section)
    ensures Changes(HunkLines(ops, section), Some(o), Some(n)) == TrueLines(ops, o, n) <==> NothingShifts(ops, section)
  {
    if ops == [] {
      NoMarks(Extras(section));
      MarksAreRecorded(Extras(section), Some(o), Some(n));
    } else {
      var (before, op) := (ops[..|ops| - 1], ops[|ops| - 1]);
      NumbersAreTrueExactlyWhenNothingShifts(before, section, o, n);
      SameLength(before, section, o, n);
      LastIsTrue(ops, section, o, n);
      LastLineIsTrue(before, op, section, o, n);
      NothingShiftsLast(ops, section);
    }
  }

  /** A hunk's changed lines are recorded truly exactly when its changed texts are plain and its other
      texts leave behind neither a marked line nor, before a change, a line of context. */
  lemma {:induction false} HunkIsTrueExactlyWhen(ops: seq<Op>, section: string, o: nat, n: nat)
    ensures Changes(HunkLines(ops, section), Some(o), Some(n)) == TrueLines(ops, o, n) <==> HunkReadsTruly(ops, section)
  {
    var lines := HunkLines(ops, section);
    HunkLinesHaveNoBreaks(ops, section);
    if Changes(lines, Some(o), Some(n)) == TrueLines(ops, o, n) {
      TrueMeansPlain(lines, ops, o, n);
    }
    if ChangesArePlain(ops) {
      MarksOfHunk(ops, section, o, n);
      MarksAreRecorded(lines, Some(o), Some(n));
      NoExtraMarks(ops, section);
      if ExtrasAreUnmarked(ops, section) {
        NumbersAreTrueExactlyWhenNothingShifts(ops, section, o, n);
      }
    }
  }

  // ----- headers -----------------------------------------------------------------------------

  function Headers(lines: seq<string>): nat
  {
    if lines == [] then 0 else (if IsHeader(lines[0]) then 1 else 0) + Headers(lines[1..])
  }

  lemma {:induction false} HeadersAppend(a: seq<string>, b: seq<string>)
    ensures Headers(a + b) == Headers(a) + Headers(b)
  {
    if a == [] {
      assert a + b == b;
    } else {
      assert (a + b)[1..] == a[1..] + b;
      HeadersAppend(a[1..], b);
    }
  }

  lemma {:induction false} HeadersAreNone(lines: seq<string>)
    ensures Headers(lines) == 0 <==> NoHeaders(lines)
  {
    if lines != [] {
      HeadersAreNone(lines[1..]);
      assert forall k :: 1 <= k < |lines| ==> lines[k] == lines[1..][k - 1];
    }
  }

  lemma {:induction false} RunOnCount(header: string, body: seq<string>, lines: seq<string>)
    ensures |RunOn(header, body, lines)| == 1 + Headers(lines)
    decreases |lines|
  {
    if lines != [] {
      if IsHeader(lines[0]) {
        RunOnCount(lines[0], [], lines[1..]);
      } else {
        RunOnCount(header, body + [lines[0]], lines[1..]);
      }
    }
  }

  /** There are as many hunks as header lines. */
  lemma {:induction false} SegmentsCount(lines: seq<string>)
    ensures |Segments(lines)| == Headers(lines)
  {
    if lines != [] {
      if IsHeader(lines[0]) {
        RunOnCount(lines[0], [], lines[1..]);
      } else {
        SegmentsCount(lines[1..]);
      }
    }
  }

  lemma {:induction false} OneChangedEach(segments: seq<RawHunk>)
    ensures |ChangedOf(UnitsOf(segments))| == |segments|
  {
    if segments != [] {
      OneChangedEach(segments[1..]);
      assert UnitsOf(segments)[1..] == UnitsOf(segments[1..]);
    }
  }

  lemma NoStrayHeadersLast(ops: seq<Op>, section: string)
    requires ops != []
    ensures NoStrayHeaders(ops, section) <==>
            NoStrayHeaders(ops[..|ops| - 1], section) && NoHeaders(Extras(TextOf(ops[|ops| - 1])))
  {
  }

  lemma {:induction false} OperationHeaders(lines: seq<string>, op: Op)
    ensures NoHeaders(lines + ReadAs(op)) <==> NoHeaders(lines) && NoHeaders(Extras(TextOf(op)))
  {
    RenderedKind(Shortened(op));
    JointHeaders(lines, ReadAs(op));
    JointHeaders([Render(Shortened(op))], Extras(TextOf(op)));
  }

  /** A hunk reads without a further header exactly when none of its texts leaves one behind. */
  lemma {:induction false} HunkHeaders(ops: seq<Op>, section: string)
    ensures NoHeaders(HunkLines(ops, section)) <==> NoStrayHeaders(ops, section)
  {
    if ops != [] {
      HunkHeaders(ops[..|ops| - 1], section);
      OperationHeaders(HunkLines(ops[..|ops| - 1], section), ops[|ops| - 1]);
      NoStrayHeadersLast(ops, section);
    }
  }

  lemma {:induction false} JointHeaders(a: seq<string>, b: seq<string>)
    ensures NoHeaders(a + b) <==> NoHeaders(a) && NoHeaders(b)
  {
    assert forall i :: 0 <= i < |a| ==> (a + b)[i] == a[i];
    assert forall i :: 0 <= i < |b| ==> (a + b)[|a| + i] == b[i];
  }

  // ----- a whole script ----------------------------------------------------------------------

  /** The section follows the rest of the header. */
  lemma {:induction false} HeaderWithSection(ops: seq<Op>, section: string, at: Place)
    ensures HunkHeader(ops, section, at) == HunkHeader(ops, "", at) + section
    ensures NoBreak(HunkHeader(ops, "", at))
  {
    var (o, n) := (|OldSide(ops)|, |NewSide(ops)|);
    var start := "@@ -" + RangeText(RangeStart(at.oldLines, o), RangeCount(o));
    var middle := " +" + RangeText(RangeStart(at.newLines, n), RangeCount(n));
    Associates(middle, " @@", section);
    Associates(start, middle + " @@", section);
    assert " @@" + "" == " @@";
    HeaderNoBreak(RangeStart(at.oldLines, o), RangeCount(o), RangeStart(at.newLines, n), RangeCount(n), "");
  }

  lemma {:induction false} HeaderReads(ops: seq<Op>, section: string, at: Place)
    ensures Pieces(HunkHeader(ops, section, at)) == [HunkHeader(ops, FirstPiece(section), at)] + Extras(section)
  {
    HeaderWithSection(ops, section, at);
    HeaderWithSection(ops, FirstPiece(section), at);
    PiecesOfPrefixed(HunkHeader(ops, "", at), section);
  }

  /** The lines the printed hunks of a script are read as. */
  function ReadHunks(script: seq<Segment>, at: Place): seq<string>
  {
    ReadLines(Flatten(PrintedHunks(script, at)))
  }

  lemma {:induction false} ReadLinesCons(line: string, more: seq<string>, rest: seq<string>)
    ensures ReadLines([line] + (more + rest)) == Pieces(line) + (ReadLines(more) + ReadLines(rest))
  {
    ReadLinesAppend(more, rest);
    assert ([line] + (more + rest))[1..] == more + rest;
  }

  lemma Regroup<T>(x: T, a: seq<T>, b: seq<T>, c: seq<T>)
    ensures ([x] + a) + (b + c) == [x] + ((a + b) + c)
  {
  }

  lemma {:induction false} ReadHunksCons(script: seq<Segment>, at: Place)
    requires script != [] && script[0].Hunk?
    ensures var (ops, section) := (script[0].ops, script[0].section);
            ReadHunks(script, at) ==
            [HunkHeader(ops, FirstPiece(section), at)]
            + (HunkLines(ops, section) + ReadHunks(script[1..], AfterSegment(at, script[0])))
  {
    var hunk := PrintedHunk(script[0].ops, script[0].section, at);
    var rest := PrintedHunks(script[1..], AfterSegment(at, script[0]));
    FlattenCons(hunk.header, hunk.body, rest);
    ReadLinesCons(hunk.header, hunk.body, Flatten(rest));
    HeaderReads(script[0].ops, script[0].section, at);
    HunkLinesAreRead(script[0].ops, script[0].section);
    Regroup(HunkHeader(script[0].ops, FirstPiece(script[0].section), at), Extras(script[0].section),
            ReadLines(hunk.body), ReadLines(Flatten(rest)));
  }

  lemma {:induction false} ReadHunksStart(script: seq<Segment>, at: Place)
    ensures ReadHunks(script, at) == [] || IsHeader(ReadHunks(script, at)[0])
    ensures Headers(ReadHunks(script, at)) >= |TrueHunks(script, at)|
  {
    if script != [] {
      ReadHunksStart(script[1..], AfterSegment(at, script[0]));
      if script[0].Hunk? {
        ReadHunksCons(script, at);
        HeaderIsHeader(script[0].ops, FirstPiece(script[0].section), at);
        HeadersAppend(HunkLines(script[0].ops, script[0].section), ReadHunks(script[1..], AfterSegment(at, script[0])));
      }
    }
  }

  /** A hunk with its header and whatever follows, read and compared with the truth. */
  lemma {:induction false} FirstHunkIsTrue(ops: seq<Op>, section: string, at: Place, rest: seq<string>,
                                           truth: seq<seq<DiffLine>>)
    requires rest == [] || IsHeader(rest[0])
    requires Headers(rest) >= |truth|
    ensures var lines := [HunkHeader(ops, FirstPiece(section), at)] + (HunkLines(ops, section) + rest);
            ChangedOf(UnitsOf(Segments(lines))) == [TrueHunk(ops, at)] + truth <==>
            && NoStrayHeaders(ops, section) && HunkReadsTruly(ops, section)
            && ChangedOf(UnitsOf(Segments(rest))) == truth
  {
    var (header, body) := (HunkHeader(ops, FirstPiece(section), at), HunkLines(ops, section));
    HeaderIsHeader(ops, FirstPiece(section), at);
    HunkHeaders(ops, section);
    if NoHeaders(body) {
      CutCons(header, body, rest);
      ChangedCons(header, body, Segments(rest));
      UnitIsTrue(ops, section, at);
      ConsEqual(UnitOf(header, body).changed, ChangedOf(UnitsOf(Segments(rest))), TrueHunk(ops, at), truth);
    } else {
      var lines := [header] + (body + rest);
      assert lines[1..] == body + rest;
      HeadersAppend(body, rest);
      HeadersAreNone(body);
      SegmentsCount(lines);
      OneChangedEach(Segments(lines));
    }
  }

  lemma {:induction false} UnitIsTrue(ops: seq<Op>, section: string, at: Place)
    ensures UnitOf(HunkHeader(ops, FirstPiece(section), at), HunkLines(ops, section)).changed == TrueHunk(ops, at) <==>
            HunkReadsTruly(ops, section)
  {
    var (o, n) := (RangeStart(at.oldLines, |OldSide(ops)|), RangeStart(at.newLines, |NewSide(ops)|));
    HeaderIsHeader(ops, FirstPiece(section), at);
    TrueHunkFromRangeStarts(ops, at);
    UnitRecords(HunkHeader(ops, FirstPiece(section), at), HunkLines(ops, section), o, n);
    HunkIsTrueExactlyWhen(ops, section, o, n);
  }

  lemma UnitRecords(header: string, body: seq<string>, o: nat, n: nat)
    requires ParseHeader(header) == Some((o, n))
    ensures UnitOf(header, body).changed == Changes(body, Some(o), Some(n))
  {
  }

  lemma {:induction false} ChangedCons(header: string, body: seq<string>, rest: seq<RawHunk>)
    ensures ChangedOf(UnitsOf([RawHunk(header, body)] + rest)) ==
            [UnitOf(header, body).changed] + ChangedOf(UnitsOf(rest))
  {
    assert ([RawHunk(header, body)] + rest)[1..] == rest;
    assert ([UnitOf(header, body)] + UnitsOf(rest))[1..] == UnitsOf(rest);
  }

  lemma {:induction false} ConsEqual<T>(a: T, x: seq<T>, b: T, y: seq<T>)
    ensures [a] + x == [b] + y <==> a == b && x == y
  {
    if [a] + x == [b] + y {
      assert ([a] + x)[0] == a && ([b] + y)[0] == b;
      assert ([a] + x)[1..] == x && ([b] + y)[1..] == y;
    }
  }

  lemma {:induction false} ScriptHead(script: seq<Segment>)
    requires script != []
    ensures ScriptReadsTruly(script) <==>
            && (script[0].Hunk? ==> NoStrayHeaders(script[0].ops, script[0].section)
                                    && HunkReadsTruly(script[0].ops, script[0].section))
            && ScriptReadsTruly(script[1..])
  {
    var rest := script[1..];
    assert forall i :: 0 <= i < |rest| ==> rest[i] == script[i + 1];
    assert forall i :: 1 <= i < |script| ==> script[i] == rest[i - 1];
  }

  lemma {:induction false} HunksAreTrueExactlyWhen(script: seq<Segment>, at: Place)
    ensures ChangedOf(UnitsOf(Segments(ReadHunks(script, at)))) == TrueHunks(script, at) <==> ScriptReadsTruly(script)
  {
    if script != [] {
      var next := AfterSegment(at, script[0]);
      ScriptHead(script);
      HunksAreTrueExactlyWhen(script[1..], next);
      if script[0].Hunk? {
        ReadHunksCons(script, at);
        ReadHunksStart(script[1..], next);
        FirstHunkIsTrue(script[0].ops, script[0].section, at,
                        ReadHunks(script[1..], next), TrueHunks(script[1..], next));
      }
    }
  }

  // ----- a whole patch -----------------------------------------------------------------------

  lemma {:induction false} BlankRecordsNothing(lines: seq<string>, oldNo: Option<nat>, newNo: Option<nat>)
    ensures Changes(lines + [""], oldNo, newNo) == Changes(lines, oldNo, newNo)
  {
    if lines == [] {
      assert [""][1..] == [];
    } else {
      assert (lines + [""])[1..] == lines[1..] + [""];
      BlankRecordsNothing(lines[1..], NextOld(lines[0], oldNo), NextNew(lines[0], newNo));
    }
  }

  lemma {:induction false} BlankEndsRun(header: string, body: seq<string>, lines: seq<string>)
    ensures ChangedOf(UnitsOf(RunOn(header, body, lines + [""]))) == ChangedOf(UnitsOf(RunOn(header, body, lines)))
    decreases |lines|
  {
    if lines == [] {
      assert (lines + [""])[1..] == [];
      assert RunOn(header, body, lines + [""]) == [RawHunk(header, body + [""])] + [];
      ChangedCons(header, body + [""], []);
      ChangedCons(header, body, []);
      assert [RawHunk(header, body)] + [] == [RawHunk(header, body)];
      BlankRecordsNothing(body, Starts(header).0, Starts(header).1);
    } else {
      assert (lines + [""])[0] == lines[0] && (lines + [""])[1..] == lines[1..] + [""];
      if IsHeader(lines[0]) {
        BlankEndsRun(lines[0], [], lines[1..]);
        ChangedCons(header, body, RunOn(lines[0], [], lines[1..]));
        ChangedCons(header, body, RunOn(lines[0], [], lines[1..] + [""]));
      } else {
        BlankEndsRun(header, body + [lines[0]], lines[1..]);
      }
    }
  }

  lemma {:induction false} BlankEndChangesNothing(lines: seq<string>)
    ensures ChangedOf(UnitsOf(Segments(lines + [""]))) == ChangedOf(UnitsOf(Segments(lines)))
  {
    if lines == [] {
      assert [""][1..] == [] && lines + [""] == [""];
    } else {
      assert (lines + [""])[0] == lines[0] && (lines + [""])[1..] == lines[1..] + [""];
      if IsHeader(lines[0]) {
        BlankEndsRun(lines[0], [], lines[1..]);
      } else {
        BlankEndChangesNothing(lines[1..]);
      }
    }
  }

  /** A printed patch is read as the pieces of its lines. */
  lemma {:induction false} PatchReads(preamble: seq<string>, script: seq<Segment>, ended: bool)
    ensures ChangedOf(WholeUnits(PrintPatch(preamble, script, ended))) ==
            ChangedOf(UnitsOf(Segments(ReadLines(preamble) + ReadHunks(script, START))))
  {
    var printed := Flatten(PrintedHunks(script, START));
    var tail := WrittenLinesRead(preamble + printed, ended);
    ReadLinesAppend(preamble, printed);
    var lines := SplitLines(PrintPatch(preamble, script, ended));
    BlankEndChangesNothing(lines);
    assert lines + [] == lines;
  }

  /** Print the diff of any two files, after any lines that name them, and cut the text into units: the
      lines recorded are the changed lines with their true file positions if and only if

      - no changed text holds a line break, no added text starts with "++", no deleted one with "--";
      - no other text leaves behind, after a line break, what reads as a changed line or a hunk header;
      - and before each change as many lines are left behind that read as context as empty lines are
        printed bare. */
  lemma {:induction false} PatchLineNumbersAreTrueExactlyWhen(preamble: seq<string>, script: seq<Segment>, ended: bool)
    ensures ChangedOf(WholeUnits(PrintPatch(preamble, script, ended))) == TrueHunks(script, START) <==>
            NoHeaders(ReadLines(preamble)) && ScriptReadsTruly(script)
  {
    var (before, after) := (ReadLines(preamble), ReadHunks(script, START));
    PatchReads(preamble, script, ended);
    HunksAreTrueExactlyWhen(script, START);
    if NoHeaders(before) {
      SegmentsSkip(before, after);
    } else {
      HeadersAppend(before, after);
      HeadersAreNone(before);
      ReadHunksStart(script, START);
      SegmentsCount(before + after);
      OneChangedEach(Segments(before + after));
    }
  }

  predicate CleanScript(script: seq<Segment>)
  {
    forall i :: 0 <= i < |script| && script[i].Hunk? ==> Clean(script[i].ops)
  }

  predicate OpsNoBreak(ops: seq<Op>)
  {
    forall i :: 0 <= i < |ops| ==> NoBreak(TextOf(ops[i]))
  }

  /** No text of the script's hunks holds a line break. */
  predicate ScriptNoBreak(script: seq<Segment>)
  {
    forall i :: 0 <= i < |script| && script[i].Hunk? ==> NoBreak(script[i].section) && OpsNoBreak(script[i].ops)
  }

  /** Without line breaks in its texts a script is read truly exactly when no text looks like a file
      header and no bare line stands before a change of its hunk. */
  lemma {:induction false} UnbrokenReadsTrulyExactlyWhenClean(script: seq<Segment>)
    requires ScriptNoBreak(script)
    ensures ScriptReadsTruly(script) <==> CleanScript(script)
  {
    forall i | 0 <= i < |script| && script[i].Hunk?
      ensures NoStrayHeaders(script[i].ops, script[i].section)
      ensures HunkReadsTruly(script[i].ops, script[i].section) <==> Clean(script[i].ops)
    {
      UnbrokenHunk(script[i].ops, script[i].section);
    }
  }

  lemma {:induction false} UnbrokenHunk(ops: seq<Op>, section: string)
    requires NoBreak(section) && OpsNoBreak(ops)
    ensures NoStrayHeaders(ops, section) && (HunkReadsTruly(ops, section) <==> Clean(ops))
  {
    PiecesOfUnbroken(section);
    forall i | 0 <= i < |ops|
      ensures Extras(TextOf(ops[i])) == []
    {
      PiecesOfUnbroken(TextOf(ops[i]));
    }
    forall j | 0 <= j < |ops|
      ensures Balanced(ops[..j], section) <==> NoneBare(ops[..j])
    {
      UnbrokenLeavesNothing(ops[..j], section);
      NoBares(ops[..j]);
    }
    UnbrokenArePlain(ops);
  }

  lemma UnbrokenArePlain(ops: seq<Op>)
    requires OpsNoBreak(ops)
    ensures ChangesArePlain(ops) <==> NoneLooksLikeFileHeader(ops)
  {
  }

  lemma {:induction false} UnbrokenLeavesNothing(ops: seq<Op>, section: string)
    requires NoBreak(section) && OpsNoBreak(ops)
    ensures ExtraContexts(Extras(section), ops) == 0
  {
    PiecesOfUnbroken(section);
    if ops != [] {
      UnbrokenLeavesNothing(ops[..|ops| - 1], section);
      PiecesOfUnbroken(TextOf(ops[|ops| - 1]));
    }
  }

  /** The hunks cut out of printed lines without breaks are the hunks printed. */
  lemma {:induction false} UnbrokenHunksAreCutBack(script: seq<Segment>, at: Place)
    requires ScriptNoBreak(script)
    ensures ReadHunks(script, at) == Flatten(PrintedHunks(script, at))
    ensures Segments(ReadHunks(script, at)) == PrintedHunks(script, at)
  {
    if script != [] {
      var next := AfterSegment(at, script[0]);
      assert forall i :: 0 <= i < |script[1..]| ==> script[1..][i] == script[i + 1];
      UnbrokenHunksAreCutBack(script[1..], next);
      if script[0].Hunk? {
        ReadHunksCons(script, at);
        ReadHunksStart(script[1..], next);
        UnbrokenHunkIsCutBack(script[0].ops, script[0].section, at,
                              PrintedHunks(script[1..], next), ReadHunks(script[1..], next));
      }
    }
  }

  lemma {:induction false} UnbrokenHunkIsCutBack(ops: seq<Op>, section: string, at: Place, hunks: seq<RawHunk>,
                                                 rest: seq<string>)
    requires NoBreak(section) && OpsNoBreak(ops)
    requires rest == Flatten(hunks) && Segments(rest) == hunks
    requires rest == [] || IsHeader(rest[0])
    ensures var lines := [HunkHeader(ops, FirstPiece(section), at)] + (HunkLines(ops, section) + rest);
            && lines == Flatten([PrintedHunk(ops, section, at)] + hunks)
            && Segments(lines) == [PrintedHunk(ops, section, at)] + hunks
  {
    var hunk := PrintedHunk(ops, section, at);
    PiecesOfUnbroken(section);
    RenderedUnbroken(ops);
    HunkLinesAreRead(ops, section);
    assert [] + hunk.body == hunk.body;
    HeaderIsHeader(ops, section, at);
    RenderedHasNoHeaders(ops);
    FlattenCons(hunk.header, hunk.body, hunks);
    CutCons(hunk.header, hunk.body, rest);
  }

  lemma {:induction false} RenderedUnbroken(ops: seq<Op>)
    requires OpsNoBreak(ops)
    ensures ReadLines(RenderAll(ops)) == RenderAll(ops)
  {
    if ops != [] {
      RenderedUnbroken(ops[1..]);
      RenderedReads(ops[0]);
    }
  }

  lemma {:induction false} SegmentsHaveNoBreaks(lines: seq<string>)
    requires NoBreaks(lines)
    ensures NoBreaks(Flatten(Segments(lines)))
  {
    SegmentsConserve(lines);
  }

  /** Printed lines without breaks come from texts without breaks. */
  lemma {:induction false} PrintedUnbroken(script: seq<Segment>, at: Place)
    requires NoBreaks(Flatten(PrintedHunks(script, at)))
    ensures ScriptNoBreak(script)
  {
    if script != [] {
      var rest := PrintedHunks(script[1..], AfterSegment(at, script[0]));
      if script[0].Hunk? {
        var hunk := PrintedHunk(script[0].ops, script[0].section, at);
        FlattenCons(hunk.header, hunk.body, rest);
        PartsUnbroken(hunk.header, hunk.body, Flatten(rest));
        HeaderWithSection(script[0].ops, script[0].section, at);
        TailUnbroken(HunkHeader(script[0].ops, "", at), script[0].section);
        RenderedTexts(script[0].ops);
      }
      PrintedUnbroken(script[1..], AfterSegment(at, script[0]));
      assert forall i :: 1 <= i < |script| ==> script[i] == script[1..][i - 1];
    }
  }

  lemma {:induction false} PartsUnbroken(line: string, more: seq<string>, rest: seq<string>)
    requires NoBreaks([line] + (more + rest))
    ensures NoBreak(line) && NoBreaks(more) && NoBreaks(rest)
  {
    var all := [line] + (more + rest);
    assert all[0] == line;
    assert forall i :: 0 <= i < |more| ==> all[1 + i] == more[i];
    assert forall i :: 0 <= i < |rest| ==> all[1 + |more| + i] == rest[i];
  }

  lemma {:induction false} TailUnbroken(a: string, b: string)
    requires NoBreak(a + b)
    ensures NoBreak(b)
  {
    assert forall i :: 0 <= i < |b| ==> (a + b)[|a| + i] == b[i];
  }

  lemma {:induction false} RenderedTexts(ops: seq<Op>)
    requires NoBreaks(RenderAll(ops))
    ensures OpsNoBreak(ops)
  {
    if ops != [] {
      assert RenderAll(ops)[0] == Render(ops[0]) && RenderAll(ops)[1..] == RenderAll(ops[1..]);
      TailUnbroken(Sign(ops[0]), TextOf(ops[0]));
      RenderedTexts(ops[1..]);
    }
  }

  /** Cutting a printed patch gives back exactly its hunks, if and only if no text of them holds a line
      break, the lines before them hold no header, and the last line is ended or is not a bare one. */
  lemma {:induction false} PrintedPatchIsCutBackExactlyWhenUnbroken(preamble: seq<string>, script: seq<Segment>,
                                                                    ended: bool)
    ensures Segments(SplitLines(PrintPatch(preamble, script, ended))) == PrintedHunks(script, START) <==>
            && NoHeaders(ReadLines(preamble)) && ScriptNoBreak(script)
            && (ended || !EndsBlank(Flatten(PrintedHunks(script, START))))
  {
    var hunks := PrintedHunks(script, START);
    var lines := SplitLines(PrintPatch(preamble, script, ended));
    var (before, after) := (ReadLines(preamble), ReadHunks(script, START));
    var tail := WrittenLinesRead(preamble + Flatten(hunks), ended);
    ReadLinesAppend(preamble, Flatten(hunks));
    assert lines + tail == before + after;
    if Segments(lines) == hunks {
      SplitLinesHaveNoBreaks(PrintPatch(preamble, script, ended));
      SegmentsHaveNoBreaks(lines);
      PrintedUnbroken(script, START);
    }
    if ScriptNoBreak(script) {
      UnbrokenHunksAreCutBack(script, START);
      ReadHunksStart(script, START);
      TailOfPrinted(lines, tail, before, after);
      UnbrokenIsCutBack(lines, tail, before, after, hunks);
    }
  }

  /** The lost tail is the last line read, when there is one. */
  lemma {:induction false} TailOfPrinted(lines: seq<string>, tail: seq<string>, before: seq<string>, after: seq<string>)
    requires lines + tail == before + after
    ensures after != [] && tail == [""] ==> EndsBlank(after)
  {
    var whole := before + after;
    assert after != [] ==> whole[|whole| - 1] == after[|after| - 1];
    assert tail == [""] ==> whole[|whole| - 1] == "";
  }

  lemma {:induction false} UnbrokenIsCutBack(lines: seq<string>, tail: seq<string>, before: seq<string>,
                                             after: seq<string>, hunks: seq<RawHunk>)
    requires lines + tail == before + after && (tail == [] || tail == [""])
    requires Segments(after) == hunks && (after == [] || IsHeader(after[0]))
    ensures Segments(lines) == hunks <==> NoHeaders(before) && (tail == [] || after == [])
  {
    HeadersAppend(lines, tail);
    HeadersAppend(before, after);
    assert tail != [] ==> tail[1..] == [];
    SegmentsCount(lines);
    SegmentsCount(after);
    HeadersAreNone(before);
    if NoHeaders(before) {
      if tail == [] || after == [] {
        assert lines + [] == lines && before + [] == before;
        WithoutTail(lines, tail, before, after);
      } else {
        ShortOfTail(lines, before, after);
      }
    }
  }

  lemma {:induction false} WithoutTail(lines: seq<string>, tail: seq<string>, before: seq<string>, after: seq<string>)
    requires lines + tail == before + after && NoHeaders(before) && (tail == [] || after == [])
    ensures Segments(lines) == Segments(after)
  {
    if after == [] {
      assert before + after == before;
      JointHeaders(lines, tail);
      SegmentsSkip(lines, []);
      assert lines + [] == lines;
    } else {
      assert lines + [] == lines;
      SegmentsSkip(before, after);
    }
  }

  lemma {:induction false} ShortOfTail(lines: seq<string>, before: seq<string>, after: seq<string>)
    requires lines + [""] == before + after && NoHeaders(before) && after != [] && IsHeader(after[0])
    ensures Segments(lines) != Segments(after)
  {
    var short := after[..|after| - 1];
    assert (before + after)[|before + after| - 1] == after[|after| - 1] == "";
    assert |after| > 1;
    assert lines == (lines + [""])[..|lines|] == before + short;
    SegmentsSkip(before, short);
    SegmentsConserve(short);
    SegmentsConserve(after);
    assert HeaderAt(short) == 0 && HeaderAt(after) == 0;
    assert short[0..] == short && after[0..] == after;
  }

  // ----- end to end --------------------------------------------------------------------------

  /** End to end: of a patch that is read truly, the lines of all review units, split or not, are the
      changed lines of the diff in order, each with the number it has in its file. */
  lemma {:induction false} ReviewedLinesAreTheChangedLines(preamble: seq<string>, script: seq<Segment>, ended: bool)
    requires NoHeaders(ReadLines(preamble)) && ScriptReadsTruly(script)
    ensures AllChanged(ReviewUnits(PrintPatch(preamble, script, ended))) == Concat(TrueHunks(script, START))
    ensures AllHunksName(TrueHunks(script, START), OldFile(script), NewFile(script))
  {
    var patch := PrintPatch(preamble, script, ended);
    PatchLineNumbersAreTrueExactlyWhen(preamble, script, ended);
    SplittingConserves(Segments(SplitLines(patch)));
    TrueNumbersNameFileLines(script);
    if WholeUnits(patch) == [] {
      assert ReviewUnits(patch)[1..] == [];
    }
  }

  // ----- a text with a form feed -------------------------------------------------------------

  const FORM_FEED: string := "\U{c}"

  /** An added line with a form feed before a blank. */
  function Fed(): Op
  {
    Add("a" + (FORM_FEED + " b"))
  }

  /** That line, and another added after it. */
  function FedScript(): seq<Segment>
  {
    [Hunk([Fed(), Add("c")], "")]
  }

  lemma {:induction false} FormFeedPieces()
    ensures FirstPiece(Fed().text) == "a" && Extras(Fed().text) == [" b"]
    ensures !NoBreak(Fed().text)
  {
    SplitAtBreak("a", FORM_FEED, " b" + "\n");
    Associates(FORM_FEED, " b", "\n");
    Associates("a", FORM_FEED + " b", "\n");
    PiecesOfUnbroken(" b");
    assert Fed().text[1] == '\U{c}';
  }

  lemma {:induction false} HunkLinesTwo(a: Op, b: Op)
    ensures HunkLines([a, b], "") == ReadAs(a) + ReadAs(b)
  {
    PiecesOfUnbroken("");
    HunkLinesPush([], a, "");
    HunkLinesPush([a], b, "");
    assert [] + [a] == [a] && [a] + [b] == [a, b];
    assert [] + ReadAs(a) == ReadAs(a);
  }

  lemma {:induction false} FedLines()
    ensures HunkLines([Fed(), Add("c")], "") == ["+a", " b", "+c"]
  {
    FormFeedPieces();
    PiecesOfUnbroken("c");
    HunkLinesTwo(Fed(), Add("c"));
    assert Render(Add("a")) == "+a" && Render(Add("c")) == "+c";
    assert ReadAs(Fed()) == ["+a"] + [" b"];
    assert ReadAs(Add("c")) == ["+c"] + [];
  }

  lemma {:induction false} FedRecord()
    ensures Changes(["+a", " b", "+c"], Some(0), Some(1)) ==
            [DiffLine('+', "a", None, Some(1)), DiffLine('+', "c", None, Some(3))]
  {
    var lines := ["+a", " b", "+c"];
    assert lines[1..] == [" b", "+c"] && [" b", "+c"][1..] == ["+c"] && ["+c"][1..] == [];
    assert "+a"[1..] == "a" && "+c"[1..] == "c";
    assert Changes(["+c"], Some(1), Some(3)) == [DiffLine('+', "c", None, Some(3))];
    assert Changes([" b", "+c"], Some(0), Some(2)) == Changes(["+c"], Some(1), Some(3));
  }

  lemma {:induction false} FedIsCleanButNotTruly()
    ensures CleanScript(FedScript()) && !ScriptReadsTruly(FedScript())
  {
    FormFeedPieces();
    var script := FedScript();
    var ops := script[0].ops;
    assert Fed().text[0] == 'a' && Add("c").text[0] == 'c';
    assert ops[..0] == [] && ops[..1] == [ops[0]];
    assert IsChange(ops[0]) && !Plain(ops[0]);
    assert !HunkReadsTruly(script[0].ops, script[0].section);
  }

  /** A form feed is a break too, in a text that looks like no file header: the added line is cut short,
      and its rest, read as context, moves the next added line from 2 to 3. */
  lemma {:induction false} FormFeedShiftsTheNextLine(ended: bool)
    ensures CleanScript(FedScript())
    ensures TrueLines([Fed(), Add("c")], 1, 1) ==
            [DiffLine('+', Fed().text, None, Some(1)), DiffLine('+', "c", None, Some(2))]
    ensures Changes(HunkLines([Fed(), Add("c")], ""), Some(0), Some(1)) ==
            [DiffLine('+', "a", None, Some(1)), DiffLine('+', "c", None, Some(3))]
    ensures ChangedOf(WholeUnits(PrintPatch([], FedScript(), ended))) != TrueHunks(FedScript(), START)
  {
    TwoAdded(Fed().text, "c", 1, 1);
    FedLines();
    FedRecord();
    FedIsCleanButNotTruly();
    UntrulyReadIsUntrue([], FedScript(), ended);
  }

  lemma {:induction false} UntrulyReadIsUntrue(preamble: seq<string>, script: seq<Segment>, ended: bool)
    requires !ScriptReadsTruly(script)
    ensures ChangedOf(WholeUnits(PrintPatch(preamble, script, ended))) != TrueHunks(script, START)
  {
    PatchLineNumbersAreTrueExactlyWhen(preamble, script, ended);
  }

  // ----- a bare line -------------------------------------------------------------------------

  lemma {:induction false} BareIsNotClean()
    ensures !Clean(BareThenAdded()) && OpsNoBreak(BareThenAdded())
  {
    var ops := BareThenAdded();
    assert IsChange(ops[1]) && ops[..1][0].Bare?;
    assert TextOf(ops[1]) == "x" && !IsBreak('x');
  }

  function BareScript(): seq<Segment>
  {
    [Hunk(BareThenAdded(), "")]
  }

  /** A diff that prints a kept empty line bare before an added one is not recorded truly. */
  lemma {:induction false} BareLineSpoilsThePatch(ended: bool)
    ensures ChangedOf(WholeUnits(PrintPatch([], BareScript(), ended))) != TrueHunks(BareScript(), START)
  {
    BareIsNotClean();
    UnbrokenReadsTrulyExactlyWhenClean(BareScript());
    assert !Clean(BareScript()[0].ops);
    UntrulyReadIsUntrue([], BareScript(), ended);
  }

  lemma {:induction false} BalanceOfTwo(a: Op, b: Op)
    ensures ExtraContexts([], [a, b]) == Contexts(Extras(TextOf(a))) + Contexts(Extras(TextOf(b)))
    ensures Bares([a, b]) == (if a.Bare? then 1 else 0) + (if b.Bare? then 1 else 0)
  {
    assert [a, b][..1] == [a] && [a][..0] == [];
    assert ExtraContexts([], [a]) == 0 + Contexts(Extras(TextOf(a)));
    assert Bares([a]) == 0 + if a.Bare? then 1 else 0;
  }

  /** A kept line with a form feed, a bare line, and a line added after them. */
  function MadeUp(): seq<Op>
  {
    [Keep(Fed().text), Bare, Add("x")]
  }

  lemma {:induction false} LeftoverIsContext()
    ensures Contexts([" b"]) == 1 && NoneMarked([" b"])
  {
    assert [" b"][1..] == [];
  }

  lemma ThreeUnmarked(a: Op, b: Op, c: Op)
    requires NoneMarked(Extras("")) && NoneMarked(Extras(TextOf(a))) && NoneMarked(Extras(TextOf(b)))
    requires NoneMarked(Extras(TextOf(c)))
    ensures ExtrasAreUnmarked([a, b, c], "")
  {
  }

  lemma ThreePlain(a: Op, b: Op, c: Op)
    requires (IsChange(a) ==> Plain(a)) && (IsChange(b) ==> Plain(b)) && (IsChange(c) ==> Plain(c))
    ensures ChangesArePlain([a, b, c])
  {
  }

  lemma {:induction false} MadeUpExtras()
    ensures ExtrasAreUnmarked(MadeUp(), "") && ChangesArePlain(MadeUp())
    ensures Contexts(Extras(Fed().text)) == 1 && Contexts(Extras("")) == 0
  {
    FormFeedPieces();
    PiecesOfUnbroken("");
    PiecesOfUnbroken("x");
    LeftoverIsContext();
    assert Plain(Add("x"));
    ThreeUnmarked(MadeUp()[0], Bare, Add("x"));
    ThreePlain(MadeUp()[0], Bare, Add("x"));
  }

  /** The line of context the first leaves behind makes up for the bare line. */
  lemma {:induction false} LeftoverMakesUpForBareLine()
    ensures HunkReadsTruly(MadeUp(), "")
  {
    MadeUpExtras();
    BalanceOfTwo(MadeUp()[0], Bare);
    assert MadeUp()[..2] == [MadeUp()[0], Bare];
    assert Balanced(MadeUp()[..2], "");
  }
}
