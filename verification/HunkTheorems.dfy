/** What the cut-up diff says is true of the files: line numbers, conservation, splitting. */
module HunkTheorems {
  import opened Text
  import opened Hunks

  // ----- segmentation conserves --------------------------------------------------------------

  function Flatten(segments: seq<RawHunk>): seq<string>
  {
    if segments == [] then [] else [segments[0].header] + segments[0].body + Flatten(segments[1..])
  }

  lemma {:induction false} RunOnConserves(header: string, body: seq<string>, lines: seq<string>)
    ensures Flatten(RunOn(header, body, lines)) == [header] + body + lines
    decreases |lines|
  {
    if lines != [] {
      if IsHeader(lines[0]) {
        RunOnConserves(lines[0], [], lines[1..]);
        assert RunOn(header, body, lines)[1..] == RunOn(lines[0], [], lines[1..]);
        assert [lines[0]] + [] + lines[1..] == lines;
      } else {
        RunOnConserves(header, body + [lines[0]], lines[1..]);
        assert [header] + (body + [lines[0]]) + lines[1..] == [header] + body + lines;
      }
    }
  }

  lemma {:induction false} SegmentsConserve(lines: seq<string>)
    ensures Flatten(Segments(lines)) == lines[HeaderAt(lines)..]
  {
    if lines != [] {
      if IsHeader(lines[0]) {
        RunOnConserves(lines[0], [], lines[1..]);
        assert [lines[0]] + [] + lines[1..] == lines;
      } else {
        SegmentsConserve(lines[1..]);
      }
    }
  }

  // ----- cutting at headers ------------------------------------------------------------------

  predicate NoHeaders(lines: seq<string>)
  {
    forall i :: 0 <= i < |lines| ==> !IsHeader(lines[i])
  }

  lemma {:induction false} SegmentsSkip(pre: seq<string>, lines: seq<string>)
    requires NoHeaders(pre)
    ensures Segments(pre + lines) == Segments(lines)
  {
    if pre == [] {
      assert pre + lines == lines;
    } else {
      assert (pre + lines)[1..] == pre[1..] + lines;
      SegmentsSkip(pre[1..], lines);
    }
  }

  lemma {:induction false} RunOnTakes(header: string, body: seq<string>, lines: seq<string>, rest: seq<string>)
    requires NoHeaders(lines) && (rest == [] || IsHeader(rest[0]))
    ensures RunOn(header, body, lines + rest) == [RawHunk(header, body + lines)] + Segments(rest)
    decreases |lines|
  {
    if lines == [] {
      assert lines + rest == rest && body + lines == body;
    } else {
      assert (lines + rest)[1..] == lines[1..] + rest;
      RunOnTakes(header, body + [lines[0]], lines[1..], rest);
      assert body + [lines[0]] + lines[1..] == body + lines;
    }
  }

  lemma {:induction false} FlattenCons(header: string, body: seq<string>, rest: seq<RawHunk>)
    ensures Flatten([RawHunk(header, body)] + rest) == [header] + (body + Flatten(rest))
  {
    assert ([RawHunk(header, body)] + rest)[1..] == rest;
    assert [header] + body + Flatten(rest) == [header] + (body + Flatten(rest));
  }

  lemma {:induction false} CutCons(header: string, body: seq<string>, rest: seq<string>)
    requires IsHeader(header) && NoHeaders(body) && (rest == [] || IsHeader(rest[0]))
    ensures Segments([header] + (body + rest)) == [RawHunk(header, body)] + Segments(rest)
  {
    var all := [header] + (body + rest);
    assert all[0] == header && all[1..] == body + rest;
    RunOnTakes(header, [], body, rest);
    assert [] + body == body;
  }

  // ----- units conserve the patch ------------------------------------------------------------

  function Patches(units: seq<ReviewUnit>): seq<string>
  {
    if units == [] then [] else [units[0].patch] + Patches(units[1..])
  }

  lemma {:induction false} JoinAppend(a: seq<string>, b: seq<string>)
    requires a != [] && b != []
    ensures Join(a + b) == Join(a) + "\n" + Join(b)
  {
    if |a| == 1 {
      assert (a + b)[1..] == b;
    } else {
      assert (a + b)[1..] == a[1..] + b;
      JoinAppend(a[1..], b);
    }
  }

  lemma {:induction false} JoinPatches(segments: seq<RawHunk>)
    ensures Join(Patches(UnitsOf(segments))) == Join(Flatten(segments))
  {
    if segments != [] {
      var h, body, rest := segments[0].header, segments[0].body, segments[1..];
      JoinPatches(rest);
      assert UnitsOf(segments)[1..] == UnitsOf(rest);
      if rest == [] {
        assert [h] + body + [] == [h] + body;
        assert Patches(UnitsOf(segments)) == [Join([h] + body)];
      } else {
        JoinAppend([h] + body, Flatten(rest));
      }
    }
  }

  /** Before splitting, the units' patches put together are the patch from its first header on. */
  lemma {:induction false} UnitsConserveThePatch(patch: string)
    ensures var lines := SplitLines(patch);
            Join(Patches(WholeUnits(patch))) == Join(lines[HeaderAt(lines)..])
  {
    SegmentsConserve(SplitLines(patch));
    JoinPatches(Segments(SplitLines(patch)));
  }

  // ----- no hunk of a patch holds a break ----------------------------------------------------

  ghost predicate AllProper(segments: seq<RawHunk>)
  {
    forall i :: 0 <= i < |segments| ==>
      IsHeader(segments[i].header) && NoBreak(segments[i].header) && NoBreaks(segments[i].body)
  }

  lemma {:induction false} RunOnIsProper(header: string, body: seq<string>, lines: seq<string>)
    requires IsHeader(header) && NoBreak(header) && NoBreaks(body) && NoBreaks(lines)
    ensures AllProper(RunOn(header, body, lines))
    decreases |lines|
  {
    if lines != [] {
      if IsHeader(lines[0]) {
        RunOnIsProper(lines[0], [], lines[1..]);
      } else {
        RunOnIsProper(header, body + [lines[0]], lines[1..]);
      }
    }
  }

  lemma {:induction false} SegmentsAreProper(lines: seq<string>)
    requires NoBreaks(lines)
    ensures AllProper(Segments(lines))
  {
    if lines != [] {
      if IsHeader(lines[0]) {
        RunOnIsProper(lines[0], [], lines[1..]);
      } else {
        SegmentsAreProper(lines[1..]);
      }
    }
  }

  // ----- headers that are printed ------------------------------------------------------------

  lemma {:induction false} SkipCountOf(count: Option<nat>, rest: string)
    requires rest != [] && rest[0] == ' '
    ensures SkipCount(CountText(count) + rest) == rest
  {
    var tail := CountText(count) + rest;
    if count.Some? {
      assert tail == [','] + (Decimal(count.value) + rest);
      assert tail[1..] == Decimal(count.value) + rest;
      DigitRunOf(Decimal(count.value), rest);
      assert tail[1 + |Decimal(count.value)|..] == rest;
    } else {
      assert tail == rest;
    }
  }

  lemma {:induction false} ReadRangeOf(marker: string, start: nat, count: Option<nat>, rest: string)
    requires rest != [] && rest[0] == ' '
    ensures ReadRange(marker + RangeText(start, count) + rest, marker) == Some((start, rest))
  {
    var tail := CountText(count) + rest;
    assert tail[0] == if count.Some? then ',' else ' ';
    var s := marker + RangeText(start, count) + rest;
    assert s == marker + (Decimal(start) + tail);
    AfterOf(marker, Decimal(start) + tail);
    ReadNumberOf(start, tail);
    SkipCountOf(count, rest);
  }

  /** A printed header is read back. */
  lemma {:induction false} ParseHeaderOf(oldStart: nat, oldCount: Option<nat>, newStart: nat, newCount: Option<nat>,
                                         section: string)
    ensures ParseHeader(HeaderText(oldStart, oldCount, newStart, newCount, section)) == Some((oldStart, newStart))
    ensures IsHeader(HeaderText(oldStart, oldCount, newStart, newCount, section))
  {
    var (text, end) :=
      (HeaderText(oldStart, oldCount, newStart, newCount, section), HeaderEnd(newStart, newCount, section));
    HeaderStartOf(oldStart, oldCount, end, text);
    HeaderEndOf(newStart, newCount, section);
    ParsedInTwo(text, oldStart, end, newStart, " @@" + section);
  }

  lemma {:induction false} HeaderStartOf(start: nat, count: Option<nat>, end: string, text: string)
    requires end != [] && end[0] == ' ' && text == "@@ -" + RangeText(start, count) + end
    ensures ReadRange(text, "@@ -") == Some((start, end)) && IsHeader(text)
  {
    ReadRangeOf("@@ -", start, count, end);
  }

  lemma {:induction false} HeaderEndOf(start: nat, count: Option<nat>, section: string)
    ensures ReadRange(HeaderEnd(start, count, section), " +") == Some((start, " @@" + section))
    ensures After(" @@" + section, " @@").Some?
  {
    ReadRangeOf(" +", start, count, " @@" + section);
    AfterOf(" @@", section);
  }

  lemma ParsedInTwo(text: string, oldStart: nat, end: string, newStart: nat, rest: string)
    requires ReadRange(text, "@@ -") == Some((oldStart, end)) && ReadRange(end, " +") == Some((newStart, rest))
    requires After(rest, " @@").Some?
    ensures ParseHeader(text) == Some((oldStart, newStart))
  {
  }

  lemma DigitsNoBreak(s: string)
    requires AllDigits(s)
    ensures NoBreak(s)
  {
  }

  lemma {:induction false} RangeNoBreak(start: nat, count: Option<nat>)
    ensures NoBreak(RangeText(start, count))
  {
    DigitsNoBreak(Decimal(start));
    if count.Some? {
      DigitsNoBreak(Decimal(count.value));
    }
  }

  lemma {:induction false} HeaderNoBreak(oldStart: nat, oldCount: Option<nat>, newStart: nat, newCount: Option<nat>,
                                         section: string)
    requires NoBreak(section)
    ensures NoBreak(HeaderText(oldStart, oldCount, newStart, newCount, section))
  {
    RangeNoBreak(oldStart, oldCount);
    RangeNoBreak(newStart, newCount);
    assert NoBreak("@@ -") && NoBreak(" +") && NoBreak(" @@");
    assert NoBreak(HeaderEnd(newStart, newCount, section));
  }

  // ----- a diff and the two files it relates -------------------------------------------------

  /** One line of a hunk body, in the unified format of POSIX diff, which also lets an empty line that
      is kept be printed bare. */
  datatype Op =
    | Keep(text: string)
    | Bare
    | Add(text: string)
    | Del(text: string)
    | NoNewline(text: string)

  function TextOf(op: Op): string
  {
    match op
    case Keep(t) => t
    case Bare => ""
    case Add(t) => t
    case Del(t) => t
    case NoNewline(t) => t
  }

  predicate IsChange(op: Op)
  {
    op.Add? || op.Del?
  }

  predicate IsKept(op: Op)
  {
    op.Keep? || op.Bare?
  }

  function Sign(op: Op): string
  {
    match op
    case Keep(_) => " "
    case Bare => ""
    case Add(_) => "+"
    case Del(_) => "-"
    case NoNewline(_) => "\\"
  }

  function Render(op: Op): string
  {
    Sign(op) + TextOf(op)
  }

  function RenderAll(ops: seq<Op>): seq<string>
  {
    if ops == [] then [] else [Render(ops[0])] + RenderAll(ops[1..])
  }

  /** The old-file lines a hunk covers. */
  function OldSide(ops: seq<Op>): seq<string>
  {
    if ops == [] then []
    else
      var op := ops[|ops| - 1];
      OldSide(ops[..|ops| - 1]) + if IsKept(op) || op.Del? then [TextOf(op)] else []
  }

  /** The new-file lines a hunk covers. */
  function NewSide(ops: seq<Op>): seq<string>
  {
    if ops == [] then []
    else
      var op := ops[|ops| - 1];
      NewSide(ops[..|ops| - 1]) + if IsKept(op) || op.Add? then [TextOf(op)] else []
  }

  /** The numbers the next line of each file has. */
  datatype Numbers = Numbers(oldNo: nat, newNo: nat)

  /** The numbers after the lines a hunk has covered. */
  function NumbersAfter(ops: seq<Op>, oldFirst: nat, newFirst: nat): Numbers
  {
    Numbers(oldFirst + |OldSide(ops)|, newFirst + |NewSide(ops)|)
  }

  /** The changed line of an operation, with the given numbers. */
  function ChangedLine(op: Op, at: Numbers): seq<DiffLine>
  {
    match op
    case Add(t) => [DiffLine('+', t, None, Some(at.newNo))]
    case Del(t) => [DiffLine('-', t, Some(at.oldNo), None)]
    case _ => []
  }

  /** The changed lines of a hunk with their true numbers: an added line's number is one more than
      the new-file lines before it, a deleted line's one more than the old-file lines before it. */
  function TrueLines(ops: seq<Op>, oldFirst: nat, newFirst: nat): seq<DiffLine>
  {
    if ops == [] then []
    else
      var before := ops[..|ops| - 1];
      TrueLines(before, oldFirst, newFirst)
      + ChangedLine(ops[|ops| - 1], NumbersAfter(before, oldFirst, newFirst))
  }

  /** The walk takes the line for a file header. */
  predicate LooksLikeFileHeader(op: Op)
  {
    (op.Add? && "++" <= op.text) || (op.Del? && "--" <= op.text)
  }

  predicate NoneLooksLikeFileHeader(ops: seq<Op>)
  {
    forall i :: 0 <= i < |ops| ==> !LooksLikeFileHeader(ops[i])
  }

  predicate NoneBare(ops: seq<Op>)
  {
    forall i :: 0 <= i < |ops| ==> !ops[i].Bare?
  }

  /** No bare line stands before a change. */
  predicate BareLinesEnd(ops: seq<Op>)
  {
    forall j :: 0 <= j < |ops| && IsChange(ops[j]) ==> NoneBare(ops[..j])
  }

  /** What the hunk walk reads as it is meant. */
  predicate Clean(ops: seq<Op>)
  {
    NoneLooksLikeFileHeader(ops) && BareLinesEnd(ops)
  }

  /** How many of the lines are printed bare. */
  function Bares(ops: seq<Op>): nat
  {
    if ops == [] then 0 else Bares(ops[..|ops| - 1]) + if ops[|ops| - 1].Bare? then 1 else 0
  }

  lemma {:induction false} NoBares(ops: seq<Op>)
    ensures Bares(ops) == 0 <==> NoneBare(ops)
  {
    if ops != [] {
      NoBares(ops[..|ops| - 1]);
    }
  }

  lemma {:induction false} ChangesAppend(a: seq<string>, b: seq<string>, oldNo: nat, newNo: nat)
    returns (oldNext: nat, newNext: nat)
    ensures Changes(a + b, Some(oldNo), Some(newNo)) ==
            Changes(a, Some(oldNo), Some(newNo)) + Changes(b, Some(oldNext), Some(newNext))
    ensures oldNext == oldNo + Olds(a) && newNext == newNo + News(a)
  {
    if a == [] {
      assert a + b == b;
      oldNext, newNext := oldNo, newNo;
    } else {
      assert (a + b)[1..] == a[1..] + b;
      oldNext, newNext :=
        ChangesAppend(a[1..], b, NextOld(a[0], Some(oldNo)).value, NextNew(a[0], Some(newNo)).value);
    }
  }

  /** How many of the raw lines the walk counts as old-file lines. */
  function Olds(lines: seq<string>): nat
  {
    if lines == [] then 0 else (if IsDeleted(lines[0]) || IsContext(lines[0]) then 1 else 0) + Olds(lines[1..])
  }

  function News(lines: seq<string>): nat
  {
    if lines == [] then 0 else (if IsAdded(lines[0]) || IsContext(lines[0]) then 1 else 0) + News(lines[1..])
  }

  /** How many of the raw lines are context. */
  function Contexts(lines: seq<string>): nat
  {
    if lines == [] then 0 else (if IsContext(lines[0]) then 1 else 0) + Contexts(lines[1..])
  }

  predicate NoneContext(lines: seq<string>)
  {
    forall k :: 0 <= k < |lines| ==> !IsContext(lines[k])
  }

  lemma {:induction false} NoContexts(lines: seq<string>)
    ensures Contexts(lines) == 0 <==> NoneContext(lines)
  {
    if lines != [] {
      NoContexts(lines[1..]);
      assert forall k :: 1 <= k < |lines| ==> lines[k] == lines[1..][k - 1];
    }
  }

  lemma {:induction false} ContextsAppend(a: seq<string>, b: seq<string>)
    ensures Contexts(a + b) == Contexts(a) + Contexts(b)
  {
    if a == [] {
      assert a + b == b;
    } else {
      assert (a + b)[1..] == a[1..] + b;
      ContextsAppend(a[1..], b);
    }
  }

  lemma {:induction false} CountsAppend(a: seq<string>, b: seq<string>)
    ensures Olds(a + b) == Olds(a) + Olds(b) && News(a + b) == News(a) + News(b)
  {
    if a == [] {
      assert a + b == b;
    } else {
      assert (a + b)[1..] == a[1..] + b;
      CountsAppend(a[1..], b);
    }
  }

  lemma {:induction false} RenderAppend(a: seq<Op>, b: seq<Op>)
    ensures RenderAll(a + b) == RenderAll(a) + RenderAll(b)
  {
    if a == [] {
      assert a + b == b;
    } else {
      assert (a + b)[1..] == a[1..] + b;
      RenderAppend(a[1..], b);
    }
  }

  lemma {:induction false} RenderPush(before: seq<Op>, op: Op)
    ensures RenderAll(before + [op]) == RenderAll(before) + [Render(op)]
  {
    RenderAppend(before, [op]);
    assert RenderAll([op]) == [Render(op)];
  }

  /** How a rendered line looks to the walk. */
  lemma {:induction false} RenderedKind(op: Op)
    ensures IsContext(Render(op)) <==> op.Keep?
    ensures IsAdded(Render(op)) <==> op.Add? && !LooksLikeFileHeader(op)
    ensures IsDeleted(Render(op)) <==> op.Del? && !LooksLikeFileHeader(op)
    ensures !IsHeader(Render(op)) && (!op.Bare? ==> Render(op)[1..] == op.text)
  {
    var r := Render(op);
    if !op.Bare? {
      assert r[1..] == op.text && r[0] == Sign(op)[0];
      assert "+++" <= r ==> "++" <= r[1..];
      assert "---" <= r ==> "--" <= r[1..];
      if op.Add? && "++" <= op.text {
        assert r[..3] == "+++";
      }
      if op.Del? && "--" <= op.text {
        assert r[..3] == "---";
      }
    }
  }

  lemma {:induction false} RenderedHasNoHeaders(ops: seq<Op>)
    ensures NoHeaders(RenderAll(ops))
  {
    if ops != [] {
      RenderedKind(ops[0]);
      RenderedHasNoHeaders(ops[1..]);
    }
  }

  /** The numbers the walk has reached after some lines. */
  function NumbersRead(lines: seq<string>, o: nat, n: nat): Numbers
  {
    Numbers(o + Olds(lines), n + News(lines))
  }

  /** The walk counts every line but the bare ones in its files. */
  lemma {:induction false} WalkCounts(ops: seq<Op>)
    requires NoneLooksLikeFileHeader(ops)
    ensures Olds(RenderAll(ops)) + Bares(ops) == |OldSide(ops)|
    ensures News(RenderAll(ops)) + Bares(ops) == |NewSide(ops)|
  {
    if ops != [] {
      var before, op := ops[..|ops| - 1], ops[|ops| - 1];
      WalkCounts(before);
      assert ops == before + [op];
      RenderPush(before, op);
      RenderedKind(op);
      CountsAppend(RenderAll(before), [Render(op)]);
    }
  }

  lemma {:induction false} RenderedRecords(op: Op, o: nat, n: nat)
    requires !LooksLikeFileHeader(op)
    ensures Changes([Render(op)], Some(o), Some(n)) == ChangedLine(op, Numbers(o, n))
  {
    RenderedKind(op);
    assert [Render(op)][1..] == [];
  }

  /** One operation more, read as some lines: the record stays true exactly when it was and the
      operation's numbers are. */
  lemma {:induction false} OneMoreIsTrue(lines: seq<string>, more: seq<string>, truth: seq<DiffLine>, op: Op,
                                         o: nat, n: nat, read: Numbers, at: Numbers)
    requires |Changes(lines, Some(o), Some(n))| == |truth| && read == NumbersRead(lines, o, n)
    requires Changes(more, Some(read.oldNo), Some(read.newNo)) == ChangedLine(op, read)
    ensures Changes(lines + more, Some(o), Some(n)) == truth + ChangedLine(op, at) <==>
            Changes(lines, Some(o), Some(n)) == truth && ChangedLine(op, read) == ChangedLine(op, at)
    ensures |Changes(lines + more, Some(o), Some(n))| == |truth + ChangedLine(op, at)|
  {
    var o', n' := ChangesAppend(lines, more, o, n);
    SameParts(Changes(lines, Some(o), Some(n)), ChangedLine(op, read), truth, ChangedLine(op, at));
  }

  lemma {:induction false} BareLinesEndPush(ops: seq<Op>)
    requires ops != []
    ensures var (before, op) := (ops[..|ops| - 1], ops[|ops| - 1]);
            BareLinesEnd(ops) <==> BareLinesEnd(before) && (IsChange(op) ==> NoneBare(before))
  {
    var (before, op) := (ops[..|ops| - 1], ops[|ops| - 1]);
    assert forall j :: 0 <= j < |before| ==> before[j] == ops[j] && before[..j] == ops[..j];
  }

  lemma LaggingLine(op: Op, read: Numbers, meant: Numbers, lag: nat)
    requires read.oldNo + lag == meant.oldNo && read.newNo + lag == meant.newNo
    ensures ChangedLine(op, read) == ChangedLine(op, meant) <==> (IsChange(op) ==> lag == 0)
  {
  }

  lemma {:induction false} LastIsTrueExactlyWhen(before: seq<Op>, op: Op, o: nat, n: nat)
    requires NoneLooksLikeFileHeader(before) && !LooksLikeFileHeader(op)
    requires |Changes(RenderAll(before), Some(o), Some(n))| == |TrueLines(before, o, n)|
    ensures var (lines, truth) := (RenderAll(before) + [Render(op)],
                                   TrueLines(before, o, n) + ChangedLine(op, NumbersAfter(before, o, n)));
            && |Changes(lines, Some(o), Some(n))| == |truth|
            && (Changes(lines, Some(o), Some(n)) == truth <==>
                && Changes(RenderAll(before), Some(o), Some(n)) == TrueLines(before, o, n)
                && (IsChange(op) ==> NoneBare(before)))
  {
    var read, meant := NumbersRead(RenderAll(before), o, n), NumbersAfter(before, o, n);
    RenderedRecords(op, read.oldNo, read.newNo);
    OneMoreIsTrue(RenderAll(before), [Render(op)], TrueLines(before, o, n), op, o, n, read, meant);
    WalkCounts(before);
    NoBares(before);
    LaggingLine(op, read, meant, Bares(before));
  }

  /** Of lines that do not look like file headers the walk records each change, with its true number
      exactly when no bare line stands before it. */
  lemma {:induction false} WalkIsTrueExactlyWhen(ops: seq<Op>, o: nat, n: nat)
    requires NoneLooksLikeFileHeader(ops)
    ensures |Changes(RenderAll(ops), Some(o), Some(n))| == |TrueLines(ops, o, n)|
    ensures Changes(RenderAll(ops), Some(o), Some(n)) == TrueLines(ops, o, n) <==> BareLinesEnd(ops)
  {
    if ops != [] {
      var before, op := ops[..|ops| - 1], ops[|ops| - 1];
      WalkIsTrueExactlyWhen(before, o, n);
      LastIsTrueExactlyWhen(before, op, o, n);
      RenderLast(ops, before, op);
      BareLinesEndPush(ops);
    }
  }

  lemma {:induction false} RenderLast(ops: seq<Op>, before: seq<Op>, op: Op)
    requires ops != [] && before == ops[..|ops| - 1] && op == ops[|ops| - 1]
    ensures RenderAll(ops) == RenderAll(before) + [Render(op)]
  {
    assert ops == before + [op];
    RenderPush(before, op);
  }

  lemma NoneLooksPush(ops: seq<Op>)
    requires ops != []
    ensures NoneLooksLikeFileHeader(ops) <==>
            NoneLooksLikeFileHeader(ops[..|ops| - 1]) && !LooksLikeFileHeader(ops[|ops| - 1])
  {
  }

  /** The walk records one line for a change, and none for what it takes for a file header. */
  lemma {:induction false} LengthPush(lines: seq<string>, op: Op, o: nat, n: nat)
    ensures |Changes(lines + [Render(op)], Some(o), Some(n))| ==
            |Changes(lines, Some(o), Some(n))| + if IsChange(op) && !LooksLikeFileHeader(op) then 1 else 0
  {
    var o', n' := ChangesAppend(lines, [Render(op)], o, n);
    RenderedKind(op);
    assert [Render(op)][1..] == [];
  }

  /** Reading falls short of the hunk exactly when some text looks like a file header. */
  lemma {:induction false} WalkLength(ops: seq<Op>, o: nat, n: nat)
    ensures |Changes(RenderAll(ops), Some(o), Some(n))| <= |TrueLines(ops, o, n)|
    ensures !NoneLooksLikeFileHeader(ops) ==> |Changes(RenderAll(ops), Some(o), Some(n))| < |TrueLines(ops, o, n)|
  {
    if ops != [] {
      var before, op := ops[..|ops| - 1], ops[|ops| - 1];
      WalkLength(before, o, n);
      RenderLast(ops, before, op);
      LengthPush(RenderAll(before), op, o, n);
      NoneLooksPush(ops);
    }
  }

  /** The lines a hunk walk records are the hunk's changed lines with their true numbers, if and only if
      no added text starts with "++", no deleted text starts with "--", and no bare line stands before a
      change. */
  lemma {:induction false} RecordedLinesAreTrueExactlyWhenClean(ops: seq<Op>, oldFirst: nat, newFirst: nat)
    ensures Changes(RenderAll(ops), Some(oldFirst), Some(newFirst)) == TrueLines(ops, oldFirst, newFirst) <==>
            Clean(ops)
  {
    if NoneLooksLikeFileHeader(ops) {
      WalkIsTrueExactlyWhen(ops, oldFirst, newFirst);
    } else {
      WalkLength(ops, oldFirst, newFirst);
    }
  }

  // ----- hunks that are not clean ------------------------------------------------------------

  lemma {:induction false} RenderTwo(a: Op, b: Op)
    ensures RenderAll([a, b]) == [Render(a), Render(b)]
  {
    assert [a, b][1..] == [b] && [b][1..] == [];
    assert RenderAll([b]) == [Render(b)] + [];
  }

  lemma {:induction false} TrueTwo(a: Op, b: Op, o: nat, n: nat)
    ensures TrueLines([a, b], o, n) == ChangedLine(a, Numbers(o, n)) + ChangedLine(b, NumbersAfter([a], o, n))
    ensures OldSide([a]) == (if IsKept(a) || a.Del? then [TextOf(a)] else [])
    ensures NewSide([a]) == (if IsKept(a) || a.Add? then [TextOf(a)] else [])
  {
    assert [a, b][..1] == [a] && [a][..0] == [];
    assert TrueLines([a], o, n) == [] + ChangedLine(a, NumbersAfter([], o, n));
  }

  lemma {:induction false} TwoAdded(a: string, b: string, o: nat, n: nat)
    ensures TrueLines([Add(a), Add(b)], o, n) == [DiffLine('+', a, None, Some(n)), DiffLine('+', b, None, Some(n + 1))]
  {
    TrueTwo(Add(a), Add(b), o, n);
  }

  /** Two added lines, the first of which looks like a file header. */
  function Pluses(): seq<Op>
  {
    [Add("++x"), Add("y")]
  }

  /** The first goes unrecorded, and the second is numbered 1 instead of 2. */
  lemma {:induction false} PlusesShiftTheNextLine()
    ensures TrueLines(Pluses(), 1, 1) == [DiffLine('+', "++x", None, Some(1)), DiffLine('+', "y", None, Some(2))]
    ensures Changes(RenderAll(Pluses()), Some(1), Some(1)) == [DiffLine('+', "y", None, Some(1))]
  {
    TwoAdded("++x", "y", 1, 1);
    RenderTwo(Add("++x"), Add("y"));
    RenderedKind(Add("++x"));
    RenderedKind(Add("y"));
    SecondOnly(Render(Add("++x")), Render(Add("y")), 1, 1);
  }

  /** Of two lines only the second, an added one, counts. */
  lemma {:induction false} SecondOnly(first: string, second: string, o: nat, n: nat)
    requires !IsAdded(first) && !IsDeleted(first) && !IsContext(first) && IsAdded(second)
    ensures Changes([first, second], Some(o), Some(n)) == [DiffLine('+', second[1..], None, Some(n))]
  {
    assert [first, second][1..] == [second] && [second][1..] == [];
    assert Changes([second], Some(o), Some(n)) == [DiffLine('+', second[1..], None, Some(n))];
  }

  /** A kept empty line printed bare, and a line added after it. */
  function BareThenAdded(): seq<Op>
  {
    [Bare, Add("x")]
  }

  /** The bare line is not counted, so the added line is numbered 1 instead of 2. */
  lemma {:induction false} BareLineShiftsTheNextLine()
    ensures TrueLines(BareThenAdded(), 1, 1) == [DiffLine('+', "x", None, Some(2))]
    ensures RenderAll(BareThenAdded()) == ["", "+x"]
    ensures Changes(RenderAll(BareThenAdded()), Some(1), Some(1)) == [DiffLine('+', "x", None, Some(1))]
  {
    TrueTwo(Bare, Add("x"), 1, 1);
    RenderTwo(Bare, Add("x"));
    assert Render(Bare) == "" && Render(Add("x")) == "+x";
    RenderedKind(Add("x"));
    SecondOnly("", "+x", 1, 1);
  }

  // ----- positions in the files --------------------------------------------------------------

  lemma {:induction false} SidesAppend(a: seq<Op>, b: seq<Op>)
    ensures OldSide(a + b) == OldSide(a) + OldSide(b) && NewSide(a + b) == NewSide(a) + NewSide(b)
  {
    if b == [] {
      assert a + b == a;
    } else {
      var front, op := b[..|b| - 1], b[|b| - 1];
      assert a + b == (a + front) + [op];
      assert (a + b)[..|a + b| - 1] == a + front;
      SidesAppend(a, front);
    }
  }

  /** lines sits in file at a 0-based offset. */
  ghost predicate SitsAt(lines: seq<string>, file: seq<string>, offset: nat)
  {
    offset + |lines| <= |file| && file[offset..offset + |lines|] == lines
  }

  /** The line's number lies between two points of its file, and its text is there. */
  ghost predicate StandsBetween(l: DiffLine, start: Numbers, end: Numbers, oldFile: seq<string>, newFile: seq<string>)
  {
    if l.marker == '+' then
      && l.newNo.Some? && start.newNo <= l.newNo.value < end.newNo
      && 0 < l.newNo.value <= |newFile| && newFile[l.newNo.value - 1] == l.text
    else
      && l.marker == '-' && l.oldNo.Some? && start.oldNo <= l.oldNo.value < end.oldNo
      && 0 < l.oldNo.value <= |oldFile| && oldFile[l.oldNo.value - 1] == l.text
  }

  ghost predicate AllStand(lines: seq<DiffLine>, start: Numbers, end: Numbers, oldFile: seq<string>,
                           newFile: seq<string>)
  {
    forall l :: l in lines ==> StandsBetween(l, start, end, oldFile, newFile)
  }

  /** One side of a hunk that sits in a file: the lines before the last, and the last. */
  lemma {:induction false} SitsPush(before: seq<string>, last: seq<string>, file: seq<string>, offset: nat)
    requires SitsAt(before + last, file, offset)
    ensures SitsAt(before, file, offset)
    ensures last != [] ==> offset + |before| < |file| && file[offset + |before|] == last[0]
  {
    var whole := file[offset..offset + |before + last|];
    assert before == whole[..|before|];
    assert last != [] ==> whole[|before|] == last[0];
  }

  lemma {:induction false} LastStands(before: seq<Op>, op: Op, oldAt: nat, newAt: nat, oldFile: seq<string>,
                                      newFile: seq<string>)
    requires SitsAt(OldSide(before + [op]), oldFile, oldAt) && SitsAt(NewSide(before + [op]), newFile, newAt)
    ensures SitsAt(OldSide(before), oldFile, oldAt) && SitsAt(NewSide(before), newFile, newAt)
    ensures AllStand(ChangedLine(op, NumbersAfter(before, oldAt + 1, newAt + 1)), Numbers(oldAt + 1, newAt + 1),
                     NumbersAfter(before + [op], oldAt + 1, newAt + 1), oldFile, newFile)
  {
    assert (before + [op])[..|before|] == before;
    SitsPush(OldSide(before), if IsKept(op) || op.Del? then [TextOf(op)] else [], oldFile, oldAt);
    SitsPush(NewSide(before), if IsKept(op) || op.Add? then [TextOf(op)] else [], newFile, newAt);
  }

  lemma StandFurther(lines: seq<DiffLine>, start: Numbers, end: Numbers, further: Numbers,
                     oldFile: seq<string>, newFile: seq<string>)
    requires AllStand(lines, start, end, oldFile, newFile)
    requires end.oldNo <= further.oldNo && end.newNo <= further.newNo
    ensures AllStand(lines, start, further, oldFile, newFile)
  {
  }

  /** Each true line names the file line that holds its text, and it is one of the hunk's. */
  lemma {:induction false} TrueLinesAreInTheFiles(ops: seq<Op>, oldAt: nat, newAt: nat, oldFile: seq<string>,
                                                  newFile: seq<string>)
    requires SitsAt(OldSide(ops), oldFile, oldAt) && SitsAt(NewSide(ops), newFile, newAt)
    ensures AllStand(TrueLines(ops, oldAt + 1, newAt + 1), Numbers(oldAt + 1, newAt + 1),
                     NumbersAfter(ops, oldAt + 1, newAt + 1), oldFile, newFile)
  {
    if ops != [] {
      var before, op := ops[..|ops| - 1], ops[|ops| - 1];
      assert ops == before + [op];
      LastStands(before, op, oldAt, newAt, oldFile, newFile);
      TrueLinesAreInTheFiles(before, oldAt, newAt, oldFile, newFile);
      StandFurther(TrueLines(before, oldAt + 1, newAt + 1), Numbers(oldAt + 1, newAt + 1),
                   NumbersAfter(before, oldAt + 1, newAt + 1), NumbersAfter(ops, oldAt + 1, newAt + 1),
                   oldFile, newFile);
    }
  }

  /** Op i adds a line, and n is its number in the new file: one past the new-file lines before it. */
  ghost predicate AddsAt(ops: seq<Op>, newFirst: nat, i: nat, n: nat)
  {
    i < |ops| && ops[i].Add? && n == newFirst + |NewSide(ops[..i])|
  }

  ghost predicate AddsSomewhere(ops: seq<Op>, newFirst: nat, n: nat)
  {
    exists i: nat :: AddsAt(ops, newFirst, i, n)
  }

  lemma {:induction false} AddsPush(before: seq<Op>, op: Op, newFirst: nat, n: nat)
    ensures AddsSomewhere(before + [op], newFirst, n) <==>
            AddsSomewhere(before, newFirst, n) || (op.Add? && n == newFirst + |NewSide(before)|)
  {
    var ops := before + [op];
    assert ops[..|before|] == before;
    if AddsSomewhere(before, newFirst, n) {
      var i: nat :| AddsAt(before, newFirst, i, n);
      assert ops[..i] == before[..i];
      assert AddsAt(ops, newFirst, i, n);
    }
    if op.Add? && n == newFirst + |NewSide(before)| {
      assert AddsAt(ops, newFirst, |before|, n);
    }
    if AddsSomewhere(ops, newFirst, n) {
      var i: nat :| AddsAt(ops, newFirst, i, n);
      if i < |before| {
        assert ops[..i] == before[..i];
        assert AddsAt(before, newFirst, i, n);
      }
    }
  }

  /** The candidate lines of a true hunk are exactly the positions of its added lines. */
  lemma {:induction false} CandidatesAreTheAdditions(ops: seq<Op>, oldFirst: nat, newFirst: nat)
    ensures forall n: nat :: n in CandidateLines(TrueLines(ops, oldFirst, newFirst)) <==>
            AddsSomewhere(ops, newFirst, n)
  {
    if ops != [] {
      var before, op := ops[..|ops| - 1], ops[|ops| - 1];
      CandidatesAreTheAdditions(before, oldFirst, newFirst);
      var here := newFirst + |NewSide(before)|;
      assert ops == before + [op];
      var last := TrueLines(ops, oldFirst, newFirst)[|TrueLines(before, oldFirst, newFirst)|..];
      CandidatesAppend(TrueLines(before, oldFirst, newFirst), last);
      assert CandidateLines(last) == if op.Add? then [here] else [];
      forall n: nat
        ensures n in CandidateLines(TrueLines(ops, oldFirst, newFirst)) <==> AddsSomewhere(ops, newFirst, n)
      {
        AddsPush(before, op, newFirst, n);
      }
    }
  }
}
