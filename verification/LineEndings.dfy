/** Diffs of files whose lines end in a carriage return and a newline: the return ends up before the break
    that ends the line, and is read as part of it. */
module LineEndings {
  import opened Text
  import opened Hunks
  import opened HunkTheorems
  import opened DiffScripts
  import opened PatchTheorems

  /** The text without a return at its end. */
  function Chomp(text: string): string
  {
    if text != "" && text[|text| - 1] == '\r' then text[..|text| - 1] else text
  }

  function ChompOp(op: Op): Op
  {
    match op
    case Keep(t) => Keep(Chomp(t))
    case Bare => Bare
    case Add(t) => Add(Chomp(t))
    case Del(t) => Del(Chomp(t))
    case NoNewline(t) => NoNewline(Chomp(t))
  }

  function ChompOps(ops: seq<Op>): seq<Op>
  {
    if ops == [] then [] else ChompOps(ops[..|ops| - 1]) + [ChompOp(ops[|ops| - 1])]
  }

  function ChompAll(lines: seq<string>): (r: seq<string>)
    ensures |r| == |lines|
  {
    if lines == [] then [] else ChompAll(lines[..|lines| - 1]) + [Chomp(lines[|lines| - 1])]
  }

  /** The script of the two files without the returns at the ends of their lines. */
  function ChompScript(script: seq<Segment>): seq<Segment>
  {
    if script == [] then []
    else
      var first :=
        match script[0]
        case Gap(lines) => Gap(ChompAll(lines))
        case Hunk(ops, section) => Hunk(ChompOps(ops), Chomp(section));
      [first] + ChompScript(script[1..])
  }

  /** The line without the return at the end of its text, where it is. */
  function ChompLine(l: DiffLine): DiffLine
  {
    l.(text := Chomp(l.text))
  }

  function ChompLines(lines: seq<DiffLine>): seq<DiffLine>
  {
    if lines == [] then [] else ChompLines(lines[..|lines| - 1]) + [ChompLine(lines[|lines| - 1])]
  }

  function ChompHunks(hunks: seq<seq<DiffLine>>): seq<seq<DiffLine>>
  {
    if hunks == [] then [] else [ChompLines(hunks[0])] + ChompHunks(hunks[1..])
  }

  // ----- a return is read as part of the break -----------------------------------------------

  lemma {:induction false} ReturnIsDropped(text: string)
    requires NoBreak(Chomp(text))
    ensures Pieces(text) == [Chomp(text)] == Pieces(Chomp(text))
  {
    PiecesOfUnbroken(Chomp(text));
    if text != Chomp(text) {
      assert text == Chomp(text) + ("\r" + []);
      ReturnAndNewline(Chomp(text), []);
      assert "\n" + [] == "\n";
    }
  }

  lemma {:induction false} ReadsAsChomped(op: Op)
    requires NoBreak(TextOf(ChompOp(op)))
    ensures ReadAs(op) == ReadAs(ChompOp(op))
  {
    if !op.Bare? {
      ReturnIsDropped(op.text);
    }
  }

  lemma {:induction false} OpsNoBreakPush(front: seq<Op>, last: Op)
    ensures OpsNoBreak(front + [last]) <==> OpsNoBreak(front) && NoBreak(TextOf(last))
  {
    assert (front + [last])[|front|] == last;
    assert forall i :: 0 <= i < |front| ==> (front + [last])[i] == front[i];
  }

  lemma {:induction false} HunkReadsAsChomped(ops: seq<Op>, section: string)
    requires NoBreak(Chomp(section)) && OpsNoBreak(ChompOps(ops))
    ensures HunkLines(ops, section) == HunkLines(ChompOps(ops), Chomp(section))
  {
    if ops == [] {
      ReturnIsDropped(section);
    } else {
      var (front, last) := (ops[..|ops| - 1], ops[|ops| - 1]);
      OpsNoBreakPush(ChompOps(front), ChompOp(last));
      HunkReadsAsChomped(front, section);
      ReadsAsChomped(last);
      HunkLinesPush(ChompOps(front), ChompOp(last), Chomp(section));
    }
  }

  lemma {:induction false} SidesChomped(ops: seq<Op>)
    ensures OldSide(ChompOps(ops)) == ChompAll(OldSide(ops)) && NewSide(ChompOps(ops)) == ChompAll(NewSide(ops))
  {
    if ops != [] {
      var (front, last) := (ops[..|ops| - 1], ops[|ops| - 1]);
      SidesChomped(front);
      LastOfChomped(ops, front, last);
      SidesPush(front, last);
      SidesPush(ChompOps(front), ChompOp(last));
      ChompAllPush(OldSide(front), TextOf(last));
      ChompAllPush(NewSide(front), TextOf(last));
    }
  }

  lemma {:induction false} SidesPush(front: seq<Op>, last: Op)
    ensures OldSide(front + [last]) == OldSide(front) + (if IsKept(last) || last.Del? then [TextOf(last)] else [])
    ensures NewSide(front + [last]) == NewSide(front) + (if IsKept(last) || last.Add? then [TextOf(last)] else [])
  {
    assert (front + [last])[..|front|] == front;
  }

  lemma {:induction false} ChompAllPush(lines: seq<string>, last: string)
    ensures ChompAll(lines + [last]) == ChompAll(lines) + [Chomp(last)] && ChompAll(lines + []) == ChompAll(lines)
  {
    assert (lines + [last])[..|lines|] == lines && lines + [] == lines;
  }

  lemma {:induction false} FirstChomped(script: seq<Segment>, at: Place)
    requires script != []
    ensures var chomped := ChompScript(script);
            && chomped != [] && chomped[1..] == ChompScript(script[1..]) && (chomped[0].Hunk? <==> script[0].Hunk?)
            && (script[0].Hunk? ==> chomped[0] == Hunk(ChompOps(script[0].ops), Chomp(script[0].section)))
            && AfterSegment(at, chomped[0]) == AfterSegment(at, script[0])
  {
    if script[0].Hunk? {
      SidesChomped(script[0].ops);
    }
  }

  lemma {:induction false} HeaderChomped(ops: seq<Op>, section: string, at: Place)
    ensures HunkHeader(ChompOps(ops), section, at) == HunkHeader(ops, section, at)
  {
    SidesChomped(ops);
  }

  lemma {:induction false} ScriptReadsAsChomped(script: seq<Segment>, at: Place)
    requires ScriptNoBreak(ChompScript(script))
    ensures ReadHunks(script, at) == ReadHunks(ChompScript(script), at)
  {
    if script != [] {
      var (chomped, next) := (ChompScript(script), AfterSegment(at, script[0]));
      FirstChomped(script, at);
      assert forall i :: 0 <= i < |chomped[1..]| ==> chomped[1..][i] == chomped[i + 1];
      ScriptReadsAsChomped(script[1..], next);
      if script[0].Hunk? {
        var (ops, section) := (script[0].ops, script[0].section);
        ReadHunksCons(script, at);
        ReadHunksCons(chomped, at);
        HunkReadsAsChomped(ops, section);
        ReturnIsDropped(section);
        HeaderChomped(ops, FirstPiece(section), at);
      }
    }
  }

  // ----- the numbers stay true ---------------------------------------------------------------

  lemma {:induction false} ChompLinesPush(lines: seq<DiffLine>, op: Op, at: Numbers)
    ensures ChompLines(lines + ChangedLine(op, at)) == ChompLines(lines) + ChangedLine(ChompOp(op), at)
  {
    var more := ChangedLine(op, at);
    if more != [] {
      assert (lines + more)[..|lines|] == lines;
    } else {
      assert lines + more == lines;
    }
  }

  lemma {:induction false} TrueLinesPush(front: seq<Op>, last: Op, o: nat, n: nat, at: Numbers)
    requires at == NumbersAfter(front, o, n)
    ensures TrueLines(front + [last], o, n) == TrueLines(front, o, n) + ChangedLine(last, at)
  {
    assert (front + [last])[..|front|] == front;
  }

  lemma {:induction false} LastChomped(front: seq<Op>, front': seq<Op>, last: Op, o: nat, n: nat, at: Numbers)
    requires at == NumbersAfter(front, o, n) == NumbersAfter(front', o, n)
    requires TrueLines(front', o, n) == ChompLines(TrueLines(front, o, n))
    ensures TrueLines(front' + [ChompOp(last)], o, n) == ChompLines(TrueLines(front + [last], o, n))
  {
    TrueLinesPush(front', ChompOp(last), o, n, at);
    TrueLinesPush(front, last, o, n, at);
    ChompLinesPush(TrueLines(front, o, n), last, at);
  }

  lemma {:induction false} TrueLinesChomped(ops: seq<Op>, o: nat, n: nat)
    ensures TrueLines(ChompOps(ops), o, n) == ChompLines(TrueLines(ops, o, n))
  {
    if ops != [] {
      var (front, last) := (ops[..|ops| - 1], ops[|ops| - 1]);
      TrueLinesChomped(front, o, n);
      SidesChomped(front);
      LastChomped(front, ChompOps(front), last, o, n, NumbersAfter(front, o, n));
      LastOfChomped(ops, front, last);
    }
  }

  lemma LastOfChomped(ops: seq<Op>, front: seq<Op>, last: Op)
    requires ops != [] && front == ops[..|ops| - 1] && last == ops[|ops| - 1]
    ensures ops == front + [last] && ChompOps(ops) == ChompOps(front) + [ChompOp(last)]
  {
  }

  lemma {:induction false} TrueHunkChomped(ops: seq<Op>, at: Place)
    ensures TrueHunk(ChompOps(ops), at) == ChompLines(TrueHunk(ops, at))
  {
    var o, n := at.oldLines + 1, at.newLines + 1;
    var truth, truth' := TrueLines(ops, o, n), TrueLines(ChompOps(ops), o, n);
    TrueLinesChomped(ops, o, n);
    TrueHunkIs(ops, at, o, n, truth);
    TrueHunkIs(ChompOps(ops), at, o, n, truth');
  }

  lemma TrueHunkIs(ops: seq<Op>, at: Place, o: nat, n: nat, truth: seq<DiffLine>)
    requires o == at.oldLines + 1 && n == at.newLines + 1 && truth == TrueLines(ops, o, n)
    ensures TrueHunk(ops, at) == truth
  {
  }

  lemma {:induction false} ChompHunksCons(first: seq<DiffLine>, rest: seq<seq<DiffLine>>)
    ensures ChompHunks([first] + rest) == [ChompLines(first)] + ChompHunks(rest)
  {
    assert ([first] + rest)[1..] == rest;
  }

  lemma TrueHunksStep(script: seq<Segment>, at: Place, next: Place)
    requires script != [] && next == AfterSegment(at, script[0])
    ensures TrueHunks(script, at) ==
            (if script[0].Hunk? then [TrueHunk(script[0].ops, at)] else []) + TrueHunks(script[1..], next)
  {
  }

  lemma {:induction false} TrueHunksChomped(script: seq<Segment>, at: Place)
    ensures TrueHunks(ChompScript(script), at) == ChompHunks(TrueHunks(script, at))
  {
    if script != [] {
      var (chomped, next) := (ChompScript(script), AfterSegment(at, script[0]));
      FirstChomped(script, at);
      TrueHunksChomped(script[1..], next);
      TrueHunksStep(script, at, next);
      TrueHunksStep(chomped, at, next);
      if script[0].Hunk? {
        TrueHunkChomped(script[0].ops, at);
        ChompHunksCons(TrueHunk(script[0].ops, at), TrueHunks(script[1..], next));
      }
    }
  }

  /** Returns at the ends of lines are lost and change nothing else: if the texts hold no other break, the
      lines recorded are the changed lines without their returns, with their true positions, if and only if
      no text looks like a file header, no bare line stands before a change of its hunk, and no line before
      the first hunk reads as a header. */
  lemma {:induction false} ReturnsAreDroppedExactlyWhenClean(preamble: seq<string>, script: seq<Segment>, ended: bool)
    requires ScriptNoBreak(ChompScript(script))
    ensures ChangedOf(WholeUnits(PrintPatch(preamble, script, ended))) == ChompHunks(TrueHunks(script, START)) <==>
            NoHeaders(ReadLines(preamble)) && CleanScript(ChompScript(script))
  {
    var chomped := ChompScript(script);
    ScriptReadsAsChomped(script, START);
    PatchReads(preamble, script, ended);
    PatchReads(preamble, chomped, ended);
    PatchLineNumbersAreTrueExactlyWhen(preamble, chomped, ended);
    UnbrokenReadsTrulyExactlyWhenClean(chomped);
    TrueHunksChomped(script, START);
  }
}
