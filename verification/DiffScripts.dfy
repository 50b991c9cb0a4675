/** Diff scripts of two files: the patch they print as in the unified format, and the changed lines with
    their true positions in the files. */
module DiffScripts {
  import opened Text
  import opened Hunks
  import opened HunkTheorems

  /** A diff script: lines common to both files, and hunks. */
  datatype Segment =
    | Gap(lines: seq<string>)
    | Hunk(ops: seq<Op>, section: string)

  function OldLines(s: Segment): seq<string>
  {
    match s case Gap(lines) => lines case Hunk(ops, _) => OldSide(ops)
  }

  function NewLines(s: Segment): seq<string>
  {
    match s case Gap(lines) => lines case Hunk(ops, _) => NewSide(ops)
  }

  function OldFile(script: seq<Segment>): seq<string>
  {
    if script == [] then [] else OldLines(script[0]) + OldFile(script[1..])
  }

  function NewFile(script: seq<Segment>): seq<string>
  {
    if script == [] then [] else NewLines(script[0]) + NewFile(script[1..])
  }

  /** POSIX: a range names its first line, or, when it is empty, the line before it; a count of one
      is left out. */
  function RangeStart(at: nat, count: nat): nat
  {
    if count == 0 then at else at + 1
  }

  function RangeCount(count: nat): Option<nat>
  {
    if count == 1 then None else Some(count)
  }

  /** How many lines of each file go before a point of the script. */
  datatype Place = Place(oldLines: nat, newLines: nat)

  const START: Place := Place(0, 0)

  function AfterSegment(at: Place, s: Segment): Place
  {
    Place(at.oldLines + |OldLines(s)|, at.newLines + |NewLines(s)|)
  }

  function HunkHeader(ops: seq<Op>, section: string, at: Place): string
  {
    var (o, n) := (|OldSide(ops)|, |NewSide(ops)|);
    HeaderText(RangeStart(at.oldLines, o), RangeCount(o), RangeStart(at.newLines, n), RangeCount(n), section)
  }

  function PrintedHunk(ops: seq<Op>, section: string, at: Place): RawHunk
  {
    RawHunk(HunkHeader(ops, section, at), RenderAll(ops))
  }

  /** The hunks with their printed headers, the script starting at the given place. */
  function PrintedHunks(script: seq<Segment>, at: Place): seq<RawHunk>
  {
    if script == [] then []
    else
      var rest := PrintedHunks(script[1..], AfterSegment(at, script[0]));
      if script[0].Gap? then rest else [PrintedHunk(script[0].ops, script[0].section, at)] + rest
  }

  /** The patch text of a script, after the lines that name the files; its last line may end in a newline
      or not. */
  function PrintPatch(preamble: seq<string>, script: seq<Segment>, ended: bool): string
  {
    Written(preamble + Flatten(PrintedHunks(script, START)), ended)
  }

  function TrueHunk(ops: seq<Op>, at: Place): seq<DiffLine>
  {
    TrueLines(ops, at.oldLines + 1, at.newLines + 1)
  }

  /** Each hunk's changed lines with their true numbers. */
  function TrueHunks(script: seq<Segment>, at: Place): seq<seq<DiffLine>>
  {
    if script == [] then []
    else
      var rest := TrueHunks(script[1..], AfterSegment(at, script[0]));
      if script[0].Gap? then rest else [TrueHunk(script[0].ops, at)] + rest
  }

  function ChangedOf(units: seq<ReviewUnit>): seq<seq<DiffLine>>
  {
    if units == [] then [] else [units[0].changed] + ChangedOf(units[1..])
  }

  // ----- printed headers ---------------------------------------------------------------------

  lemma {:induction false} HeaderIsHeader(ops: seq<Op>, section: string, at: Place)
    ensures IsHeader(HunkHeader(ops, section, at))
    ensures ParseHeader(HunkHeader(ops, section, at)) ==
            Some((RangeStart(at.oldLines, |OldSide(ops)|), RangeStart(at.newLines, |NewSide(ops)|)))
  {
    var (o, n) := (|OldSide(ops)|, |NewSide(ops)|);
    ParseHeaderOf(RangeStart(at.oldLines, o), RangeCount(o), RangeStart(at.newLines, n), RangeCount(n), section);
  }

  lemma {:induction false} FirstIsUnused(ops: seq<Op>, o: nat, o': nat, n: nat, n': nat)
    requires OldSide(ops) == [] || o == o'
    requires NewSide(ops) == [] || n == n'
    ensures TrueLines(ops, o, n) == TrueLines(ops, o', n')
  {
    if ops != [] {
      FirstIsUnused(ops[..|ops| - 1], o, o', n, n');
      LastIsUnused(ops[..|ops| - 1], ops[|ops| - 1], o, o', n, n');
    }
  }

  lemma LastIsUnused(before: seq<Op>, op: Op, o: nat, o': nat, n: nat, n': nat)
    requires (OldSide(before) == [] && !op.Del?) || o == o'
    requires (NewSide(before) == [] && !op.Add?) || n == n'
    ensures ChangedLine(op, NumbersAfter(before, o, n)) == ChangedLine(op, NumbersAfter(before, o', n'))
  {
  }

  /** Where a side of the hunk is empty its start is off by one, and unused. */
  lemma {:induction false} TrueHunkFromRangeStarts(ops: seq<Op>, at: Place)
    ensures TrueLines(ops, RangeStart(at.oldLines, |OldSide(ops)|), RangeStart(at.newLines, |NewSide(ops)|)) ==
            TrueHunk(ops, at)
  {
    FirstIsUnused(ops, RangeStart(at.oldLines, |OldSide(ops)|), at.oldLines + 1,
                  RangeStart(at.newLines, |NewSide(ops)|), at.newLines + 1);
  }

  // ----- true numbers name file lines --------------------------------------------------------

  /** A line's number is where its text stands in its file. */
  ghost predicate NamesItsLine(l: DiffLine, oldFile: seq<string>, newFile: seq<string>)
  {
    if l.marker == '+' then
      l.newNo.Some? && 0 < l.newNo.value <= |newFile| && newFile[l.newNo.value - 1] == l.text
    else
      l.marker == '-' && l.oldNo.Some? && 0 < l.oldNo.value <= |oldFile| && oldFile[l.oldNo.value - 1] == l.text
  }

  ghost predicate AllName(lines: seq<DiffLine>, oldFile: seq<string>, newFile: seq<string>)
  {
    forall i :: 0 <= i < |lines| ==> NamesItsLine(lines[i], oldFile, newFile)
  }

  lemma {:induction false} TrueLinesName(ops: seq<Op>, oldAt: nat, newAt: nat, oldFile: seq<string>,
                                         newFile: seq<string>)
    requires SitsAt(OldSide(ops), oldFile, oldAt) && SitsAt(NewSide(ops), newFile, newAt)
    ensures AllName(TrueLines(ops, oldAt + 1, newAt + 1), oldFile, newFile)
  {
    TrueLinesAreInTheFiles(ops, oldAt, newAt, oldFile, newFile);
    var lines := TrueLines(ops, oldAt + 1, newAt + 1);
    assert forall i :: 0 <= i < |lines| ==> lines[i] in lines;
  }

  ghost predicate AllHunksName(hunks: seq<seq<DiffLine>>, oldFile: seq<string>, newFile: seq<string>)
  {
    forall k :: 0 <= k < |hunks| ==> AllName(hunks[k], oldFile, newFile)
  }

  lemma HunksNameCons(first: seq<DiffLine>, rest: seq<seq<DiffLine>>, oldFile: seq<string>, newFile: seq<string>)
    requires AllName(first, oldFile, newFile) && AllHunksName(rest, oldFile, newFile)
    ensures AllHunksName([first] + rest, oldFile, newFile)
  {
  }

  ghost predicate ScriptSits(script: seq<Segment>, at: Place, oldFile: seq<string>, newFile: seq<string>)
  {
    SitsAt(OldFile(script), oldFile, at.oldLines) && SitsAt(NewFile(script), newFile, at.newLines)
  }

  lemma {:induction false} SitsSplit(whole: seq<string>, a: seq<string>, b: seq<string>, file: seq<string>, at: nat,
                                     next: nat)
    requires whole == a + b && SitsAt(whole, file, at) && next == at + |a|
    ensures SitsAt(a, file, at) && SitsAt(b, file, next)
  {
    assert a == whole[..|a|] && b == whole[|a|..];
  }

  lemma {:induction false} SegmentSits(script: seq<Segment>, at: Place, oldFile: seq<string>, newFile: seq<string>)
    requires script != [] && ScriptSits(script, at, oldFile, newFile)
    ensures ScriptSits(script[1..], AfterSegment(at, script[0]), oldFile, newFile)
    ensures SitsAt(OldLines(script[0]), oldFile, at.oldLines) && SitsAt(NewLines(script[0]), newFile, at.newLines)
  {
    var next := AfterSegment(at, script[0]);
    SitsSplit(OldFile(script), OldLines(script[0]), OldFile(script[1..]), oldFile, at.oldLines, next.oldLines);
    SitsSplit(NewFile(script), NewLines(script[0]), NewFile(script[1..]), newFile, at.newLines, next.newLines);
  }

  lemma {:induction false} TrueHunksNameTheirLines(script: seq<Segment>, at: Place, oldFile: seq<string>,
                                                   newFile: seq<string>)
    requires ScriptSits(script, at, oldFile, newFile)
    ensures AllHunksName(TrueHunks(script, at), oldFile, newFile)
  {
    if script != [] {
      SegmentSits(script, at, oldFile, newFile);
      TrueHunksNameTheirLines(script[1..], AfterSegment(at, script[0]), oldFile, newFile);
      if script[0].Hunk? {
        TrueLinesName(script[0].ops, at.oldLines, at.newLines, oldFile, newFile);
        HunksNameCons(TrueHunk(script[0].ops, at), TrueHunks(script[1..], AfterSegment(at, script[0])),
                      oldFile, newFile);
      }
    }
  }

  /** The true hunks of a script name lines of its two files. */
  lemma {:induction false} TrueNumbersNameFileLines(script: seq<Segment>)
    ensures AllHunksName(TrueHunks(script, START), OldFile(script), NewFile(script))
  {
    TrueHunksNameTheirLines(script, START, OldFile(script), NewFile(script));
  }
}
