/** Splitting a large unit conserves it, and what becomes of a piece that is read again. */
module SplitTheorems {
  import opened Text
  import opened Sorting
  import opened Hunks
  import opened HunkTheorems
  import opened DiffScripts

  // ----- splitting conserves -----------------------------------------------------------------

  function AllChanged(units: seq<ReviewUnit>): seq<DiffLine>
  {
    if units == [] then [] else units[0].changed + AllChanged(units[1..])
  }

  function AllCandidates(units: seq<ReviewUnit>): seq<nat>
  {
    if units == [] then [] else units[0].candidates + AllCandidates(units[1..])
  }

  ghost predicate SmallChunks(units: seq<ReviewUnit>)
  {
    forall i :: 0 <= i < |units| ==> 1 <= |units[i].changed| <= 80
  }

  lemma {:induction false} ChunksConserve(lines: seq<DiffLine>)
    requires AllAdded(lines)
    ensures AllChanged(ChunkUnits(lines)) == lines
    ensures AllCandidates(ChunkUnits(lines)) == CandidateLines(lines)
    ensures SmallChunks(ChunkUnits(lines))
    decreases |lines|
  {
    if lines != [] {
      var n := if |lines| < MAX_LINES_PER_REVIEW_UNIT then |lines| else MAX_LINES_PER_REVIEW_UNIT;
      var first, rest := ChunkUnit(lines[..n]), ChunkUnits(lines[n..]);
      ChunkUnitsStep(lines, lines[..n], lines[n..]);
      ChunksConserve(lines[n..]);
      CandidatesAppend(lines[..n], lines[n..]);
      assert lines == lines[..n] + lines[n..];
      assert ([first] + rest)[1..] == rest;
    }
  }

  /** Added lines of a hunk with a readable header are all numbered; otherwise none is. */
  lemma {:induction false} NumberedOrNot(lines: seq<string>, oldNo: Option<nat>, newNo: Option<nat>)
    ensures newNo.None? ==> CandidateLines(Changes(lines, oldNo, newNo)) == []
    ensures newNo.Some? && OnlyAdditions(Changes(lines, oldNo, newNo)) ==>
              Filter(Changes(lines, oldNo, newNo), HasNumber) == Changes(lines, oldNo, newNo)
  {
    if lines != [] {
      var o, n := NextOld(lines[0], oldNo), NextNew(lines[0], newNo);
      NumberedOrNot(lines[1..], o, n);
      var rest, line := Changes(lines[1..], o, n), Recorded(lines[0], oldNo, newNo);
      if line.Some? {
        assert Changes(lines, oldNo, newNo)[1..] == rest;
        assert OnlyAdditions([line.value] + rest) ==> OnlyAdditions(rest) by {
          assert forall i :: 0 <= i < |rest| ==> rest[i] == ([line.value] + rest)[i + 1];
        }
      }
    }
  }

  /** Splitting a hunk's unit keeps its lines and candidates, in order, in non-empty chunks of at
      most the unit size. */
  lemma {:induction false} SplitConserves(header: string, lines: seq<string>)
    ensures var unit := UnitOf(header, lines);
            && AllChanged(SplitUnit(unit)) == unit.changed
            && AllCandidates(SplitUnit(unit)) == unit.candidates
            && (Splits(unit) ==> SmallChunks(SplitUnit(unit)))
  {
    var unit := UnitOf(header, lines);
    if Splits(unit) {
      NumberedOrNot(lines, Starts(header).0, Starts(header).1);
      NumberedAdditions(unit.changed);
      ChunksConserve(unit.changed);
    } else {
      assert [unit][1..] == [];
    }
  }

  function Concat(xs: seq<seq<DiffLine>>): seq<DiffLine>
  {
    if xs == [] then [] else xs[0] + Concat(xs[1..])
  }

  lemma {:induction false} AllAppend(a: seq<ReviewUnit>, b: seq<ReviewUnit>)
    ensures AllChanged(a + b) == AllChanged(a) + AllChanged(b)
    ensures AllCandidates(a + b) == AllCandidates(a) + AllCandidates(b)
  {
    if a == [] {
      assert a + b == b;
    } else {
      assert (a + b)[1..] == a[1..] + b;
      AllAppend(a[1..], b);
    }
  }

  lemma {:induction false} SplittingConserves(segments: seq<RawHunk>)
    ensures AllChanged(SplitAll(UnitsOf(segments))) == Concat(ChangedOf(UnitsOf(segments)))
    ensures AllCandidates(SplitAll(UnitsOf(segments))) == AllCandidates(UnitsOf(segments))
  {
    if segments != [] {
      var units := UnitsOf(segments);
      SplittingConserves(segments[1..]);
      SplitConserves(segments[0].header, segments[0].body);
      assert units[0] == UnitOf(segments[0].header, segments[0].body) && units[1..] == UnitsOf(segments[1..]);
      AllAppend(SplitUnit(units[0]), SplitAll(units[1..]));
      assert ChangedOf(units)[0] == units[0].changed && ChangedOf(units)[1..] == ChangedOf(units[1..]);
    }
  }

  // ----- a chunk read again ------------------------------------------------------------------

  /** The numbers run on from the first, as the chunk's header claims. */
  ghost predicate Contiguous(chunk: seq<DiffLine>, first: nat)
  {
    forall i :: 0 <= i < |chunk| ==> chunk[i].newNo == Some(first + i)
  }

  /** What reading a chunk's patch records. */
  function Renumbered(chunk: seq<DiffLine>, first: nat): seq<DiffLine>
  {
    if chunk == [] then []
    else [DiffLine('+', chunk[0].text, None, Some(first))] + Renumbered(chunk[1..], first + 1)
  }

  lemma {:induction false} RenumberedAt(chunk: seq<DiffLine>, first: nat)
    ensures |Renumbered(chunk, first)| == |chunk|
    ensures forall i :: 0 <= i < |chunk| ==>
              Renumbered(chunk, first)[i] == DiffLine('+', chunk[i].text, None, Some(first + i))
  {
    if chunk != [] {
      RenumberedAt(chunk[1..], first + 1);
    }
  }

  /** A line as an all-added hunk records it. */
  ghost predicate Addition(l: DiffLine)
  {
    l.marker == '+' && l.oldNo.None? && l.newNo.Some? && !("++" <= l.text) && NoBreak(l.text)
  }

  ghost predicate Additions(lines: seq<DiffLine>)
  {
    forall i :: 0 <= i < |lines| ==> Addition(lines[i])
  }

  predicate NoneEmpty(lines: seq<string>)
  {
    forall i :: 0 <= i < |lines| ==> lines[i] != []
  }

  lemma {:induction false} ReadRaw(chunk: seq<DiffLine>, oldNo: Option<nat>, first: nat)
    requires Additions(chunk)
    ensures Changes(RawLines(chunk), oldNo, Some(first)) == Renumbered(chunk, first)
    ensures NoHeaders(RawLines(chunk)) && NoBreaks(RawLines(chunk)) && NoneEmpty(RawLines(chunk))
  {
    if chunk != [] {
      var next := first + 1;
      ReadRaw(chunk[1..], oldNo, next);
      RawAddition(chunk[0], oldNo, first, next);
      assert RawLines(chunk)[1..] == RawLines(chunk[1..]);
    }
  }

  lemma {:induction false} RawAddition(l: DiffLine, oldNo: Option<nat>, first: nat, next: nat)
    requires Addition(l) && next == first + 1
    ensures var raw := "+" + l.text;
            && NoBreak(raw) && !IsHeader(raw) && raw != []
            && Recorded(raw, oldNo, Some(first)) == Some(DiffLine('+', l.text, None, Some(first)))
            && NextOld(raw, oldNo) == oldNo && NextNew(raw, Some(first)) == Some(next)
  {
    RenderedKind(Add(l.text));
    assert Render(Add(l.text)) == "+" + l.text;
  }

  lemma {:induction false} ContiguousIsRenumbered(chunk: seq<DiffLine>, first: nat)
    requires Additions(chunk)
    ensures Renumbered(chunk, first) == chunk <==> Contiguous(chunk, first)
  {
    RenumberedAt(chunk, first);
    if Renumbered(chunk, first) == chunk {
      forall i | 0 <= i < |chunk|
        ensures chunk[i].newNo == Some(first + i)
      {
        assert Renumbered(chunk, first)[i] == chunk[i];
      }
    }
    if Contiguous(chunk, first) {
      forall i | 0 <= i < |chunk|
        ensures Renumbered(chunk, first)[i] == chunk[i]
      {
        assert Addition(chunk[i]);
      }
    }
  }

  lemma {:induction false} OneHunkPatch(header: string, raw: seq<string>)
    requires IsHeader(header) && NoBreak(header) && NoHeaders(raw) && NoBreaks(raw) && NoneEmpty(raw)
    ensures Segments(SplitLines(Join([header] + raw))) == [RawHunk(header, raw)]
  {
    assert [header] + (raw + []) == [header] + raw;
    SplitJoin([header] + raw);
    CutCons(header, raw, []);
  }

  /** Cutting the patch of a chunk finds one hunk: the chunk's header over its raw lines. */
  lemma {:induction false} ChunkPatchIsOneHunk(chunk: seq<DiffLine>)
    requires chunk != [] && Additions(chunk) && AllAdded(chunk)
    ensures var header := ChunkHeader(chunk[0].newNo.value, |chunk|);
            && ParseHeader(header) == Some((0, chunk[0].newNo.value))
            && Segments(SplitLines(ChunkUnit(chunk).patch)) == [RawHunk(header, RawLines(chunk))]
  {
    var first := chunk[0].newNo.value;
    ParseHeaderOf(0, Some(0), first, Some(|chunk|), "");
    HeaderNoBreak(0, Some(0), first, Some(|chunk|), "");
    ReadRaw(chunk, Some(0), first);
    OneHunkPatch(ChunkHeader(first, |chunk|), RawLines(chunk));
  }

  lemma {:induction false} OneUnit(header: string, raw: seq<string>)
    requires |UnitOf(header, raw).candidates| <= MAX_LINES_PER_REVIEW_UNIT
    ensures SplitAll(UnitsOf([RawHunk(header, raw)])) == [UnitOf(header, raw)]
  {
    var unit := UnitOf(header, raw);
    assert UnitsOf([RawHunk(header, raw)]) == [unit] + UnitsOf([]);
    assert SplitAll([unit]) == SplitUnit(unit) + SplitAll([]);
  }

  /** The unit a chunk's patch reads as has the chunk's lines, numbered without a gap. */
  lemma {:induction false} ChunkUnitChanged(chunk: seq<DiffLine>)
    requires chunk != [] && Additions(chunk) && AllAdded(chunk)
    ensures var again := UnitOf(ChunkHeader(chunk[0].newNo.value, |chunk|), RawLines(chunk));
            && again.changed == Renumbered(chunk, chunk[0].newNo.value)
            && |again.candidates| == |chunk|
  {
    var first := chunk[0].newNo.value;
    ChunkPatchIsOneHunk(chunk);
    ReadRaw(chunk, Some(0), first);
    RenumberedAt(chunk, first);
    CandidatesOfAdded(Renumbered(chunk, first));
  }

  lemma {:induction false} ChunkReadsAs(chunk: seq<DiffLine>)
    requires 1 <= |chunk| <= MAX_LINES_PER_REVIEW_UNIT && Additions(chunk) && AllAdded(chunk)
    ensures ReviewUnits(ChunkUnit(chunk).patch) == [UnitOf(ChunkHeader(chunk[0].newNo.value, |chunk|), RawLines(chunk))]
  {
    var header := ChunkHeader(chunk[0].newNo.value, |chunk|);
    ChunkPatchIsOneHunk(chunk);
    ChunkUnitChanged(chunk);
    OneUnit(header, RawLines(chunk));
    assert WholeUnits(ChunkUnit(chunk).patch) == UnitsOf([RawHunk(header, RawLines(chunk))]);
  }

  /** Reading a chunk's own patch gives back exactly that chunk, if and only if its line numbers
      run on from the first. */
  lemma {:induction false} ChunkReadsBackExactlyWhenContiguous(chunk: seq<DiffLine>)
    requires 1 <= |chunk| <= MAX_LINES_PER_REVIEW_UNIT && Additions(chunk) && AllAdded(chunk)
    ensures ReviewUnits(ChunkUnit(chunk).patch) == [ChunkUnit(chunk)] <==> Contiguous(chunk, chunk[0].newNo.value)
  {
    var first := chunk[0].newNo.value;
    ChunkReadsAs(chunk);
    ChunkUnitChanged(chunk);
    ContiguousIsRenumbered(chunk, first);
    RenumberedAt(chunk, first);
    CandidatesOfAdded(chunk);
    CandidatesOfAdded(Renumbered(chunk, first));
  }

  /** The additions a hunk walk records are plain: no break, no leading "++", no old number. */
  lemma {:induction false} RecordedAdditions(lines: seq<string>, oldNo: Option<nat>, newNo: Option<nat>)
    requires NoBreaks(lines) && newNo.Some? && OnlyAdditions(Changes(lines, oldNo, newNo))
    ensures Additions(Changes(lines, oldNo, newNo)) && AllAdded(Changes(lines, oldNo, newNo))
  {
    if lines != [] {
      var o, n := NextOld(lines[0], oldNo), NextNew(lines[0], newNo);
      var rest, line := Changes(lines[1..], o, n), Recorded(lines[0], oldNo, newNo);
      if line.Some? {
        FirstIsAddition(line.value, rest);
        RecordedAddition(lines[0], oldNo, newNo);
      }
      RecordedAdditions(lines[1..], o, n);
    }
  }

  lemma {:induction false} FirstIsAddition(first: DiffLine, rest: seq<DiffLine>)
    requires OnlyAdditions([first] + rest)
    ensures first.marker == '+' && OnlyAdditions(rest)
  {
    assert ([first] + rest)[0] == first;
    assert forall i :: 0 <= i < |rest| ==> rest[i] == ([first] + rest)[i + 1];
  }

  lemma {:induction false} RecordedAddition(raw: string, oldNo: Option<nat>, newNo: Option<nat>)
    requires NoBreak(raw) && newNo.Some?
    ensures var line := Recorded(raw, oldNo, newNo);
            line.Some? && line.value.marker == '+' ==> Addition(line.value)
  {
    if raw != [] {
      assert NoBreak(raw[1..]);
      if raw[0] == '+' {
        assert raw == "+" + raw[1..];
        RenderedKind(Add(raw[1..]));
      }
    }
  }

  lemma {:induction false} PiecesAreChunks(lines: seq<DiffLine>, i: nat)
    requires AllAdded(lines) && Additions(lines) && i < |ChunkUnits(lines)|
    ensures var chunk := ChunkUnits(lines)[i].changed;
            && 1 <= |chunk| <= MAX_LINES_PER_REVIEW_UNIT && AllAdded(chunk) && Additions(chunk)
            && ChunkUnits(lines)[i] == ChunkUnit(chunk)
    decreases |lines|
  {
    var n := if |lines| < MAX_LINES_PER_REVIEW_UNIT then |lines| else MAX_LINES_PER_REVIEW_UNIT;
    assert AllAdded(lines[..n]) && Additions(lines[..n]);
    if i > 0 {
      PiecesAreChunks(lines[n..], i - 1);
    }
  }

  // ----- pieces in terms of the hunk ---------------------------------------------------------

  /** The rows of the hunk that hold its added lines. */
  function AddedRows(lines: seq<string>): (rows: seq<nat>)
    ensures |rows| <= |lines|
  {
    if lines == [] then []
    else AddedRows(lines[..|lines| - 1]) + if IsAdded(lines[|lines| - 1]) then [|lines| - 1] else []
  }

  lemma {:induction false} AddedRowsAre(lines: seq<string>)
    ensures forall r :: r in AddedRows(lines) <==> 0 <= r < |lines| && IsAdded(lines[r])
  {
    if lines != [] {
      AddedRowsAre(lines[..|lines| - 1]);
    }
  }

  lemma {:induction false} AddedRowsAscend(lines: seq<string>)
    ensures Ascending(AddedRows(lines))
  {
    if lines != [] {
      var front := lines[..|lines| - 1];
      AddedRowsAscend(front);
      AddedRowsAre(front);
      AscendingPush(AddedRows(front), |front|);
    }
  }

  /** The k-th added line has the number the start, the k added lines before it and the context before
      it give it. */
  lemma {:induction false} AddedRowNumber(lines: seq<string>, o: nat, n: nat, k: nat)
    requires OnlyAdditions(Changes(lines, Some(o), Some(n))) && k < |AddedRows(lines)|
    ensures AddedRows(lines)[k] < |lines|
    ensures |Changes(lines, Some(o), Some(n))| == |AddedRows(lines)|
    ensures Changes(lines, Some(o), Some(n))[k].newNo == Some(n + k + Contexts(lines[..AddedRows(lines)[k]]))
  {
    var (front, last) := (lines[..|lines| - 1], lines[|lines| - 1]);
    var (changed, before) := (Changes(lines, Some(o), Some(n)), Changes(front, Some(o), Some(n)));
    assert lines == front + [last];
    var o', n' := ChangesAppend(front, [last], o, n);
    assert [last][1..] == [];
    assert forall i :: 0 <= i < |before| ==> before[i] == changed[i];
    AddedRowCount(front, o, n);
    LastIsNotDeleted(front, last, o, n);
    if k < |AddedRows(front)| {
      AddedRowNumber(front, o, n, k);
      assert lines[..AddedRows(lines)[k]] == front[..AddedRows(front)[k]];
    } else {
      assert lines[..|front|] == front;
    }
  }

  lemma {:induction false} LastIsNotDeleted(front: seq<string>, last: string, o: nat, n: nat)
    requires OnlyAdditions(Changes(front + [last], Some(o), Some(n)))
    ensures !IsDeleted(last)
  {
    var o', n' := ChangesAppend(front, [last], o, n);
    var (changed, own) := (Changes(front + [last], Some(o), Some(n)), Changes([last], Some(o'), Some(n')));
    assert [last][1..] == [];
    assert own != [] ==> changed[|changed| - 1] == own[0] && own[0].marker == '+';
  }

  /** A walk that records additions only counts them and the context. */
  lemma {:induction false} AddedRowCount(lines: seq<string>, o: nat, n: nat)
    requires OnlyAdditions(Changes(lines, Some(o), Some(n)))
    ensures |Changes(lines, Some(o), Some(n))| == |AddedRows(lines)|
    ensures News(lines) == |AddedRows(lines)| + Contexts(lines)
  {
    if lines != [] {
      var (front, last) := (lines[..|lines| - 1], lines[|lines| - 1]);
      var (changed, before) := (Changes(lines, Some(o), Some(n)), Changes(front, Some(o), Some(n)));
      assert lines == front + [last];
      var o', n' := ChangesAppend(front, [last], o, n);
      assert [last][1..] == [];
      assert forall i :: 0 <= i < |before| ==> before[i] == changed[i];
      AddedRowCount(front, o, n);
      LastIsNotDeleted(front, last, o, n);
      CountsAppend(front, [last]);
      ContextsAppend(front, [last]);
    }
  }

  /** Where the piece begins and ends among the added lines. */
  function PieceStart(i: nat): nat
  {
    MAX_LINES_PER_REVIEW_UNIT * i
  }

  function PieceStop(i: nat, count: nat): nat
  {
    if PieceStart(i + 1) < count then PieceStart(i + 1) else count
  }

  lemma SliceOfRest<T>(xs: seq<T>, rest: seq<T>, n: nat, from: nat, to: nat)
    requires n <= |xs| && rest == xs[n..] && from <= to <= |rest|
    ensures rest[from..to] == xs[n + from..n + to]
  {
  }

  /** What the pieces after the first are pieces of. */
  lemma ChunkUnitsStep(lines: seq<DiffLine>, first: seq<DiffLine>, rest: seq<DiffLine>)
    requires AllAdded(lines) && lines != []
    requires var n := if |lines| < MAX_LINES_PER_REVIEW_UNIT then |lines| else MAX_LINES_PER_REVIEW_UNIT;
             first == lines[..n] && rest == lines[n..]
    ensures AllAdded(first) && AllAdded(rest)
    ensures ChunkUnits(lines) == [ChunkUnit(first)] + ChunkUnits(rest)
  {
  }

  lemma {:induction false} PieceIs(lines: seq<DiffLine>, i: nat)
    requires AllAdded(lines) && i < |ChunkUnits(lines)|
    ensures PieceStart(i) < PieceStop(i, |lines|) <= |lines|
    ensures ChunkUnits(lines)[i].changed == lines[PieceStart(i)..PieceStop(i, |lines|)]
    decreases |lines|
  {
    var n := if |lines| < MAX_LINES_PER_REVIEW_UNIT then |lines| else MAX_LINES_PER_REVIEW_UNIT;
    var (first, rest) := (lines[..n], lines[n..]);
    ChunkUnitsStep(lines, first, rest);
    if i > 0 {
      var before: nat := i - 1;
      assert ChunkUnits(lines)[i] == ChunkUnits(rest)[before];
      PieceIs(rest, before);
      LaterPiece(lines, i, n, rest);
    } else {
      assert ChunkUnits(lines)[0] == ChunkUnit(first);
    }
  }

  /** A later piece of the whole is the piece before it of what the first piece leaves. */
  lemma {:induction false} LaterPiece(lines: seq<DiffLine>, i: nat, n: nat, rest: seq<DiffLine>)
    requires i > 0 && n <= |lines| && rest == lines[n..]
    requires n == if |lines| < MAX_LINES_PER_REVIEW_UNIT then |lines| else MAX_LINES_PER_REVIEW_UNIT
    requires PieceStart(i - 1) < PieceStop(i - 1, |rest|) <= |rest|
    ensures PieceStart(i) == n + PieceStart(i - 1) && PieceStop(i, |lines|) == n + PieceStop(i - 1, |rest|)
    ensures lines[PieceStart(i)..PieceStop(i, |lines|)] == rest[PieceStart(i - 1)..PieceStop(i - 1, |rest|)]
  {
    SliceOfRest(lines, rest, n, PieceStart(i - 1), PieceStop(i - 1, |rest|));
  }

  /** No line of context stands between two rows of the hunk. */
  ghost predicate NothingKept(lines: seq<string>, from: nat, to: nat)
  {
    forall r :: from < r < to && r < |lines| ==> !IsContext(lines[r])
  }

  lemma {:induction false} NothingKeptExactlyWhen(lines: seq<string>, from: nat, to: nat)
    requires from <= to <= |lines| && (from < |lines| ==> !IsContext(lines[from]))
    ensures Contexts(lines[..from]) <= Contexts(lines[..to])
    ensures NothingKept(lines, from, to) <==> Contexts(lines[..to]) == Contexts(lines[..from])
  {
    var between := lines[from..to];
    assert lines[..to] == lines[..from] + between;
    ContextsAppend(lines[..from], between);
    NoContexts(between);
    assert forall k :: 0 <= k < |between| ==> between[k] == lines[from + k];
    if NothingKept(lines, from, to) {
      assert NoneContext(between);
    }
    if NoneContext(between) {
      forall r | from < r < to && r < |lines|
        ensures !IsContext(lines[r])
      {
        assert between[r - from] == lines[r];
      }
    }
  }

  lemma AddedIsNotContext(raw: string)
    requires IsAdded(raw)
    ensures !IsContext(raw)
  {
  }

  /** The rows of the hunk that hold its added lines, in order. */
  ghost predicate ListsAddedRows(rows: seq<nat>, lines: seq<string>)
  {
    Ascending(rows) && forall r :: r in rows <==> 0 <= r < |lines| && IsAdded(lines[r])
  }

  /** Added lines and their rows: each is numbered by its place and the context before its row. */
  ghost predicate Numbered(lines: seq<string>, n: nat, changed: seq<DiffLine>, rows: seq<nat>, kept: seq<nat>)
  {
    |rows| == |kept| == |changed| && forall k: nat :: k < |changed| ==> NumberedAt(lines, n, changed, rows, kept, k)
  }

  ghost predicate NumberedAt(lines: seq<string>, n: nat, changed: seq<DiffLine>, rows: seq<nat>, kept: seq<nat>, k: nat)
    requires |rows| == |kept| == |changed| && k < |changed|
  {
    rows[k] < |lines| && kept[k] == Contexts(lines[..rows[k]]) && changed[k].newNo == Some(n + k + kept[k])
  }

  /** How much context precedes each row. */
  function KeptBefore(lines: seq<string>, rows: seq<nat>): (kept: seq<nat>)
    ensures |kept| == |rows|
  {
    seq(|rows|, k requires 0 <= k < |rows| => if rows[k] <= |lines| then Contexts(lines[..rows[k]]) else 0)
  }

  lemma {:induction false} RowIsNumbered(lines: seq<string>, o: nat, n: nat, changed: seq<DiffLine>, rows: seq<nat>,
                                         kept: seq<nat>, k: nat)
    requires changed == Changes(lines, Some(o), Some(n)) && OnlyAdditions(changed)
    requires rows == AddedRows(lines) && kept == KeptBefore(lines, rows) && |rows| == |changed| && k < |changed|
    ensures NumberedAt(lines, n, changed, rows, kept, k)
  {
    AddedRowNumber(lines, o, n, k);
  }

  /** So are the lines of a hunk that adds only. */
  lemma {:induction false} RowsOf(lines: seq<string>, o: nat, n: nat, changed: seq<DiffLine>)
    returns (rows: seq<nat>, kept: seq<nat>)
    requires changed == Changes(lines, Some(o), Some(n)) && OnlyAdditions(changed)
    ensures ListsAddedRows(rows, lines) && Numbered(lines, n, changed, rows, kept)
  {
    rows := AddedRows(lines);
    AddedRowsAre(lines);
    AddedRowsAscend(lines);
    AddedRowCount(lines, o, n);
    kept := KeptBefore(lines, rows);
    forall k: nat | k < |changed|
      ensures NumberedAt(lines, n, changed, rows, kept, k)
    {
      RowIsNumbered(lines, o, n, changed, rows, kept, k);
    }
  }

  lemma {:induction false} KeptBetween(lines: seq<string>, rows: seq<nat>, i: nat, j: nat)
    requires ListsAddedRows(rows, lines) && i <= j < |rows|
    ensures rows[i] <= rows[j] < |lines| && Contexts(lines[..rows[i]]) <= Contexts(lines[..rows[j]])
    ensures NothingKept(lines, rows[i], rows[j]) <==> Contexts(lines[..rows[i]]) == Contexts(lines[..rows[j]])
  {
    assert rows[i] in rows && rows[j] in rows;
    AddedIsNotContext(lines[rows[i]]);
    NothingKeptExactlyWhen(lines, rows[i], rows[j]);
  }

  /** Numbers that run on except for gaps run on exactly when the first gap is the last. */
  lemma {:induction false} ContiguousExactlyWhenNoGap(stretch: seq<DiffLine>, base: nat, gaps: seq<nat>)
    requires |gaps| == |stretch| && stretch != []
    requires forall i :: 0 <= i < |gaps| ==> gaps[0] <= gaps[i] <= gaps[|gaps| - 1]
    requires forall i :: 0 <= i < |gaps| ==> stretch[i].newNo == Some(base + i + gaps[i])
    ensures stretch[0].newNo.Some?
    ensures Contiguous(stretch, stretch[0].newNo.value) <==> gaps[0] == gaps[|gaps| - 1]
  {
    var first := stretch[0].newNo.value;
    if Contiguous(stretch, first) {
      assert stretch[|stretch| - 1].newNo == Some(first + (|stretch| - 1));
    }
  }

  /** A stretch of added lines is numbered without a gap exactly when no context stands between its
      first row and its last. */
  lemma {:induction false} StretchIsContiguous(lines: seq<string>, n: nat, changed: seq<DiffLine>,
                                               rows: seq<nat>, kept: seq<nat>, start: nat, stop: nat)
    requires ListsAddedRows(rows, lines) && Numbered(lines, n, changed, rows, kept) && start < stop <= |changed|
    ensures var stretch := changed[start..stop];
            && stretch[0].newNo.Some?
            && (Contiguous(stretch, stretch[0].newNo.value) <==> NothingKept(lines, rows[start], rows[stop - 1]))
  {
    var (stretch, gaps) := (changed[start..stop], kept[start..stop]);
    forall i | 0 <= i < |gaps|
      ensures gaps[0] <= gaps[i] <= gaps[|gaps| - 1] && stretch[i].newNo == Some(n + start + i + gaps[i])
    {
      var (k, last) := (start + i, stop - 1);
      assert NumberedAt(lines, n, changed, rows, kept, start) && NumberedAt(lines, n, changed, rows, kept, k);
      assert NumberedAt(lines, n, changed, rows, kept, last);
      assert gaps[0] == kept[start] && gaps[i] == kept[k] && gaps[|gaps| - 1] == kept[last] && stretch[i] == changed[k];
      KeptBetween(lines, rows, start, k);
      KeptBetween(lines, rows, k, last);
    }
    var last := stop - 1;
    assert NumberedAt(lines, n, changed, rows, kept, start) && NumberedAt(lines, n, changed, rows, kept, last);
    KeptBetween(lines, rows, start, last);
    ContiguousExactlyWhenNoGap(stretch, n + start, gaps);
  }

  /** The unit recorded the lines of a hunk, walked from readable starts. */
  ghost predicate RecordsHunk(unit: ReviewUnit, lines: seq<string>, o: nat, n: nat)
  {
    unit.changed == Changes(lines, Some(o), Some(n)) && NoBreaks(lines)
  }

  lemma {:induction false} SplitsHaveReadableStarts(header: string, lines: seq<string>) returns (o: nat, n: nat)
    requires NoBreaks(lines) && Splits(UnitOf(header, lines))
    ensures RecordsHunk(UnitOf(header, lines), lines, o, n)
  {
    NumberedOrNot(lines, Starts(header).0, Starts(header).1);
    o, n := Starts(header).0.value, Starts(header).1.value;
  }

  lemma {:induction false} SplitIsOfAdditions(unit: ReviewUnit, lines: seq<string>, o: nat, n: nat)
    requires RecordsHunk(unit, lines, o, n) && Splits(unit)
    ensures AllAdded(unit.changed) && Additions(unit.changed)
    ensures SplitUnit(unit) == ChunkUnits(unit.changed)
  {
    NumberedOrNot(lines, Some(o), Some(n));
    RecordedAdditions(lines, Some(o), Some(n));
  }

  /** For every hunk of every patch: a piece of its split unit, read again from its own patch, is
      itself, if and only if its line numbers run on without a gap. */
  lemma {:induction false} SplitPieceReadsBackExactlyWhenContiguous(unit: ReviewUnit, lines: seq<string>, o: nat,
      n: nat, i: nat)
    returns (piece: ReviewUnit)
    requires RecordsHunk(unit, lines, o, n) && Splits(unit) && i < |SplitUnit(unit)|
    ensures piece == SplitUnit(unit)[i]
    ensures PieceStart(i) < PieceStop(i, |unit.changed|) <= |unit.changed|
    ensures piece.changed == unit.changed[PieceStart(i)..PieceStop(i, |unit.changed|)]
    ensures piece.changed[0].newNo.Some?
    ensures ReviewUnits(piece.patch) == [piece] <==> Contiguous(piece.changed, piece.changed[0].newNo.value)
  {
    SplitIsOfAdditions(unit, lines, o, n);
    piece := SplitUnit(unit)[i];
    PieceIs(unit.changed, i);
    PiecesAreChunks(unit.changed, i);
    ChunkReadsBackExactlyWhenContiguous(piece.changed);
  }

  /** In terms of the hunk: a piece is read back if and only if no line of context stands between the
      rows of its first added line and its last. */
  lemma {:induction false} SplitPieceReadsBackExactlyWhenNothingIsKeptInside(unit: ReviewUnit, lines: seq<string>,
                                                                             o: nat, n: nat, i: nat)
    returns (piece: ReviewUnit, rows: seq<nat>, from: nat, to: nat)
    requires RecordsHunk(unit, lines, o, n) && Splits(unit) && i < |SplitUnit(unit)|
    ensures piece == SplitUnit(unit)[i] && ListsAddedRows(rows, lines) && |rows| == |unit.changed|
    ensures from == PieceStart(i) < to == PieceStop(i, |rows|) <= |rows|
    ensures ReviewUnits(piece.patch) == [piece] <==> NothingKept(lines, rows[from], rows[to - 1])
  {
    piece := SplitPieceReadsBackExactlyWhenContiguous(unit, lines, o, n, i);
    var kept;
    rows, kept := RowsOf(lines, o, n, unit.changed);
    from, to := PieceStart(i), PieceStop(i, |rows|);
    StretchIsContiguous(lines, n, unit.changed, rows, kept, from, to);
  }

  /** So for every piece of every hunk of every patch. */
  lemma {:induction false} EveryPieceReadsBackExactlyWhenNothingIsKeptInside(patch: string, h: nat, i: nat)
    returns (hunk: RawHunk, piece: ReviewUnit, rows: seq<nat>, from: nat, to: nat)
    requires h < |Segments(SplitLines(patch))|
    requires var hunk := Segments(SplitLines(patch))[h];
             Splits(UnitOf(hunk.header, hunk.body)) && i < |SplitUnit(UnitOf(hunk.header, hunk.body))|
    ensures hunk == Segments(SplitLines(patch))[h] && piece == SplitUnit(UnitOf(hunk.header, hunk.body))[i]
    ensures ListsAddedRows(rows, hunk.body) && from == PieceStart(i) < to == PieceStop(i, |rows|) <= |rows|
    ensures ReviewUnits(piece.patch) == [piece] <==> NothingKept(hunk.body, rows[from], rows[to - 1])
  {
    hunk := Segments(SplitLines(patch))[h];
    SplitLinesHaveNoBreaks(patch);
    SegmentsAreProper(SplitLines(patch));
    var o, n := SplitsHaveReadableStarts(hunk.header, hunk.body);
    piece, rows, from, to :=
      SplitPieceReadsBackExactlyWhenNothingIsKeptInside(UnitOf(hunk.header, hunk.body), hunk.body, o, n, i);
  }

  /** All pieces but the last have eighty lines, and the last has what is left. */
  ghost predicate FullButLast(pieces: seq<ReviewUnit>, count: nat)
  {
    && 80 * |pieces| - 80 < count <= 80 * |pieces|
    && forall i :: 0 <= i < |pieces| - 1 ==> |pieces[i].changed| == 80
  }

  lemma FullButLastStep(first: ReviewUnit, rest: seq<ReviewUnit>, left: nat, count: nat)
    requires FullButLast(rest, left) && rest != [] && |first.changed| == 80 && count == left + 80
    ensures FullButLast([first] + rest, count)
  {
  }

  lemma {:induction false} ChunksAreFullButLast(lines: seq<DiffLine>)
    requires AllAdded(lines) && lines != []
    ensures FullButLast(ChunkUnits(lines), |lines|) && ChunkUnits(lines) != []
    decreases |lines|
  {
    var n := if |lines| < MAX_LINES_PER_REVIEW_UNIT then |lines| else MAX_LINES_PER_REVIEW_UNIT;
    var (first, rest) := (lines[..n], lines[n..]);
    ChunkUnitsStep(lines, first, rest);
    if rest != [] {
      ChunksAreFullButLast(rest);
      FullButLastStep(ChunkUnit(first), ChunkUnits(rest), |rest|, |lines|);
    } else {
      assert ChunkUnits(rest) == [];
    }
  }

  lemma {:induction false} AdditionsAreCandidates(changed: seq<DiffLine>)
    requires OnlyAdditions(changed) && Filter(changed, HasNumber) == changed
    ensures |CandidateLines(changed)| == |changed|
  {
    NumberedAdditions(changed);
    CandidatesOfAdded(changed);
  }

  /** A hunk is split exactly when it records more than eighty lines and all of them are added; its pieces are
      then as few as fit, each full but the last. */
  lemma {:induction false} SplitExactlyWhenLargeAndAdded(header: string, lines: seq<string>)
    requires Starts(header).1.Some?
    ensures var (unit, pieces) := (UnitOf(header, lines), SplitUnit(UnitOf(header, lines)));
            if |unit.changed| > 80 && forall i :: 0 <= i < |unit.changed| ==> unit.changed[i].marker == '+'
            then FullButLast(pieces, |unit.changed|) && |pieces| > 1
            else pieces == [unit]
  {
    var unit := UnitOf(header, lines);
    NumberedOrNot(lines, Starts(header).0, Starts(header).1);
    if OnlyAdditions(unit.changed) {
      AdditionsAreCandidates(unit.changed);
      NumberedAdditions(unit.changed);
      if |unit.changed| > 80 {
        ChunksAreFullButLast(unit.changed);
      }
    }
  }

  // ----- a hunk that is split badly ----------------------------------------------------------

  /** One added line, one kept, and eighty more added. */
  function Gapped(): seq<string>
  {
    ["+a", " b"] + seq(MAX_LINES_PER_REVIEW_UNIT, _ => "+a")
  }

  lemma {:induction false} RepeatedAdditions(k: nat, o: nat, n: nat)
    ensures var changed := Changes(seq(k, _ => "+a"), Some(o), Some(n));
            |changed| == k && AllAdded(changed)
  {
    if k > 0 {
      var lines := seq(k, _ => "+a");
      assert lines[1..] == seq(k - 1, _ => "+a");
      RepeatedAdditions(k - 1, o, n + 1);
    }
  }

  lemma {:induction false} GappedRecords()
    ensures var changed := Changes(Gapped(), Some(1), Some(1));
            |changed| == MAX_LINES_PER_REVIEW_UNIT + 1 && AllAdded(changed)
  {
    var more := seq(MAX_LINES_PER_REVIEW_UNIT, _ => "+a");
    RepeatedAdditions(MAX_LINES_PER_REVIEW_UNIT, 2, 3);
    assert Gapped()[1..] == [" b"] + more && ([" b"] + more)[1..] == more;
    assert Changes([" b"] + more, Some(1), Some(2)) == Changes(more, Some(2), Some(3));
  }

  /** Its unit: one old line, eighty-two new ones. */
  function GappedUnit(): ReviewUnit
  {
    UnitOf(HeaderText(1, None, 1, Some(82), ""), Gapped())
  }

  lemma {:induction false} GappedSplits()
    ensures Splits(GappedUnit()) && GappedUnit().changed == Changes(Gapped(), Some(1), Some(1))
  {
    ParseHeaderOf(1, None, 1, Some(82), "");
    GappedRecords();
    CandidatesOfAdded(GappedUnit().changed);
    NumberedOrNot(Gapped(), Some(1), Some(1));
  }

  /** The first piece of that hunk claims eighty lines in a row, and is not read back. */
  lemma {:induction false} GappedPieceIsNotReadBack()
    ensures Splits(GappedUnit()) && SplitUnit(GappedUnit()) != []
    ensures ReviewUnits(SplitUnit(GappedUnit())[0].patch) != [SplitUnit(GappedUnit())[0]]
  {
    GappedSplits();
    GappedUnbroken();
    GappedRecords();
    KeptLineSpoilsTheFirstPiece(GappedUnit(), Gapped(), 1, 1);
  }

  /** A kept line between the first additions spoils the first piece. */
  lemma {:induction false} KeptLineSpoilsTheFirstPiece(unit: ReviewUnit, lines: seq<string>, o: nat, n: nat)
    requires RecordsHunk(unit, lines, o, n) && Splits(unit)
    requires |lines| > 2 && IsAdded(lines[0]) && IsContext(lines[1]) && |unit.changed| > MAX_LINES_PER_REVIEW_UNIT
    ensures SplitUnit(unit) != [] && ReviewUnits(SplitUnit(unit)[0].patch) != [SplitUnit(unit)[0]]
  {
    SplitIsOfAdditions(unit, lines, o, n);
    var piece, rows, from, to := SplitPieceReadsBackExactlyWhenNothingIsKeptInside(unit, lines, o, n, 0);
    FirstRows(rows, lines, to);
  }

  lemma {:induction false} FirstRows(rows: seq<nat>, lines: seq<string>, to: nat)
    requires ListsAddedRows(rows, lines) && 2 < to <= |rows|
    requires |lines| > 2 && IsAdded(lines[0])
    ensures rows[0] == 0 && rows[to - 1] > 1
  {
    assert 0 in rows && rows[0] in rows;
    var k :| 0 <= k < |rows| && rows[k] == 0;
    assert rows[0] < rows[1] < rows[2];
  }

  lemma {:induction false} GappedUnbroken()
    ensures NoBreaks(Gapped())
  {
    assert NoBreak("+a") && NoBreak(" b");
  }
}
