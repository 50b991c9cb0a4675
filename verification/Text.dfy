/** Strings as the runner sees them: Python's line splitting, stripping, joining, ordering and
    decimal printing, with the few laws the diff pipeline and the rankings rest on. */
module Text {

  datatype Option<+T> = None | Some(value: T)

  // ----- ordering ----------------------------------------------------------------------------

  /** Python's `<=` on strings: by code point, a proper prefix first. */
  predicate Le(a: string, b: string)
  {
    a == [] || (b != [] && (a[0] < b[0] || (a[0] == b[0] && Le(a[1..], b[1..]))))
  }

  lemma {:induction false} LeTotal(a: string, b: string)
    ensures Le(a, b) || Le(b, a)
  {
    if a != [] && b != [] && a[0] == b[0] {
      LeTotal(a[1..], b[1..]);
    }
  }

  lemma {:induction false} LeTransitive(a: string, b: string, c: string)
    requires Le(a, b) && Le(b, c)
    ensures Le(a, c)
  {
    if a != [] && a[0] == b[0] && b[0] == c[0] {
      LeTransitive(a[1..], b[1..], c[1..]);
    }
  }

  lemma {:induction false} LeAntisymmetric(a: string, b: string)
    requires Le(a, b) && Le(b, a)
    ensures a == b
  {
    if a != [] && b != [] {
      LeAntisymmetric(a[1..], b[1..]);
      assert a == [a[0]] + a[1..] && b == [b[0]] + b[1..];
    }
  }

  /** The strings agree up to position i, and there a has the smaller character. */
  predicate SmallerAt(a: string, b: string, i: nat)
  {
    i < |a| && i < |b| && a[..i] == b[..i] && a[i] < b[i]
  }

  /** This is the order of a dictionary: a begins b, or has the smaller character where they first differ. */
  lemma {:induction false} LeIsDictionaryOrder(a: string, b: string)
    ensures Le(a, b) <==> a <= b || exists i: nat :: SmallerAt(a, b, i)
  {
    if a != [] && b != [] {
      if a[0] == b[0] {
        LeIsDictionaryOrder(a[1..], b[1..]);
        forall i: nat
          ensures SmallerAt(a[1..], b[1..], i) <==> SmallerAt(a, b, i + 1)
        {
          SmallerLater(a, b, a[1..], b[1..], i, i + 1);
        }
        if exists i: nat :: SmallerAt(a, b, i) {
          var i: nat :| SmallerAt(a, b, i);
          assert i != 0;
          var before: nat := i - 1;
          assert SmallerAt(a[1..], b[1..], before);
        }
      } else if a[0] < b[0] {
        assert SmallerAt(a, b, 0);
      }
    }
  }

  lemma {:induction false} SmallerLater(a: string, b: string, a': string, b': string, i: nat, next: nat)
    requires a != [] && b != [] && a[0] == b[0] && a' == a[1..] && b' == b[1..] && next == i + 1
    ensures SmallerAt(a', b', i) <==> SmallerAt(a, b, next)
  {
    if next < |a| && next < |b| {
      assert a[..next] == [a[0]] + a'[..i] && b[..next] == [b[0]] + b'[..i];
      assert a[..next][1..] == a'[..i] && b[..next][1..] == b'[..i];
    }
  }

  // ----- lines -------------------------------------------------------------------------------

  /** The characters at which `str.splitlines` ends a line. */
  predicate IsBreak(c: char)
  {
    '\U{a}' <= c <= '\U{d}' || '\U{1c}' <= c <= '\U{1e}' || c == '\U{85}' || c == '\U{2028}' || c == '\U{2029}'
  }

  /** The characters `str.strip` removes. */
  predicate IsSpace(c: char)
  {
    IsBreak(c) || c == '\t' || c == ' ' || c == '\U{1f}' || c == '\U{a0}' || c == '\U{1680}'
    || '\U{2000}' <= c <= '\U{200a}' || c == '\U{202f}' || c == '\U{205f}' || c == '\U{3000}'
  }

  /** By code point: ten characters end a line, and nineteen more are blank. */
  lemma BreaksAndSpacesAre(c: char)
    ensures IsBreak(c) <==> c as int in {10, 11, 12, 13, 28, 29, 30, 133, 8232, 8233}
    ensures IsSpace(c) && !IsBreak(c) <==>
            c as int in {9, 31, 32, 160, 5760, 8192, 8193, 8194, 8195, 8196, 8197, 8198, 8199, 8200, 8201, 8202, 8239,
                         8287, 12288}
  {
  }

  predicate NoBreak(s: string)
  {
    forall i :: 0 <= i < |s| ==> !IsBreak(s[i])
  }

  predicate NoBreaks(lines: seq<string>)
  {
    forall i :: 0 <= i < |lines| ==> NoBreak(lines[i])
  }

  /** The position of the first line break, or the length. */
  function BreakAt(s: string): (k: nat)
    ensures k <= |s|
  {
    if s == [] || IsBreak(s[0]) then 0 else 1 + BreakAt(s[1..])
  }

  lemma {:induction false} BreakAtIsFirst(s: string)
    ensures NoBreak(s[..BreakAt(s)])
    ensures BreakAt(s) < |s| ==> IsBreak(s[BreakAt(s)])
    ensures BreakAt(s) == |s| <==> NoBreak(s)
  {
    if s != [] && !IsBreak(s[0]) {
      BreakAtIsFirst(s[1..]);
      assert forall i :: 1 <= i < |s| ==> s[i] == s[1..][i - 1];
    }
  }

  /** How many characters the line break at k takes. */
  function BreakLength(s: string, k: nat): (n: nat)
    requires k < |s|
    ensures 1 <= n && k + n <= |s|
  {
    if s[k] == '\r' && k + 1 < |s| && s[k + 1] == '\n' then 2 else 1
  }

  /** `str.splitlines()`: a carriage return and line feed end one line together, and a trailing
      break opens no further line. */
  function SplitLines(s: string): (lines: seq<string>)
  {
    if s == [] then []
    else
      var k := BreakAt(s);
      if k == |s| then [s]
      else
        [s[..k]] + SplitLines(s[k + BreakLength(s, k)..])
  }

  /** `"\n".join(lines)` */
  function Join(lines: seq<string>): string
  {
    if lines == [] then []
    else if |lines| == 1 then lines[0]
    else lines[0] + "\n" + Join(lines[1..])
  }

  lemma {:induction false} BreakAtAppend(a: string, b: string)
    ensures BreakAt(a + b) == if BreakAt(a) < |a| then BreakAt(a) else |a| + BreakAt(b)
  {
    if a == [] {
      assert a + b == b;
    } else {
      assert (a + b)[1..] == a[1..] + b;
      BreakAtAppend(a[1..], b);
    }
  }

  lemma {:induction false} SplitLinesHaveNoBreaks(s: string)
    ensures NoBreaks(SplitLines(s))
  {
    if s != [] {
      BreakAtIsFirst(s);
      var k := BreakAt(s);
      if k < |s| {
        SplitLinesHaveNoBreaks(s[k + BreakLength(s, k)..]);
      }
    }
  }

  /** The separator ends a line, given what follows it. */
  predicate Separates(sep: string, rest: string)
  {
    || sep == "\r\n"
    || (|sep| == 1 && IsBreak(sep[0]) && !(sep[0] == '\r' && rest != [] && rest[0] == '\n'))
  }

  lemma Associates<T>(a: seq<T>, b: seq<T>, c: seq<T>)
    ensures a + (b + c) == a + b + c
  {
  }

  lemma {:induction false} SameParts<T>(a: seq<T>, b: seq<T>, c: seq<T>, d: seq<T>)
    requires |a| == |c|
    ensures a + b == c + d <==> a == c && b == d
  {
    assert a == (a + b)[..|a|] && c == (c + d)[..|c|];
    assert b == (a + b)[|a|..] && d == (c + d)[|c|..];
  }

  lemma {:induction false} BreakIsFound(head: string, sep: string, rest: string)
    requires NoBreak(head) && Separates(sep, rest)
    ensures var s := head + (sep + rest);
            BreakAt(s) == |head| && |head| < |s| && BreakLength(s, |head|) == |sep|
  {
    BreakAtIsFirst(head);
    BreakAtAppend(head, sep + rest);
    assert BreakAt(sep + rest) == 0;
  }

  lemma PartsOf(head: string, sep: string, rest: string)
    ensures var s := head + (sep + rest);
            s[..|head|] == head && s[|head| + |sep|..] == rest
  {
  }

  lemma {:induction false} SplitAtBreak(head: string, sep: string, rest: string)
    requires NoBreak(head) && Separates(sep, rest)
    ensures SplitLines(head + (sep + rest)) == [head] + SplitLines(rest)
  {
    BreakIsFound(head, sep, rest);
    PartsOf(head, sep, rest);
  }

  /** A line that holds a break, taken apart at the first. */
  lemma {:induction false} FirstBreak(s: string) returns (head: string, sep: string, rest: string)
    requires !NoBreak(s)
    ensures s == head + (sep + rest) && NoBreak(head) && Separates(sep, rest) && sep != []
  {
    BreakAtIsFirst(s);
    var k := BreakAt(s);
    var n := BreakLength(s, k);
    head, sep, rest := s[..k], s[k..k + n], s[k + n..];
  }

  /** Splitting undoes joining, as long as no piece holds a break and the last is not empty. */
  lemma {:induction false} SplitJoin(lines: seq<string>)
    requires NoBreaks(lines)
    requires lines != [] ==> lines[|lines| - 1] != []
    ensures SplitLines(Join(lines)) == lines
  {
    if |lines| == 1 {
      OneLine(lines[0]);
    } else if lines != [] {
      var (first, rest) := (lines[0], lines[1..]);
      assert forall i :: 0 <= i < |rest| ==> rest[i] == lines[i + 1];
      SplitJoin(rest);
      SplitFirst(first, Join(rest));
      assert Join(lines) == first + "\n" + Join(rest);
    }
  }

  lemma {:induction false} SplitFirst(first: string, rest: string)
    requires NoBreak(first)
    ensures SplitLines(first + "\n" + rest) == [first] + SplitLines(rest)
  {
    SplitAtBreak(first, "\n", rest);
    Associates(first, "\n", rest);
  }

  lemma {:induction false} OneLine(line: string)
    requires NoBreak(line) && line != []
    ensures SplitLines(line) == [line]
  {
    BreakAtIsFirst(line);
  }

  // ----- lines that hold breaks --------------------------------------------------------------

  /** What a line reads as when it is printed and split again: itself, or its pieces. */
  function Pieces(line: string): (r: seq<string>)
    ensures r != []
  {
    SplitLines(line + "\n")
  }

  /** The first piece, which is read in the line's place. */
  function FirstPiece(line: string): string
  {
    Pieces(line)[0]
  }

  /** The further pieces, which are read as lines of their own. */
  function Extras(line: string): seq<string>
  {
    Pieces(line)[1..]
  }

  function ReadLines(lines: seq<string>): seq<string>
  {
    if lines == [] then [] else Pieces(lines[0]) + ReadLines(lines[1..])
  }

  lemma {:induction false} PiecesHaveNoBreaks(line: string)
    ensures NoBreaks(Pieces(line)) && NoBreak(FirstPiece(line)) && NoBreaks(Extras(line))
  {
    SplitLinesHaveNoBreaks(line + "\n");
  }

  lemma {:induction false} ReadLinesHaveNoBreaks(lines: seq<string>)
    ensures NoBreaks(ReadLines(lines))
  {
    if lines != [] {
      PiecesHaveNoBreaks(lines[0]);
      ReadLinesHaveNoBreaks(lines[1..]);
    }
  }

  lemma {:induction false} ReadLinesAppend(a: seq<string>, b: seq<string>)
    ensures ReadLines(a + b) == ReadLines(a) + ReadLines(b)
  {
    if a == [] {
      assert a + b == b;
    } else {
      assert (a + b)[1..] == a[1..] + b;
      ReadLinesAppend(a[1..], b);
    }
  }

  /** A line without a break is read as it is, and only such a line is. */
  lemma {:induction false} PiecesOfUnbroken(line: string)
    ensures NoBreak(line) <==> Pieces(line) == [line]
    ensures NoBreak(line) ==> FirstPiece(line) == line && Extras(line) == []
  {
    PiecesHaveNoBreaks(line);
    assert NoBreak(Pieces(line)[0]);
    if NoBreak(line) {
      SplitAtBreak(line, "\n", "");
      assert line + ("\n" + "") == line + "\n";
    }
  }

  /** What goes before the first break stays with the first piece. */
  lemma {:induction false} PiecesOfPrefixed(a: string, line: string)
    requires NoBreak(a)
    ensures FirstPiece(a + line) == a + FirstPiece(line)
    ensures Extras(a + line) == Extras(line)
  {
    var s := line + "\n";
    assert s[|line|] == '\n';
    var head, sep, rest := FirstBreak(s);
    SplitAtBreak(head, sep, rest);
    SplitAtBreak(a + head, sep, rest);
    Associates(a, line, "\n");
    Associates(a, head, sep + rest);
  }

  /** A carriage return at the end of a line makes one break with the newline after it. */
  lemma {:induction false} ReturnAndNewline(head: string, more: string)
    requires NoBreak(head)
    ensures SplitLines(head + ("\r" + []) + ("\n" + more)) == [head] + SplitLines(more)
  {
    var (r, n) := ("\r" + [], "\n");
    assert r + n == "\r\n";
    SplitAtBreak(head, r + n, more);
    Associates(r, n, more);
    Associates(head, r, n + more);
  }

  /** Text after a line that holds a break leaves the break where it is. */
  lemma {:induction false} BreakThenMore(head: string, sep: string, rest: string, more: string)
    requires NoBreak(head) && Separates(sep, rest) && !(sep == "\r" && rest == [])
    ensures SplitLines(head + (sep + rest) + more) == [head] + SplitLines(rest + more)
  {
    SplitAtBreak(head, sep, rest + more);
    Associates(sep, rest, more);
    Associates(head, sep + rest, more);
  }

  lemma {:induction false} NewlineAfterReturn(head: string, b: string)
    requires NoBreak(head)
    ensures SplitLines(head + ("\r" + []) + ("\n" + b)) == Pieces(head + ("\r" + [])) + SplitLines(b)
  {
    ReturnAndNewline(head, b);
    ReturnAndNewline(head, []);
    assert "\n" + [] == "\n";
  }

  lemma {:induction false} NewlineAfterBreak(head: string, sep: string, rest: string, b: string)
    requires NoBreak(head) && Separates(sep, rest) && !(sep == "\r" && rest == [])
    requires SplitLines(rest + ("\n" + b)) == Pieces(rest) + SplitLines(b)
    ensures SplitLines(head + (sep + rest) + ("\n" + b)) == Pieces(head + (sep + rest)) + SplitLines(b)
  {
    BreakThenMore(head, sep, rest, "\n" + b);
    BreakThenMore(head, sep, rest, "\n");
    Associates([head], Pieces(rest), SplitLines(b));
  }

  /** A newline cuts the text in two. */
  lemma {:induction false} SplitAtNewline(a: string, b: string)
    ensures SplitLines(a + ("\n" + b)) == Pieces(a) + SplitLines(b)
    decreases |a|
  {
    if NoBreak(a) {
      SplitAtBreak(a, "\n", b);
      PiecesOfUnbroken(a);
    } else {
      var head, sep, rest := FirstBreak(a);
      if sep == "\r" && rest == [] {
        NewlineAfterReturn(head, b);
      } else {
        SplitAtNewline(rest, b);
        NewlineAfterBreak(head, sep, rest, b);
      }
    }
  }

  /** A last line without its newline reads the same, except that an empty last piece is lost. */
  lemma {:induction false} LastLineReads(line: string) returns (tail: seq<string>)
    ensures tail == [] || tail == [""]
    ensures line == "" ==> tail == [""]
    ensures SplitLines(line) + tail == Pieces(line)
    decreases |line|
  {
    if NoBreak(line) {
      PiecesOfUnbroken(line);
      BreakAtIsFirst(line);
      tail := if line == [] then [""] else [];
    } else {
      var head, sep, rest := FirstBreak(line);
      SplitAtBreak(head, sep, rest);
      if sep == "\r" && rest == [] {
        ReturnAndNewline(head, []);
        assert "\n" + [] == "\n";
        tail := [];
      } else {
        BreakThenMore(head, sep, rest, "\n");
        tail := LastLineReads(rest);
        Associates([head], SplitLines(rest), tail);
      }
    }
  }

  predicate EndsBlank(lines: seq<string>)
  {
    lines != [] && lines[|lines| - 1] == ""
  }

  /** Splitting joined lines gives the pieces of each, except that an empty last piece is lost. */
  lemma {:induction false} JoinedLinesRead(lines: seq<string>) returns (tail: seq<string>)
    ensures tail == [] || tail == [""]
    ensures EndsBlank(lines) ==> tail == [""]
    ensures SplitLines(Join(lines)) + tail == ReadLines(lines)
  {
    if lines == [] {
      tail := [];
    } else if |lines| == 1 {
      tail := LastLineReads(lines[0]);
      assert ReadLines(lines[1..]) == [];
    } else {
      tail := JoinedLinesRead(lines[1..]);
      SplitAtNewline(lines[0], Join(lines[1..]));
      Associates(lines[0], "\n", Join(lines[1..]));
      Associates(Pieces(lines[0]), SplitLines(Join(lines[1..])), tail);
    }
  }

  /** The lines as a text, whose last line may end in a newline too. */
  function Written(lines: seq<string>, ended: bool): string
  {
    if ended && lines != [] then Join(lines) + "\n" else Join(lines)
  }

  /** Nothing is lost when the last line is ended. */
  lemma {:induction false} EndedLinesRead(lines: seq<string>)
    requires lines != []
    ensures SplitLines(Join(lines) + "\n") == ReadLines(lines)
  {
    var (first, rest) := (lines[0], lines[1..]);
    if rest == [] {
      assert ReadLines(lines) == Pieces(first) + [];
    } else {
      EndedLinesRead(rest);
      SplitAtNewline(first, Join(rest) + "\n");
      Associates("\n", Join(rest), "\n");
      Associates(first, "\n" + Join(rest), "\n");
      Associates(first, "\n", Join(rest));
    }
  }

  lemma {:induction false} WrittenLinesRead(lines: seq<string>, ended: bool) returns (tail: seq<string>)
    ensures tail == [] || tail == [""]
    ensures ended ==> tail == []
    ensures !ended && EndsBlank(lines) ==> tail == [""]
    ensures SplitLines(Written(lines, ended)) + tail == ReadLines(lines)
  {
    if ended && lines != [] {
      tail := [];
      EndedLinesRead(lines);
    } else if lines == [] {
      tail := [];
    } else {
      tail := JoinedLinesRead(lines);
    }
  }

  // ----- stripping ---------------------------------------------------------------------------

  function LStrip(s: string): (r: string)
    ensures r != [] ==> !IsSpace(r[0])
  {
    if s != [] && IsSpace(s[0]) then LStrip(s[1..]) else s
  }

  function RStrip(s: string): (r: string)
    ensures r <= s
    ensures r != [] ==> !IsSpace(r[|r| - 1])
    ensures forall i :: |r| <= i < |s| ==> IsSpace(s[i])
  {
    if s != [] && IsSpace(s[|s| - 1]) then RStrip(s[..|s| - 1]) else s
  }

  /** `str.strip()` */
  function Strip(s: string): string
  {
    RStrip(LStrip(s))
  }

  lemma {:induction false} RStripAppend(a: string, b: string)
    ensures RStrip(a + b) == if RStrip(b) == [] then RStrip(a) else a + RStrip(b)
  {
    if b == [] {
      assert a + b == a;
    } else if IsSpace(b[|b| - 1]) {
      assert (a + b)[..|a + b| - 1] == a + b[..|b| - 1];
      RStripAppend(a, b[..|b| - 1]);
    }
  }

  // ----- decimals ----------------------------------------------------------------------------

  predicate IsDigit(c: char)
  {
    '0' <= c <= '9'
  }

  predicate AllDigits(s: string)
  {
    forall i :: 0 <= i < |s| ==> IsDigit(s[i])
  }

  function Digit(d: nat): (c: char)
    requires d < 10
    ensures IsDigit(c) && DigitValue(c) == d
  {
    ('0' as int + d) as char
  }

  function DigitValue(c: char): (d: nat)
    requires IsDigit(c)
    ensures d < 10
  {
    c as int - '0' as int
  }

  /** `str(n)` */
  function Decimal(n: nat): (s: string)
    ensures s != [] && AllDigits(s)
  {
    if n < 10 then [Digit(n)] else Decimal(n / 10) + [Digit(n % 10)]
  }

  /** `int(s)` for a string of digits; leading zeros are allowed. */
  function Value(s: string): nat
    requires AllDigits(s)
  {
    if s == [] then 0 else 10 * Value(s[..|s| - 1]) + DigitValue(s[|s| - 1])
  }

  /** Printing a number and reading it back is the identity. */
  lemma {:induction false} DecimalRoundTrip(n: nat)
    ensures Value(Decimal(n)) == n
  {
    if n < 10 {
      assert Decimal(n)[..0] == [];
      assert Value([]) == 0;
    } else {
      DecimalRoundTrip(n / 10);
      var s := Decimal(n);
      assert s[..|s| - 1] == Decimal(n / 10);
    }
  }

  /** The length of the longest leading run of digits: what a greedy `\d+` takes. */
  function DigitRun(s: string): (k: nat)
    ensures k <= |s| && AllDigits(s[..k])
    ensures k < |s| ==> !IsDigit(s[k])
  {
    if s == [] || !IsDigit(s[0]) then 0
    else
      var m := DigitRun(s[1..]);
      assert forall i :: 1 <= i < 1 + m ==> s[i] == s[1..][..m][i - 1];
      1 + m
  }

  lemma {:induction false} DigitRunOf(d: string, rest: string)
    requires AllDigits(d)
    requires rest != [] ==> !IsDigit(rest[0])
    ensures DigitRun(d + rest) == |d|
    ensures (d + rest)[..|d|] == d && (d + rest)[|d|..] == rest
  {
    if d == [] {
      assert d + rest == rest;
    } else {
      assert (d + rest)[1..] == d[1..] + rest;
      DigitRunOf(d[1..], rest);
    }
  }
}
