/** What the greedy batch guarantees: feasibility, maximality, a factor of two against any other
    feasible batch, fairness between files, and two non-interference laws. */
module SchedulerTheorems {
  import opened Text
  import opened Records
  import opened Sorting
  import opened Scheduler

  predicate SamePair(a: Candidate, b: Candidate)
  {
    a.decision.filePath == b.decision.filePath && a.decision.ruleNo == b.decision.ruleNo
  }

  /** A batch nobody could object to: no (file, rule) pair twice, and both caps respected. */
  ghost predicate Feasible(picks: seq<Candidate>, caps: Caps)
  {
    && (forall i, j :: 0 <= i < j < |picks| ==> !SamePair(picks[i], picks[j]))
    && (forall c :: c in picks ==> Count(picks, OnFile(c.decision.filePath)) <= caps.file)
    && (forall c :: c in picks ==> Count(picks, OnRule(c.decision.ruleNo)) <= caps.rule)
  }

  // ----- one step at a time ------------------------------------------------------------------

  /** Every prefix of a batch is the batch of that size. */
  lemma {:induction false} BatchPrefix(ordered: seq<Candidate>, picks: seq<Candidate>, caps: Caps, small: int,
                                       large: int)
    requires |picks| <= small <= large
    ensures var whole := Greedy(ordered, picks, caps, large);
            Greedy(ordered, picks, caps, small) == if small <= |whole| then whole[..small] else whole
    decreases large - |picks|
  {
    var next := Next(ordered, picks, caps, |ordered|);
    if |picks| < small && next.Some? {
      BatchPrefix(ordered, picks + [ordered[next.value]], caps, small, large);
    }
  }

  /** Pick n is the first open candidate after the n picks before it. */
  lemma {:induction false} PickIsNext(ordered: seq<Candidate>, caps: Caps, batch: int, n: nat)
    requires n < |Greedy(ordered, [], caps, batch)|
    ensures var whole := Greedy(ordered, [], caps, batch);
            && Greedy(ordered, [], caps, n) == whole[..n]
            && Next(ordered, whole[..n], caps, |ordered|).Some?
            && whole[n] == ordered[Next(ordered, whole[..n], caps, |ordered|).value]
  {
    var whole := Greedy(ordered, [], caps, batch);
    BatchPrefix(ordered, [], caps, n, batch);
    BatchPrefix(ordered, [], caps, n + 1, batch);
    NextPick(ordered, [], caps, n);
    assert whole[..n + 1][..n] == whole[..n] && whole[..n + 1][n] == whole[n];
  }

  /** A batch one larger differs by the next open candidate, if there is one. */
  lemma {:induction false} NextPick(ordered: seq<Candidate>, picks: seq<Candidate>, caps: Caps, n: nat)
    requires |picks| <= n
    ensures var before := Greedy(ordered, picks, caps, n);
            var next := Next(ordered, before, caps, |ordered|);
            Greedy(ordered, picks, caps, n + 1) ==
            if |before| == n && next.Some? then before + [ordered[next.value]] else before
    decreases n - |picks|
  {
    var next := Next(ordered, picks, caps, |ordered|);
    if |picks| < n && next.Some? {
      NextPick(ordered, picks + [ordered[next.value]], caps, n);
    }
  }

  // ----- feasibility -------------------------------------------------------------------------

  lemma {:induction false} FeasiblePush(picks: seq<Candidate>, x: Candidate, caps: Caps)
    requires Feasible(picks, caps) && !Blocked(picks, x, caps)
    ensures Feasible(picks + [x], caps)
  {
    var after := picks + [x];
    CountPositive(picks, OnPair(x.decision.filePath, x.decision.ruleNo));
    forall i | 0 <= i < |picks|
      ensures !SamePair(picks[i], x)
    {
      assert !OnPair(x.decision.filePath, x.decision.ruleNo)(picks[i]);
    }
    forall c | c in after
      ensures Count(after, OnFile(c.decision.filePath)) <= caps.file
      ensures Count(after, OnRule(c.decision.ruleNo)) <= caps.rule
    {
      CountPush(picks, x, OnFile(c.decision.filePath));
      CountPush(picks, x, OnRule(c.decision.ruleNo));
    }
  }

  lemma {:induction false} GreedyFeasible(ordered: seq<Candidate>, picks: seq<Candidate>, caps: Caps, batch: int)
    requires Feasible(picks, caps)
    ensures Feasible(Greedy(ordered, picks, caps, batch), caps)
    decreases batch - |picks|
  {
    var next := Next(ordered, picks, caps, |ordered|);
    if |picks| < batch && next.Some? {
      FeasiblePush(picks, ordered[next.value], caps);
      GreedyFeasible(ordered, picks + [ordered[next.value]], caps, batch);
    }
  }

  /** A feasible batch repeats nothing, so it takes each candidate at most once. */
  lemma {:induction false} FeasibleIsSub(picks: seq<Candidate>, from: seq<Candidate>, caps: Caps)
    requires Feasible(picks, caps)
    requires forall c :: c in picks ==> c in from
    ensures multiset(picks) <= multiset(from)
  {
    forall c: Candidate
      ensures multiset(picks)[c] <= multiset(from)[c]
    {
      NoRepeat(picks, c);
      assert c in picks ==> c in multiset(from);
    }
  }

  lemma {:induction false} NoRepeat(picks: seq<Candidate>, c: Candidate)
    requires forall i, j :: 0 <= i < j < |picks| ==> !SamePair(picks[i], picks[j])
    ensures multiset(picks)[c] <= 1
    ensures c !in picks ==> multiset(picks)[c] == 0
  {
    if picks != [] {
      NoRepeat(picks[1..], c);
      assert picks == [picks[0]] + picks[1..];
      if c in picks[1..] {
        var i :| 0 <= i < |picks[1..]| && picks[1..][i] == c;
        assert !SamePair(picks[0], picks[i + 1]);
      }
    }
  }

  // ----- maximality --------------------------------------------------------------------------

  lemma {:induction false} GreedyMaximal(ordered: seq<Candidate>, picks: seq<Candidate>, caps: Caps, batch: int)
    ensures var r := Greedy(ordered, picks, caps, batch);
            |r| < batch ==> forall c :: c in ordered ==> Blocked(r, c, caps)
    decreases batch - |picks|
  {
    var next := Next(ordered, picks, caps, |ordered|);
    if |picks| < batch && next.Some? {
      GreedyMaximal(ordered, picks + [ordered[next.value]], caps, batch);
    }
  }

  // ----- priority groups ---------------------------------------------------------------------

  /** Whatever has a lower group than some pick is blocked. */
  ghost predicate LowerDone(ordered: seq<Candidate>, picks: seq<Candidate>, caps: Caps)
  {
    forall c, x :: c in ordered && x in picks && c.priorityGroup < x.priorityGroup ==> Blocked(picks, c, caps)
  }

  ghost predicate GroupsAscend(picks: seq<Candidate>)
  {
    forall i, j :: 0 <= i < j < |picks| ==> picks[i].priorityGroup <= picks[j].priorityGroup
  }

  lemma {:induction false} PicksNotAbove(ordered: seq<Candidate>, picks: seq<Candidate>, caps: Caps, i: nat)
    requires LowerDone(ordered, picks, caps) && i < |ordered| && !Blocked(picks, ordered[i], caps)
    ensures forall p :: p in picks ==> p.priorityGroup <= ordered[i].priorityGroup
  {
    assert ordered[i] in ordered;
  }

  lemma {:induction false} LowerDonePush(ordered: seq<Candidate>, picks: seq<Candidate>, caps: Caps, i: nat)
    requires LowerDone(ordered, picks, caps)
    requires Next(ordered, picks, caps, |ordered|) == Some(i)
    ensures forall p :: p in picks ==> p.priorityGroup <= ordered[i].priorityGroup
    ensures LowerDone(ordered, picks + [ordered[i]], caps)
  {
    var x := ordered[i];
    PicksNotAbove(ordered, picks, caps, i);
    forall c | c in ordered && c.priorityGroup < x.priorityGroup
      ensures Blocked(picks + [x], c, caps)
    {
      var j :| 0 <= j < |ordered| && ordered[j] == c;
      BlockedPush(picks, x, c, caps);
    }
  }

  lemma {:induction false} GreedyAscends(ordered: seq<Candidate>, picks: seq<Candidate>, caps: Caps, batch: int)
    requires LowerDone(ordered, picks, caps) && GroupsAscend(picks)
    ensures GroupsAscend(Greedy(ordered, picks, caps, batch))
    decreases batch - |picks|
  {
    var next := Next(ordered, picks, caps, |ordered|);
    if |picks| < batch && next.Some? {
      LowerDonePush(ordered, picks, caps, next.value);
      GreedyAscends(ordered, picks + [ordered[next.value]], caps, batch);
    }
  }

  // ----- feasibility and maximality of the batch ---------------------------------------------

  /** The batch is a repetition-free choice of schedulable candidates within all caps, in
      non-decreasing priority groups; and when it is short, nothing publishable was left behind. */
  lemma {:induction false} BatchIsFeasibleAndMaximal(candidates: seq<Candidate>, caps: Caps, batch: int)
    ensures var r := Select(candidates, caps, batch);
            && |r| <= (if batch < 0 then 0 else batch)
            && Feasible(r, caps)
            && GroupsAscend(r)
            && multiset(r) <= multiset(candidates)
            && (forall c :: c in r ==> Schedulable(c))
            && (|r| < batch ==> forall c :: c in candidates && Schedulable(c) ==> Blocked(r, c, caps))
  {
    var ordered := Ordered(candidates);
    OrderedIsSorted(candidates);
    GreedyFeasible(ordered, [], caps, batch);
    GreedyPicksFrom(ordered, [], caps, batch);
    GreedyMaximal(ordered, [], caps, batch);
    GreedyAscends(ordered, [], caps, batch);
    FeasibleIsSub(Select(candidates, caps, batch), candidates, caps);
  }

  // ----- factor two --------------------------------------------------------------------------

  function InFiles(files: set<string>): Candidate -> bool
  {
    (c: Candidate) => c.decision.filePath in files
  }

  function InRules(rules: set<string>): Candidate -> bool
  {
    (c: Candidate) => c.decision.ruleNo in rules
  }

  function InNeither(files: set<string>, rules: set<string>): Candidate -> bool
  {
    (c: Candidate) => c.decision.filePath !in files && c.decision.ruleNo !in rules
  }

  lemma {:induction false} CountFilesSplit(xs: seq<Candidate>, files: set<string>, f: string)
    requires f in files
    ensures Count(xs, InFiles(files)) == Count(xs, OnFile(f)) + Count(xs, InFiles(files - {f}))
  {
    if xs != [] {
      CountFilesSplit(xs[..|xs| - 1], files, f);
    }
  }

  lemma {:induction false} CountRulesSplit(xs: seq<Candidate>, rules: set<string>, r: string)
    requires r in rules
    ensures Count(xs, InRules(rules)) == Count(xs, OnRule(r)) + Count(xs, InRules(rules - {r}))
  {
    if xs != [] {
      CountRulesSplit(xs[..|xs| - 1], rules, r);
    }
  }

  lemma {:induction false} CountNone(xs: seq<Candidate>)
    ensures Count(xs, InFiles({})) == 0 && Count(xs, InRules({})) == 0
  {
    if xs != [] {
      CountNone(xs[..|xs| - 1]);
    }
  }

  /** File by file no more, so no more together. */
  lemma {:induction false} FilesCharge(t: seq<Candidate>, r: seq<Candidate>, files: set<string>)
    requires forall f :: f in files ==> Count(t, OnFile(f)) <= Count(r, OnFile(f))
    ensures Count(t, InFiles(files)) <= Count(r, InFiles(files))
    decreases files
  {
    if files == {} {
      CountNone(t);
      CountNone(r);
    } else {
      var f :| f in files;
      CountFilesSplit(t, files, f);
      CountFilesSplit(r, files, f);
      FilesCharge(t, r, files - {f});
    }
  }

  lemma {:induction false} RulesCharge(t: seq<Candidate>, r: seq<Candidate>, rules: set<string>)
    requires forall u :: u in rules ==> Count(t, OnRule(u)) <= Count(r, OnRule(u))
    ensures Count(t, InRules(rules)) <= Count(r, InRules(rules))
    decreases rules
  {
    if rules == {} {
      CountNone(t);
      CountNone(r);
    } else {
      var u :| u in rules;
      CountRulesSplit(t, rules, u);
      CountRulesSplit(r, rules, u);
      RulesCharge(t, r, rules - {u});
    }
  }

  /** The (file, rule) pairs of the candidates outside both sets. */
  function PairsOutside(xs: seq<Candidate>, files: set<string>, rules: set<string>): set<(string, string)>
  {
    set c | c in xs && InNeither(files, rules)(c) :: (c.decision.filePath, c.decision.ruleNo)
  }

  lemma PairsPush(xs: seq<Candidate>, x: Candidate, files: set<string>, rules: set<string>)
    ensures PairsOutside(xs + [x], files, rules) ==
            PairsOutside(xs, files, rules)
            + if InNeither(files, rules)(x) then {(x.decision.filePath, x.decision.ruleNo)} else {}
  {
  }

  lemma PairIsNew(xs: seq<Candidate>, x: Candidate, files: set<string>, rules: set<string>)
    requires forall i :: 0 <= i < |xs| ==> !SamePair(xs[i], x)
    ensures (x.decision.filePath, x.decision.ruleNo) !in PairsOutside(xs, files, rules)
  {
  }

  ghost predicate PairsDiffer(xs: seq<Candidate>)
  {
    forall i, j :: 0 <= i < j < |xs| ==> !SamePair(xs[i], xs[j])
  }

  lemma {:induction false} PairsAtMostCount(xs: seq<Candidate>, files: set<string>, rules: set<string>)
    ensures |PairsOutside(xs, files, rules)| <= Count(xs, InNeither(files, rules))
  {
    if xs != [] {
      var front, x := xs[..|xs| - 1], xs[|xs| - 1];
      PairsAtMostCount(front, files, rules);
      assert xs == front + [x];
      PairsPush(front, x, files, rules);
    }
  }

  /** Pairs are counted by their candidates, exactly when no pair repeats. */
  lemma {:induction false} PairsCount(xs: seq<Candidate>, files: set<string>, rules: set<string>)
    requires PairsDiffer(xs)
    ensures |PairsOutside(xs, files, rules)| == Count(xs, InNeither(files, rules))
  {
    if xs != [] {
      var front, x := xs[..|xs| - 1], xs[|xs| - 1];
      PairsCount(front, files, rules);
      assert xs == front + [x];
      PairsPush(front, x, files, rules);
      PairIsNew(front, x, files, rules);
    }
  }

  lemma {:induction false} PairsCharge(t: seq<Candidate>, r: seq<Candidate>, files: set<string>, rules: set<string>)
    requires PairsDiffer(t)
    requires PairsOutside(t, files, rules) <= PairsOutside(r, files, rules)
    ensures Count(t, InNeither(files, rules)) <= Count(r, InNeither(files, rules))
  {
    PairsCount(t, files, rules);
    PairsAtMostCount(r, files, rules);
    SubsetIsSmaller(PairsOutside(t, files, rules), PairsOutside(r, files, rules));
  }

  /** Every candidate is on a listed file, on a listed rule, or on neither; at most two of these. */
  lemma {:induction false} CountCover(xs: seq<Candidate>, files: set<string>, rules: set<string>)
    ensures var total := Count(xs, InFiles(files)) + Count(xs, InRules(rules)) + Count(xs, InNeither(files, rules));
            |xs| <= total <= 2 * |xs|
  {
    if xs != [] {
      CountCover(xs[..|xs| - 1], files, rules);
    }
  }

  /** No feasible batch of the same size limit publishes more than twice as many. */
  lemma {:induction false} FactorTwo(candidates: seq<Candidate>, caps: Caps, batch: int, t: seq<Candidate>)
    requires forall c :: c in t ==> c in candidates && Schedulable(c)
    requires Feasible(t, caps)
    requires |t| <= (if batch < 0 then 0 else batch)
    ensures |t| <= 2 * |Select(candidates, caps, batch)|
  {
    var r := Select(candidates, caps, batch);
    BatchIsFeasibleAndMaximal(candidates, caps, batch);
    if |r| < batch {
      ChargeToPicks(t, r, caps);
    }
  }

  /** The files of t that have all the picks they may have. */
  function FullFiles(t: seq<Candidate>, r: seq<Candidate>, caps: Caps): set<string>
  {
    set c | c in t && Count(r, OnFile(c.decision.filePath)) >= caps.file :: c.decision.filePath
  }

  function FullRules(t: seq<Candidate>, r: seq<Candidate>, caps: Caps): set<string>
  {
    set c | c in t && Count(r, OnRule(c.decision.ruleNo)) >= caps.rule :: c.decision.ruleNo
  }

  lemma {:induction false} UnsaturatedPairIsTaken(t: seq<Candidate>, r: seq<Candidate>, caps: Caps, c: Candidate)
    requires c in t && Blocked(r, c, caps)
    requires InNeither(FullFiles(t, r, caps), FullRules(t, r, caps))(c)
    ensures (c.decision.filePath, c.decision.ruleNo) in PairsOutside(r, FullFiles(t, r, caps), FullRules(t, r, caps))
  {
    var onPair := OnPair(c.decision.filePath, c.decision.ruleNo);
    CountPositive(r, onPair);
    var i :| 0 <= i < |r| && onPair(r[i]);
    assert r[i] in r && InNeither(FullFiles(t, r, caps), FullRules(t, r, caps))(r[i]);
  }

  /** If r blocks all of a feasible t, every member of t is charged to a pick of r: to one on its
      full file, to one on its full rule, or to the pick with its pair; no pick is charged thrice. */
  lemma {:induction false} ChargeToPicks(t: seq<Candidate>, r: seq<Candidate>, caps: Caps)
    requires Feasible(t, caps)
    requires forall c :: c in t ==> Blocked(r, c, caps)
    ensures |t| <= 2 * |r|
  {
    var (files, rules) := (FullFiles(t, r, caps), FullRules(t, r, caps));
    FilesCharge(t, r, files);
    RulesCharge(t, r, rules);
    forall pair | pair in PairsOutside(t, files, rules)
      ensures pair in PairsOutside(r, files, rules)
    {
      var c :| c in t && InNeither(files, rules)(c) && (c.decision.filePath, c.decision.ruleNo) == pair;
      UnsaturatedPairIsTaken(t, r, caps, c);
    }
    PairsCharge(t, r, files, rules);
    CountCover(t, files, rules);
    CountCover(r, files, rules);
  }

  lemma {:induction false} CountTwo(a: Candidate, b: Candidate, p: Candidate -> bool)
    ensures Count([a, b], p) == (if p(a) then 1 else 0) + (if p(b) then 1 else 0)
  {
    CountPush([], a, p);
    CountPush([a], b, p);
    assert [] + [a] == [a] && [a] + [b] == [a, b];
  }

  lemma {:induction false} TwoFit(a: Candidate, b: Candidate)
    requires a.decision.filePath != b.decision.filePath && a.decision.ruleNo != b.decision.ruleNo
    ensures Feasible([a, b], Caps(1, 1))
  {
    CountTwo(a, b, OnFile(a.decision.filePath));
    CountTwo(a, b, OnFile(b.decision.filePath));
    CountTwo(a, b, OnRule(a.decision.ruleNo));
    CountTwo(a, b, OnRule(b.decision.ruleNo));
  }

  /** The candidate that outranks every other opens the batch. */
  lemma {:induction false} BestGoesFirst(candidates: seq<Candidate>, caps: Caps, batch: int, best: Candidate)
    requires caps.file >= 1 && caps.rule >= 1 && batch >= 1
    requires best in candidates && Schedulable(best)
    requires forall c :: c in candidates && c != best ==> Outranks(best, c)
    ensures Select(candidates, caps, batch) != [] && Select(candidates, caps, batch)[0] == best
  {
    var ordered := Ordered(candidates);
    OrderedIsSorted(candidates);
    var i :| 0 <= i < |ordered| && ordered[i] == best;
    assert ordered[0] in ordered;
    if i > 0 {
      NoneIsOutranked(candidates, 0, i);
    }
    assert ordered[0] == best;
    assert !Blocked([], best, caps);
    SeatAtMost(ordered, 0);
    forall j: nat | 0 < j < |ordered|
      ensures !Before(ordered, [], j, 0)
    {
      NoneIsOutranked(candidates, 0, j);
    }
    var next := Next(ordered, [], caps, |ordered|);
    assert next == Some(0);
    assert [] + [best] <= Greedy(ordered, [best], caps, batch);
  }

  lemma {:induction false} OneTakesBoth(first: Candidate, sameFile: Candidate, sameRule: Candidate)
    requires Schedulable(first) && Outranks(first, sameFile) && Outranks(first, sameRule)
    requires sameFile.decision.filePath == first.decision.filePath
    requires sameRule.decision.ruleNo == first.decision.ruleNo
    ensures |Select([first, sameFile, sameRule], Caps(1, 1), 2)| <= 1
  {
    var all := [first, sameFile, sameRule];
    var picks := Select(all, Caps(1, 1), 2);
    BestGoesFirst(all, Caps(1, 1), 2, first);
    BatchIsFeasibleAndMaximal(all, Caps(1, 1), 2);
    if |picks| == 2 {
      OneOfThree(picks, first, sameFile, sameRule);
      OnePerFileAndRule(picks, 0, 1);
    }
  }

  lemma {:induction false} OneOfThree(picks: seq<Candidate>, a: Candidate, b: Candidate, c: Candidate)
    requires |picks| == 2 && picks[0] == a && multiset(picks) <= multiset([a, b, c])
    ensures picks[1] == a || picks[1] == b || picks[1] == c
  {
    assert picks[1] in multiset(picks);
    assert picks[1] in multiset([a, b, c]);
    assert picks[1] in [a, b, c];
  }

  lemma {:induction false} OnePerFileAndRule(picks: seq<Candidate>, i: nat, j: nat)
    requires i < j < |picks| && Feasible(picks, Caps(1, 1))
    ensures picks[i].decision.filePath != picks[j].decision.filePath
    ensures picks[i].decision.ruleNo != picks[j].decision.ruleNo
  {
    if picks[i].decision.filePath == picks[j].decision.filePath {
      TwoCount(picks, i, j, OnFile(picks[i].decision.filePath));
    }
    if picks[i].decision.ruleNo == picks[j].decision.ruleNo {
      TwoCount(picks, i, j, OnRule(picks[i].decision.ruleNo));
    }
  }

  lemma {:induction false} TwoCount(xs: seq<Candidate>, i: nat, j: nat, p: Candidate -> bool)
    requires i < j < |xs| && p(xs[i]) && p(xs[j])
    ensures Count(xs, p) >= 2
  {
    var front := xs[..|xs| - 1];
    if j == |xs| - 1 {
      CountPositive(front, p);
      assert p(front[i]);
    } else {
      TwoCount(front, i, j, p);
    }
  }

  /** Two is the best factor: some batch takes one where two others would fit together. */
  lemma {:induction false} FactorTwoIsTight() returns (candidates: seq<Candidate>, t: seq<Candidate>)
    ensures (forall c :: c in t ==> c in candidates && Schedulable(c)) && Feasible(t, Caps(1, 1))
    ensures |t| == 2 && |Select(candidates, Caps(1, 1), 2)| <= 1
  {
    var first, sameFile, sameRule := Plain("a", "x", 2.0), Plain("a", "y", 1.0), Plain("b", "x", 1.0);
    candidates, t := [first, sameFile, sameRule], [sameFile, sameRule];
    OneTakesBoth(first, sameFile, sameRule);
    TwoFit(sameFile, sameRule);
  }

  function Plain(file: string, rule: string, score: real): Candidate
  {
    var d := Decision(0, 0, rule, file, rule, None, score, 0, 0, file, Eligible, NotSuppressed);
    Candidate(d, (file, None, rule), None, rule, rule, None, 1, false, false, NotBacklog)
  }

  // ----- fairness ----------------------------------------------------------------------------

  /** No file of a group is two picks ahead of another that still has an open candidate. */
  ghost predicate Fair(ordered: seq<Candidate>, picks: seq<Candidate>, caps: Caps)
  {
    forall c, ahead: string ::
      (c in ordered && Round(picks, c) + 1 < Count(picks, OnGroupFile(c.priorityGroup, ahead)))
      ==> Blocked(picks, c, caps)
  }

  /** Within its group, no open candidate's file has fewer picks than the file of the next pick. */
  lemma {:induction false} NextHasFewestPicks(ordered: seq<Candidate>, picks: seq<Candidate>, caps: Caps, i: nat,
                                              j: nat)
    requires Next(ordered, picks, caps, |ordered|) == Some(i) && j < |ordered|
    requires ordered[i].priorityGroup == ordered[j].priorityGroup
    ensures Blocked(picks, ordered[j], caps) || Round(picks, ordered[i]) <= Round(picks, ordered[j])
  {
    assert j == i || Blocked(picks, ordered[j], caps) || Before(ordered, picks, i, j);
  }

  lemma {:induction false} FairPush(ordered: seq<Candidate>, picks: seq<Candidate>, caps: Caps, i: nat)
    requires Fair(ordered, picks, caps)
    requires Next(ordered, picks, caps, |ordered|) == Some(i)
    ensures Fair(ordered, picks + [ordered[i]], caps)
  {
    var x := ordered[i];
    var after := picks + [x];
    forall c, ahead: string | c in ordered && Round(after, c) + 1 < Count(after, OnGroupFile(c.priorityGroup, ahead))
      ensures Blocked(after, c, caps)
    {
      var j :| 0 <= j < |ordered| && ordered[j] == c;
      CountPush(picks, x, OnGroupFile(c.priorityGroup, ahead));
      CountPush(picks, x, OnGroupFile(c.priorityGroup, c.decision.filePath));
      BlockedPush(picks, x, c, caps);
      if c.priorityGroup == x.priorityGroup {
        NextHasFewestPicks(ordered, picks, caps, i, j);
      }
    }
  }

  lemma {:induction false} GreedyFair(ordered: seq<Candidate>, picks: seq<Candidate>, caps: Caps, batch: int)
    requires Fair(ordered, picks, caps)
    ensures Fair(ordered, Greedy(ordered, picks, caps, batch), caps)
    decreases batch - |picks|
  {
    var next := Next(ordered, picks, caps, |ordered|);
    if |picks| < batch && next.Some? {
      FairPush(ordered, picks, caps, next.value);
      GreedyFair(ordered, picks + [ordered[next.value]], caps, batch);
    }
  }

  /** Round-robin fairness, at every moment of the selection: if after n picks some file of a
      group is two or more picks ahead of c's file, then c is already blocked. */
  lemma {:induction false} RoundRobinIsFair(candidates: seq<Candidate>, caps: Caps, batch: int, n: nat, c: Candidate,
                                            ahead: string)
    requires n <= |Select(candidates, caps, batch)|
    requires c in candidates && Schedulable(c)
    requires var picks := Select(candidates, caps, batch)[..n];
             Count(picks, OnGroupFile(c.priorityGroup, c.decision.filePath)) + 1
             < Count(picks, OnGroupFile(c.priorityGroup, ahead))
    ensures Blocked(Select(candidates, caps, batch)[..n], c, caps)
  {
    var ordered := Ordered(candidates);
    OrderedIsSorted(candidates);
    assert n <= batch;
    BatchPrefix(ordered, [], caps, n, batch);
    GreedyFair(ordered, [], caps, n);
    assert Greedy(ordered, [], caps, n) == Select(candidates, caps, batch)[..n];
  }

  /** Within one file and group the better goes first: whatever outranks pick n there was blocked when pick n
      was made. */
  lemma {:induction false} BetterKeyFirst(candidates: seq<Candidate>, caps: Caps, batch: int, n: nat, c: Candidate)
    requires n < |Select(candidates, caps, batch)|
    requires c in candidates && Schedulable(c)
    requires var pick := Select(candidates, caps, batch)[n];
             && c.priorityGroup == pick.priorityGroup
             && c.decision.filePath == pick.decision.filePath
             && Outranks(c, pick)
    ensures Blocked(Select(candidates, caps, batch)[..n], c, caps)
  {
    var ordered := Ordered(candidates);
    OrderedIsSorted(candidates);
    PickIsNext(ordered, caps, batch, n);
    var i := Next(ordered, Select(candidates, caps, batch)[..n], caps, |ordered|).value;
    var j :| 0 <= j < |ordered| && ordered[j] == c;
    if i < j {
      NoneIsOutranked(candidates, i, j);
    }
    assert j < i && SeatOf(ordered, i) == SeatOf(ordered, j);
  }

  // ----- non-interference --------------------------------------------------------------------

  /** A smaller batch is the beginning of a larger one. */
  lemma {:induction false} SmallerBatchIsPrefix(candidates: seq<Candidate>, caps: Caps, small: int, large: int)
    requires small <= large
    ensures var whole := Select(candidates, caps, large);
            Select(candidates, caps, small) ==
            if small <= 0 then [] else if small <= |whole| then whole[..small] else whole
  {
    if small > 0 {
      BatchPrefix(Ordered(candidates), [], caps, small, large);
    }
  }

  predicate UpTo(group: int, c: Candidate)
  {
    c.priorityGroup <= group
  }

  lemma {:induction false} SeatInPrefix(ordered: seq<Candidate>, m: nat, group: int, file: string)
    requires m <= |ordered|
    ensures Seat(ordered[..m], group, file) == if Seat(ordered, group, file) < m then Seat(ordered, group, file) else m
  {
    if m == |ordered| {
      assert ordered[..m] == ordered;
    } else {
      assert ordered[..|ordered| - 1][..m] == ordered[..m];
      SeatInPrefix(ordered[..|ordered| - 1], m, group, file);
    }
  }

  lemma {:induction false} BeforeInPrefix(ordered: seq<Candidate>, m: nat, picks: seq<Candidate>, i: nat, j: nat)
    requires i < m <= |ordered| && j < m
    ensures Before(ordered[..m], picks, i, j) == Before(ordered, picks, i, j)
  {
    SeatInPrefix(ordered, m, ordered[i].priorityGroup, ordered[i].decision.filePath);
    SeatInPrefix(ordered, m, ordered[j].priorityGroup, ordered[j].decision.filePath);
    SeatAtMost(ordered, i);
    SeatAtMost(ordered, j);
  }

  /** Looking at the first n candidates only, the rest of the list does not matter. */
  lemma {:induction false} NextInPrefix(ordered: seq<Candidate>, m: nat, picks: seq<Candidate>, caps: Caps, n: nat)
    requires n <= m <= |ordered|
    ensures Next(ordered[..m], picks, caps, n) == Next(ordered, picks, caps, n)
  {
    if n > 0 {
      NextInPrefix(ordered, m, picks, caps, n - 1);
      var best := Next(ordered, picks, caps, n - 1);
      if best.Some? {
        BeforeInPrefix(ordered, m, picks, best.value, n - 1);
      }
    }
  }

  lemma {:induction false} SeatAtMost(ordered: seq<Candidate>, i: nat)
    requires i < |ordered|
    ensures SeatOf(ordered, i) <= i
  {
    SeatIsFirst(ordered, ordered[i].priorityGroup, ordered[i].decision.filePath);
    assert OnGroupFile(ordered[i].priorityGroup, ordered[i].decision.filePath)(ordered[i]);
  }

  /** Candidates of higher groups never take a turn from those of lower groups. */
  lemma {:induction false} NextIgnoresHigher(ordered: seq<Candidate>, m: nat, picks: seq<Candidate>, caps: Caps, n: nat)
    requires m <= n <= |ordered|
    requires forall i, j :: 0 <= i < m <= j < |ordered| ==> ordered[i].priorityGroup < ordered[j].priorityGroup
    requires Next(ordered, picks, caps, m).Some?
    ensures Next(ordered, picks, caps, n) == Next(ordered, picks, caps, m)
    decreases n
  {
    if m < n {
      var last: nat := n - 1;
      NextIgnoresHigher(ordered, m, picks, caps, last);
      var best := Next(ordered, picks, caps, m).value;
      LowerGroupFirst(ordered, picks, best, last);
      NextStays(ordered, picks, caps, best, last, n);
    }
  }

  lemma NextStays(ordered: seq<Candidate>, picks: seq<Candidate>, caps: Caps, best: nat, last: nat, n: nat)
    requires n == last + 1 <= |ordered|
    requires Next(ordered, picks, caps, last) == Some(best) && Before(ordered, picks, best, last)
    ensures Next(ordered, picks, caps, n) == Some(best)
  {
  }

  lemma LowerGroupFirst(ordered: seq<Candidate>, picks: seq<Candidate>, i: nat, j: nat)
    requires i < |ordered| && j < |ordered| && ordered[i].priorityGroup < ordered[j].priorityGroup
    ensures Before(ordered, picks, i, j)
  {
  }

  lemma {:induction false} LowerGroupsPrefix(ordered: seq<Candidate>, m: nat, picks: seq<Candidate>, caps: Caps,
                                             batch: int)
    requires m <= |ordered|
    requires forall i, j :: 0 <= i < m <= j < |ordered| ==> ordered[i].priorityGroup < ordered[j].priorityGroup
    ensures Greedy(ordered[..m], picks, caps, batch) <= Greedy(ordered, picks, caps, batch)
    decreases batch - |picks|
  {
    if |picks| < batch {
      NextInPrefix(ordered, m, picks, caps, m);
      var next := Next(ordered[..m], picks, caps, m);
      if next.Some? {
        NextIgnoresHigher(ordered, m, picks, caps, |ordered|);
        LowerGroupsPrefix(ordered, m, picks + [ordered[next.value]], caps, batch);
      }
    }
  }

  lemma {:induction false} FilterTwice(xs: seq<Candidate>, p: Candidate -> bool, q: Candidate -> bool)
    ensures Filter(Filter(xs, p), q) == Filter(Filter(xs, q), p)
  {
    if xs != [] {
      FilterTwice(xs[1..], p, q);
      var rest := xs[1..];
      assert p(xs[0]) ==> Filter([xs[0]] + Filter(rest, p), q)
                          == if q(xs[0]) then [xs[0]] + Filter(Filter(rest, p), q) else Filter(Filter(rest, p), q);
      assert q(xs[0]) ==> Filter([xs[0]] + Filter(rest, q), p)
                          == if p(xs[0]) then [xs[0]] + Filter(Filter(rest, q), p) else Filter(Filter(rest, q), p);
    }
  }

  /** A test that holds of the first m elements and no others selects those. */
  lemma {:induction false} FilterPrefix(xs: seq<Candidate>, p: Candidate -> bool, m: nat)
    requires m <= |xs|
    requires forall i :: 0 <= i < |xs| ==> (p(xs[i]) <==> i < m)
    ensures Filter(xs, p) == xs[..m]
  {
    if xs != [] {
      var rest := xs[1..];
      var before: nat := if m == 0 then 0 else m - 1;
      FilterPrefix(rest, p, before);
      if m > 0 {
        assert xs[..m] == [xs[0]] + rest[..before];
      }
    }
  }

  /** In a list sorted by group, the groups up to a bound come first. */
  lemma {:induction false} LowGroupsAreFirst(ordered: seq<Candidate>, group: int) returns (m: nat)
    requires GroupsAscend(ordered)
    ensures m <= |ordered|
    ensures forall i :: 0 <= i < |ordered| ==> (UpTo(group, ordered[i]) <==> i < m)
  {
    m := 0;
    while m < |ordered| && UpTo(group, ordered[m])
      invariant m <= |ordered|
      invariant forall i :: 0 <= i < m ==> UpTo(group, ordered[i])
    {
      m := m + 1;
    }
  }

  /** Leaving out every candidate above a group changes nothing before their turn: what remains is
      a prefix of the full batch, so low priority never displaces high. */
  lemma {:induction false} HigherGroupsNeverDisplace(candidates: seq<Candidate>, caps: Caps, batch: int, group: int)
    ensures Select(Filter(candidates, c => UpTo(group, c)), caps, batch) <= Select(candidates, caps, batch)
  {
    var low := (c: Candidate) => UpTo(group, c);
    var ordered := Ordered(candidates);
    OrderedIsSorted(candidates);
    FilterTwice(candidates, low, Schedulable);
    KeyLePreorder();
    FilterSort(Filter(candidates, Schedulable), KeyLe, low);
    forall i, j | 0 <= i < j < |ordered|
      ensures ordered[i].priorityGroup <= ordered[j].priorityGroup
    {
      assert KeyLe(ordered[i], ordered[j]);
    }
    var m := LowGroupsAreFirst(ordered, group);
    FilterPrefix(ordered, low, m);
    assert Ordered(Filter(candidates, low)) == ordered[..m];
    LowerGroupsPrefix(ordered, m, [], caps, batch);
  }
}
