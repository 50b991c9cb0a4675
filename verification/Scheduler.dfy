/** What a publish batch is: a greedy choice with no memory but the picks made so far. */
module Scheduler {
  import opened Text
  import opened Records
  import opened Sorting

  /** The per-file and per-rule comment caps. Settings are integers, so a cap may be zero or less. */
  datatype Caps = Caps(file: int, rule: int)

  /** Only these candidates may be scheduled. */
  predicate Schedulable(c: Candidate)
  {
    c.priorityGroup != 3 && !c.backlogOnly
  }

  /** The sort key, compared: priority group, then higher score, then earlier creation, then path. */
  predicate KeyLe(a: Candidate, b: Candidate)
  {
    a.priorityGroup < b.priorityGroup
    || (a.priorityGroup == b.priorityGroup
        && (a.decision.score > b.decision.score
            || (a.decision.score == b.decision.score
                && (a.decision.createdAt < b.decision.createdAt
                    || (a.decision.createdAt == b.decision.createdAt
                        && Le(a.decision.filePath, b.decision.filePath))))))
  }

  function Ordered(candidates: seq<Candidate>): seq<Candidate>
  {
    Sort(Filter(candidates, Schedulable), KeyLe)
  }

  // ----- counting picks ----------------------------------------------------------------------

  function Count(xs: seq<Candidate>, p: Candidate -> bool): (n: nat)
    ensures n <= |xs|
  {
    if xs == [] then 0
    else Count(xs[..|xs| - 1], p) + if p(xs[|xs| - 1]) then 1 else 0
  }

  function OnFile(file: string): Candidate -> bool
  {
    (c: Candidate) => c.decision.filePath == file
  }

  function OnRule(rule: string): Candidate -> bool
  {
    (c: Candidate) => c.decision.ruleNo == rule
  }

  function OnPair(file: string, rule: string): Candidate -> bool
  {
    (c: Candidate) => c.decision.filePath == file && c.decision.ruleNo == rule
  }

  function OnGroupFile(group: int, file: string): Candidate -> bool
  {
    (c: Candidate) => c.priorityGroup == group && c.decision.filePath == file
  }

  /** c may not join the picks: its file and rule are already together in a pick, or its file or its
      rule has all the picks its cap allows. */
  predicate Blocked(picks: seq<Candidate>, c: Candidate, caps: Caps)
  {
    || Count(picks, OnPair(c.decision.filePath, c.decision.ruleNo)) >= 1
    || Count(picks, OnFile(c.decision.filePath)) >= caps.file
    || Count(picks, OnRule(c.decision.ruleNo)) >= caps.rule
  }

  /** How many picks c's file already has within c's priority group: the round c waits for. */
  function Round(picks: seq<Candidate>, c: Candidate): nat
  {
    Count(picks, OnGroupFile(c.priorityGroup, c.decision.filePath))
  }

  /** Where the file first appears within the group: the file's seat in a round. */
  function Seat(ordered: seq<Candidate>, group: int, file: string): (k: nat)
    ensures k <= |ordered|
  {
    if ordered == [] then 0
    else
      var k := Seat(ordered[..|ordered| - 1], group, file);
      if k == |ordered| - 1 && !OnGroupFile(group, file)(ordered[k]) then |ordered| else k
  }

  lemma {:induction false} SeatIsFirst(ordered: seq<Candidate>, group: int, file: string)
    ensures var k := Seat(ordered, group, file);
            && (forall i :: 0 <= i < k ==> !OnGroupFile(group, file)(ordered[i]))
            && (k < |ordered| ==> OnGroupFile(group, file)(ordered[k]))
  {
    if ordered != [] {
      SeatIsFirst(ordered[..|ordered| - 1], group, file);
    }
  }

  function SeatOf(ordered: seq<Candidate>, i: nat): nat
    requires i < |ordered|
  {
    Seat(ordered, ordered[i].priorityGroup, ordered[i].decision.filePath)
  }

  /** Candidate i has its turn before candidate j: lower group, then earlier round, then earlier
      seat, then earlier in the sort order. */
  predicate Before(ordered: seq<Candidate>, picks: seq<Candidate>, i: nat, j: nat)
    requires i < |ordered| && j < |ordered|
  {
    var (a, b) := (ordered[i], ordered[j]);
    a.priorityGroup < b.priorityGroup
    || (a.priorityGroup == b.priorityGroup
        && (Round(picks, a) < Round(picks, b)
            || (Round(picks, a) == Round(picks, b)
                && (SeatOf(ordered, i) < SeatOf(ordered, j)
                    || (SeatOf(ordered, i) == SeatOf(ordered, j) && i < j)))))
  }

  /** Among the first n, the open candidate whose turn comes first. */
  function Next(ordered: seq<Candidate>, picks: seq<Candidate>, caps: Caps, n: nat): (next: Option<nat>)
    requires n <= |ordered|
    ensures next.None? ==> forall j :: 0 <= j < n ==> Blocked(picks, ordered[j], caps)
    ensures next.Some? ==>
              && next.value < n && !Blocked(picks, ordered[next.value], caps)
              && forall j :: 0 <= j < n && j != next.value && !Blocked(picks, ordered[j], caps)
                   ==> Before(ordered, picks, next.value, j)
  {
    if n == 0 then None
    else
      var best := Next(ordered, picks, caps, n - 1);
      if Blocked(picks, ordered[n - 1], caps) then best
      else if best.Some? && Before(ordered, picks, best.value, n - 1) then best
      else Some(n - 1)
  }

  /** Keep giving the turn to the first open candidate until the batch is full or none is open. */
  function Greedy(ordered: seq<Candidate>, picks: seq<Candidate>, caps: Caps, batch: int): (r: seq<Candidate>)
    ensures picks <= r
    ensures |r| <= batch || r == picks
    decreases batch - |picks|
  {
    if |picks| >= batch then picks
    else
      match Next(ordered, picks, caps, |ordered|)
      case None => picks
      case Some(i) => Greedy(ordered, picks + [ordered[i]], caps, batch)
  }

  /** The batch a publish phase may post. */
  function Select(candidates: seq<Candidate>, caps: Caps, batch: int): seq<Candidate>
  {
    Greedy(Ordered(candidates), [], caps, batch)
  }

  // ----- laws of counting and of the order ---------------------------------------------------

  lemma {:induction false} CountPush(xs: seq<Candidate>, x: Candidate, p: Candidate -> bool)
    ensures Count(xs + [x], p) == Count(xs, p) + if p(x) then 1 else 0
  {
    assert (xs + [x])[..|xs|] == xs;
  }

  lemma {:induction false} CountPositive(xs: seq<Candidate>, p: Candidate -> bool)
    ensures Count(xs, p) >= 1 <==> exists i :: 0 <= i < |xs| && p(xs[i])
  {
    if xs != [] {
      var front := xs[..|xs| - 1];
      CountPositive(front, p);
      if Count(front, p) >= 1 {
        var i :| 0 <= i < |front| && p(front[i]);
        assert p(xs[i]);
      } else if exists i :: 0 <= i < |xs| && p(xs[i]) {
        var i :| 0 <= i < |xs| && p(xs[i]);
        assert i < |front| ==> p(front[i]);
      }
    }
  }

  /** A blocked candidate stays blocked. */
  lemma {:induction false} BlockedPush(picks: seq<Candidate>, x: Candidate, c: Candidate, caps: Caps)
    ensures Blocked(picks, c, caps) ==> Blocked(picks + [x], c, caps)
    ensures Blocked(picks + [x], x, caps)
  {
    CountPush(picks, x, OnPair(c.decision.filePath, c.decision.ruleNo));
    CountPush(picks, x, OnFile(c.decision.filePath));
    CountPush(picks, x, OnRule(c.decision.ruleNo));
    CountPush(picks, x, OnPair(x.decision.filePath, x.decision.ruleNo));
  }

  /** The batch is of the candidates given. */
  lemma {:induction false} GreedyPicksFrom(ordered: seq<Candidate>, picks: seq<Candidate>, caps: Caps, batch: int)
    requires forall c :: c in picks ==> c in ordered
    ensures forall c :: c in Greedy(ordered, picks, caps, batch) ==> c in ordered
    decreases batch - |picks|
  {
    var next := Next(ordered, picks, caps, |ordered|);
    if |picks| < batch && next.Some? {
      GreedyPicksFrom(ordered, picks + [ordered[next.value]], caps, batch);
    }
  }

  lemma {:induction false} KeyLePreorder()
    ensures TotalPreorder(KeyLe)
  {
    forall a: Candidate, b: Candidate
      ensures KeyLe(a, b) || KeyLe(b, a)
    {
      LeTotal(a.decision.filePath, b.decision.filePath);
    }
    forall a: Candidate, b: Candidate, c: Candidate | KeyLe(a, b) && KeyLe(b, c)
      ensures KeyLe(a, c)
    {
      if Le(a.decision.filePath, b.decision.filePath) && Le(b.decision.filePath, c.decision.filePath) {
        LeTransitive(a.decision.filePath, b.decision.filePath, c.decision.filePath);
      }
    }
  }

  /** a is the better of the two: a higher score, or the same score found earlier, or both the same on a
      path that sorts strictly earlier. */
  predicate Better(a: Decision, b: Decision)
  {
    || a.score > b.score
    || (a.score == b.score && a.createdAt < b.createdAt)
    || (a.score == b.score && a.createdAt == b.createdAt && Le(a.filePath, b.filePath) && a.filePath != b.filePath)
  }

  /** a sorts strictly ahead of b: a lower group, or the same group and the better decision. */
  predicate Outranks(a: Candidate, b: Candidate)
  {
    a.priorityGroup < b.priorityGroup || (a.priorityGroup == b.priorityGroup && Better(a.decision, b.decision))
  }

  lemma {:induction false} KeyLeExactlyWhenNotOutranked(a: Candidate, b: Candidate)
    ensures KeyLe(a, b) <==> !Outranks(b, a)
  {
    LeTotal(a.decision.filePath, b.decision.filePath);
    if Le(a.decision.filePath, b.decision.filePath) && Le(b.decision.filePath, a.decision.filePath) {
      LeAntisymmetric(a.decision.filePath, b.decision.filePath);
    }
  }

  /** No candidate is sorted behind one it outranks. */
  lemma {:induction false} NoneIsOutranked(candidates: seq<Candidate>, i: nat, j: nat)
    requires i < j < |Ordered(candidates)|
    ensures !Outranks(Ordered(candidates)[j], Ordered(candidates)[i])
  {
    OrderedIsSorted(candidates);
    KeyLeExactlyWhenNotOutranked(Ordered(candidates)[i], Ordered(candidates)[j]);
  }

  /** The sort keeps exactly the schedulable candidates, in key order, ties in input order. */
  lemma {:induction false} OrderedIsSorted(candidates: seq<Candidate>)
    ensures Sorted(Ordered(candidates), KeyLe)
    ensures multiset(Ordered(candidates)) == multiset(Filter(candidates, Schedulable))
    ensures forall c :: c in Ordered(candidates) <==> c in candidates && c.priorityGroup != 3 && !c.backlogOnly
  {
    KeyLePreorder();
    var kept := Filter(candidates, Schedulable);
    FilterElements(candidates, Schedulable);
    SortSorts(kept, KeyLe);
    SortPermutes(kept, KeyLe);
    SameElements(Ordered(candidates), kept);
  }
}
