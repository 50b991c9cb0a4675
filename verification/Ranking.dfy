/** Ranking rule candidates: a comparator built from a list of tie breakers, the sort it drives, and
    the rank, filter, truncate pipeline around it. */
module Ranking {
  import opened Text
  import opened Sorting
  import opened Guidelines

  datatype Hit = Hit(record: Record, similarity: real, packWeightScore: real, patternBoost: real, finalScore: real)

  /** The parts of scoring that are not modelled: how well a record fits the detected patterns, and
      rounding to four places. */
  datatype Scoring = Scoring(boost: Record -> real, round: real -> real)

  // ----- the comparator ----------------------------------------------------------------------

  /** A record without an id goes by its rule number. */
  function EffectiveId(r: Record): string
  {
    if r.id != "" then r.id else r.ruleNo
  }

  function CompareDesc(a: real, b: real): int
  {
    if a > b then -1 else if a < b then 1 else 0
  }

  function CompareIds(a: Record, b: Record): int
  {
    if EffectiveId(a) == EffectiveId(b) then 0
    else if Le(EffectiveId(a), EffectiveId(b)) then -1 else 1
  }

  /** Tiers rank from the first listed down; a tier listed twice ranks by its last place; a tier not
      listed ranks lowest. */
  function TierRank(order: seq<string>, highest: nat, tier: string): int
  {
    if order == [] then 0
    else if order[|order| - 1] == tier then highest - (|order| - 1)
    else TierRank(order[..|order| - 1], highest, tier)
  }

  function RankOf(policy: Policy, r: Record): int
  {
    TierRank(policy.tierOrder, |policy.tierOrder|, r.priorityTier)
  }

  function CompareTieBreaker(a: Hit, b: Hit, breaker: string, policy: Policy): int
  {
    if breaker == "explicit_override" then
      CompareDesc(if a.record.explicitOverride then 1.0 else 0.0, if b.record.explicitOverride then 1.0 else 0.0)
    else if breaker == "higher_tier" then
      CompareDesc(RankOf(policy, a.record) as real, RankOf(policy, b.record) as real)
    else if breaker == "higher_pattern_boost" then CompareDesc(a.patternBoost, b.patternBoost)
    else if breaker == "higher_similarity" then CompareDesc(a.similarity, b.similarity)
    else if breaker == "higher_specificity" then CompareDesc(a.record.specificity, b.record.specificity)
    else if breaker == "higher_base_score" then CompareDesc(a.record.baseScore, b.record.baseScore)
    else if breaker == "higher_pack_weight" then CompareDesc(a.record.packWeight, b.record.packWeight)
    else if breaker == "lexical_rule_id" then CompareIds(a.record, b.record)
    else 0
  }

  /** The first breaker from position k on that tells the two apart; then the score; then the id. */
  function CompareFrom(a: Hit, b: Hit, policy: Policy, k: nat): int
    requires k <= |policy.tieBreakers|
    decreases |policy.tieBreakers| - k
  {
    if k < |policy.tieBreakers| then
      var c := CompareTieBreaker(a, b, policy.tieBreakers[k], policy);
      if c != 0 then c else CompareFrom(a, b, policy, k + 1)
    else
      var c := CompareDesc(a.finalScore, b.finalScore);
      if c != 0 then c else CompareIds(a.record, b.record)
  }

  method CompareCandidates(a: Hit, b: Hit, policy: Policy) returns (c: int)
    ensures c == CompareFrom(a, b, policy, 0)
  {
    for k := 0 to |policy.tieBreakers|
      invariant CompareFrom(a, b, policy, 0) == CompareFrom(a, b, policy, k)
    {
      var breaker := CompareTieBreaker(a, b, policy.tieBreakers[k], policy);
      if breaker != 0 {
        return breaker;
      }
    }
    var byScore := CompareDesc(a.finalScore, b.finalScore);
    if byScore != 0 {
      return byScore;
    }
    return CompareIds(a.record, b.record);
  }

  function Precedes(policy: Policy): (Hit, Hit) -> bool
  {
    (a: Hit, b: Hit) => CompareFrom(a, b, policy, 0) <= 0
  }

  // ----- the comparator is a total preorder --------------------------------------------------

  /** What three comparisons x of a with b, y of b with c and z of a with c owe each other. */
  predicate Consistent(x: int, y: int, z: int)
  {
    && -1 <= x <= 1 && -1 <= y <= 1 && -1 <= z <= 1
    && (x == 0 ==> z == y) && (y == 0 ==> z == x) && (x == y ==> z == x)
  }

  lemma {:induction false} IdsAreConsistent(a: Record, b: Record, c: Record)
    ensures Consistent(CompareIds(a, b), CompareIds(b, c), CompareIds(a, c))
  {
    var (i, j, k) := (EffectiveId(a), EffectiveId(b), EffectiveId(c));
    LeTotal(i, j);
    LeTotal(j, k);
    LeTotal(i, k);
    if Le(i, j) && Le(j, k) {
      LeTransitive(i, j, k);
    }
    if Le(k, j) && Le(j, i) {
      LeTransitive(k, j, i);
    }
    if Le(i, k) && Le(k, j) {
      LeTransitive(i, k, j);
    }
    if Le(i, j) && Le(j, i) {
      LeAntisymmetric(i, j);
    }
  }

  /** What a breaker other than the last one compares, more first. */
  function Measure(h: Hit, breaker: string, policy: Policy): real
  {
    if breaker == "explicit_override" then if h.record.explicitOverride then 1.0 else 0.0
    else if breaker == "higher_tier" then RankOf(policy, h.record) as real
    else if breaker == "higher_pattern_boost" then h.patternBoost
    else if breaker == "higher_similarity" then h.similarity
    else if breaker == "higher_specificity" then h.record.specificity
    else if breaker == "higher_base_score" then h.record.baseScore
    else if breaker == "higher_pack_weight" then h.record.packWeight
    else 0.0
  }

  lemma BreakerComparesMeasures(a: Hit, b: Hit, breaker: string, policy: Policy)
    requires breaker != "lexical_rule_id"
    ensures CompareTieBreaker(a, b, breaker, policy) ==
            CompareDesc(Measure(a, breaker, policy), Measure(b, breaker, policy))
  {
  }

  lemma {:induction false} BreakersAreConsistent(a: Hit, b: Hit, c: Hit, breaker: string, policy: Policy)
    ensures Consistent(CompareTieBreaker(a, b, breaker, policy), CompareTieBreaker(b, c, breaker, policy),
                       CompareTieBreaker(a, c, breaker, policy))
  {
    if breaker == "lexical_rule_id" {
      IdsAreConsistent(a.record, b.record, c.record);
    } else {
      BreakerComparesMeasures(a, b, breaker, policy);
      BreakerComparesMeasures(b, c, breaker, policy);
      BreakerComparesMeasures(a, c, breaker, policy);
    }
  }

  lemma {:induction false} ComparisonsAreConsistent(a: Hit, b: Hit, c: Hit, policy: Policy, k: nat)
    requires k <= |policy.tieBreakers|
    ensures Consistent(CompareFrom(a, b, policy, k), CompareFrom(b, c, policy, k), CompareFrom(a, c, policy, k))
    decreases |policy.tieBreakers| - k
  {
    if k < |policy.tieBreakers| {
      BreakersAreConsistent(a, b, c, policy.tieBreakers[k], policy);
      ComparisonsAreConsistent(a, b, c, policy, k + 1);
    } else {
      IdsAreConsistent(a.record, b.record, c.record);
    }
  }

  lemma {:induction false} BreakerIsAntisymmetric(a: Hit, b: Hit, breaker: string, policy: Policy)
    ensures CompareTieBreaker(a, b, breaker, policy) == -CompareTieBreaker(b, a, breaker, policy)
  {
    IdsAreAntisymmetric(a.record, b.record);
  }

  lemma {:induction false} IdsAreAntisymmetric(a: Record, b: Record)
    ensures CompareIds(a, b) == -CompareIds(b, a)
  {
    var (i, j) := (EffectiveId(a), EffectiveId(b));
    LeTotal(i, j);
    if Le(i, j) && Le(j, i) {
      LeAntisymmetric(i, j);
    }
  }

  /** Swapping the two candidates turns the sign. */
  lemma {:induction false} CompareIsAntisymmetric(a: Hit, b: Hit, policy: Policy, k: nat)
    requires k <= |policy.tieBreakers|
    ensures CompareFrom(a, b, policy, k) == -CompareFrom(b, a, policy, k)
    decreases |policy.tieBreakers| - k
  {
    if k < |policy.tieBreakers| {
      BreakerIsAntisymmetric(a, b, policy.tieBreakers[k], policy);
      CompareIsAntisymmetric(a, b, policy, k + 1);
    } else {
      IdsAreAntisymmetric(a.record, b.record);
    }
  }

  /** Only candidates with the same id tie, whatever the tie breakers. */
  lemma {:induction false} TiesShareTheirId(a: Hit, b: Hit, policy: Policy, k: nat)
    requires k <= |policy.tieBreakers|
    ensures CompareFrom(a, b, policy, k) == 0 ==> EffectiveId(a.record) == EffectiveId(b.record)
    decreases |policy.tieBreakers| - k
  {
    if k < |policy.tieBreakers| {
      TiesShareTheirId(a, b, policy, k + 1);
    }
  }

  /** For every tie-breaker list the comparator is a total preorder. */
  lemma {:induction false} ComparatorIsTotalPreorder(policy: Policy)
    ensures TotalPreorder(Precedes(policy))
  {
    forall a, b
      ensures Precedes(policy)(a, b) || Precedes(policy)(b, a)
    {
      CompareIsAntisymmetric(a, b, policy, 0);
    }
    forall a, b, c | Precedes(policy)(a, b) && Precedes(policy)(b, c)
      ensures Precedes(policy)(a, c)
    {
      ComparisonsAreConsistent(a, b, c, policy, 0);
    }
  }

  // ----- ranking -----------------------------------------------------------------------------

  predicate Eligible(h: Hit)
  {
    h.record.conflictAction != Excluded && h.record.conflictAction != Overridden
  }

  function FinalScore(h: Hit, policy: Policy, scoring: Scoring): real
  {
    var tiers := if |policy.tierOrder| > 1 then |policy.tierOrder| else 1;
    scoring.round(h.similarity * 0.36 + h.record.packWeight * 0.16 + h.record.baseScore * 0.18
                  + h.record.severityDefault * 0.10 + scoring.boost(h.record) * 0.10 + h.record.specificity * 0.07
                  + RankOf(policy, h.record) as real / tiers as real * 0.03)
  }

  function Scored(h: Hit, policy: Policy, scoring: Scoring): Hit
  {
    h.(packWeightScore := h.record.packWeight, patternBoost := scoring.boost(h.record),
       finalScore := FinalScore(h, policy, scoring))
  }

  function ScoredAll(hits: seq<Hit>, policy: Policy, scoring: Scoring): (r: seq<Hit>)
    ensures |r| == |hits|
  {
    if hits == [] then [] else [Scored(hits[0], policy, scoring)] + ScoredAll(hits[1..], policy, scoring)
  }

  /** Everything that is not excluded, scored, in rank order. */
  function Ranked(hits: seq<Hit>, policy: Policy, scoring: Scoring): seq<Hit>
  {
    Sort(ScoredAll(Filter(hits, Eligible), policy, scoring), Precedes(policy))
  }

  /** A slice up to k, which counts from the end when it is negative. */
  function Take<T>(xs: seq<T>, k: int): seq<T>
  {
    if k >= |xs| then xs
    else if k >= 0 then xs[..k]
    else if |xs| + k > 0 then xs[..|xs| + k] else []
  }

  method RerankCandidates(hits: seq<Hit>, policy: Policy, scoring: Scoring, topK: int) returns (r: seq<Hit>)
    ensures r == Take(Ranked(hits, policy, scoring), topK)
    ensures BestFirst(r, policy)
  {
    var filtered := Filter(hits, Eligible);
    ghost var unscored := filtered;
    for i := 0 to |filtered|
      invariant |filtered| == |unscored|
      invariant filtered[..i] == ScoredAll(unscored[..i], policy, scoring)
      invariant filtered[i..] == unscored[i..]
    {
      assert filtered[i] == filtered[i..][0] == unscored[i];
      ScoredAllPush(unscored[..i], unscored[i], policy, scoring);
      assert unscored[..i + 1] == unscored[..i] + [unscored[i]];
      filtered := filtered[i := Scored(filtered[i], policy, scoring)];
    }
    assert filtered[..|filtered|] == filtered && unscored[..|unscored|] == unscored;
    filtered := Sort(filtered, Precedes(policy));
    r := Take(filtered, topK);
    BestComeFirst(hits, policy, scoring, topK);
  }

  lemma {:induction false} ScoredAllPush(hits: seq<Hit>, h: Hit, policy: Policy, scoring: Scoring)
    ensures ScoredAll(hits + [h], policy, scoring) == ScoredAll(hits, policy, scoring) + [Scored(h, policy, scoring)]
  {
    if hits != [] {
      assert (hits + [h])[1..] == hits[1..] + [h];
      ScoredAllPush(hits[1..], h, policy, scoring);
    }
  }

  // ----- the ranking is canonical ------------------------------------------------------------

  /** What is sorted, before sorting. */
  function Kept(hits: seq<Hit>, policy: Policy, scoring: Scoring): seq<Hit>
  {
    ScoredAll(Filter(hits, Eligible), policy, scoring)
  }

  lemma {:induction false} KeptSplit(xs: seq<Hit>, ys: seq<Hit>, policy: Policy, scoring: Scoring)
    ensures Kept(xs + ys, policy, scoring) == Kept(xs, policy, scoring) + Kept(ys, policy, scoring)
  {
    if xs == [] {
      assert xs + ys == ys;
    } else {
      assert (xs + ys)[1..] == xs[1..] + ys;
      KeptSplit(xs[1..], ys, policy, scoring);
      if Eligible(xs[0]) {
        assert Filter(xs, Eligible)[1..] == Filter(xs[1..], Eligible);
        assert Filter(xs + ys, Eligible)[1..] == Filter(xs[1..] + ys, Eligible);
      }
    }
  }

  lemma {:induction false} KeptRotates(left: seq<Hit>, h: Hit, right: seq<Hit>, policy: Policy, scoring: Scoring)
    ensures multiset(Kept(left + [h] + right, policy, scoring)) ==
            multiset(Kept([h], policy, scoring)) + multiset(Kept(left + right, policy, scoring))
  {
    KeptSplit(left, right, policy, scoring);
    KeptSplit(left + [h], right, policy, scoring);
    KeptSplit(left, [h], policy, scoring);
  }

  /** The kept candidates of a rearranged input are a rearrangement. */
  lemma {:induction false} KeptPermutes(xs: seq<Hit>, ys: seq<Hit>, policy: Policy, scoring: Scoring)
    requires multiset(xs) == multiset(ys)
    ensures multiset(Kept(xs, policy, scoring)) == multiset(Kept(ys, policy, scoring))
  {
    SameElements(xs, ys);
    if xs != [] {
      var (first, rest) := (xs[0], xs[1..]);
      assert xs == [] + [first] + rest && [] + rest == rest;
      assert first in xs;
      var i :| 0 <= i < |ys| && ys[i] == first;
      var (left, right) := (ys[..i], ys[i + 1..]);
      assert ys == left + [first] + right;
      WithoutOne(xs, ys, i);
      KeptPermutes(rest, left + right, policy, scoring);
      KeptRotates([], first, rest, policy, scoring);
      KeptRotates(left, first, right, policy, scoring);
    }
  }

  /** Two different candidates never compare equal once scored. */
  ghost predicate NoTies(hits: seq<Hit>, policy: Policy, scoring: Scoring)
  {
    TiesAreEqual(Kept(hits, policy, scoring), Precedes(policy))
  }

  /** What a caller can look up: one id, one score, and one measure for every breaker from position k on. */
  ghost predicate Alike(a: Hit, b: Hit, policy: Policy, k: nat)
    requires k <= |policy.tieBreakers|
  {
    && EffectiveId(a.record) == EffectiveId(b.record) && a.finalScore == b.finalScore
    && forall j :: k <= j < |policy.tieBreakers| ==>
         Measure(a, policy.tieBreakers[j], policy) == Measure(b, policy.tieBreakers[j], policy)
  }

  lemma {:induction false} BreakerTiesExactlyWhen(a: Hit, b: Hit, breaker: string, policy: Policy)
    requires EffectiveId(a.record) == EffectiveId(b.record)
    ensures CompareTieBreaker(a, b, breaker, policy) == 0 <==>
            Measure(a, breaker, policy) == Measure(b, breaker, policy)
  {
    if breaker != "lexical_rule_id" {
      BreakerComparesMeasures(a, b, breaker, policy);
    }
  }

  /** Candidates compare equal exactly when they are alike. */
  lemma {:induction false} TiesExactlyWhenAlike(a: Hit, b: Hit, policy: Policy, k: nat)
    requires k <= |policy.tieBreakers|
    ensures CompareFrom(a, b, policy, k) == 0 <==> Alike(a, b, policy, k)
    decreases |policy.tieBreakers| - k
  {
    TiesShareTheirId(a, b, policy, k);
    if k < |policy.tieBreakers| && EffectiveId(a.record) == EffectiveId(b.record) {
      var next := k + 1;
      TiesExactlyWhenAlike(a, b, policy, next);
      BreakerTiesExactlyWhen(a, b, policy.tieBreakers[k], policy);
    }
  }

  /** Nothing ties exactly when no two different scored candidates are alike. */
  lemma {:induction false} NothingTiesExactlyWhenNoneAlike(hits: seq<Hit>, policy: Policy, scoring: Scoring)
    ensures NoTies(hits, policy, scoring) <==>
            forall x, y :: x in Kept(hits, policy, scoring) && y in Kept(hits, policy, scoring)
                           && Alike(x, y, policy, 0)
              ==> x == y
  {
    forall x: Hit, y: Hit
      ensures Precedes(policy)(x, y) && Precedes(policy)(y, x) <==> Alike(x, y, policy, 0)
    {
      CompareIsAntisymmetric(x, y, policy, 0);
      TiesExactlyWhenAlike(x, y, policy, 0);
    }
  }

  /** Candidates whose ids are all distinct never tie. */
  lemma {:induction false} DistinctIdsNeverTie(hits: seq<Hit>, policy: Policy, scoring: Scoring)
    requires forall a, b :: a in hits && b in hits && EffectiveId(a.record) == EffectiveId(b.record) ==> a == b
    ensures NoTies(hits, policy, scoring)
  {
    KeptAre(hits, policy, scoring);
    var kept := Kept(hits, policy, scoring);
    forall x, y | x in kept && y in kept && Precedes(policy)(x, y) && Precedes(policy)(y, x)
      ensures x == y
    {
      CompareIsAntisymmetric(x, y, policy, 0);
      TiesShareTheirId(x, y, policy, 0);
    }
  }

  lemma {:induction false} KeptAre(hits: seq<Hit>, policy: Policy, scoring: Scoring)
    ensures forall x :: x in Kept(hits, policy, scoring) <==>
              exists h :: h in hits && Eligible(h) && Scored(h, policy, scoring) == x
  {
    if hits != [] {
      var rest := hits[1..];
      KeptAre(rest, policy, scoring);
      assert hits == [hits[0]] + rest;
      KeptSplit([hits[0]], rest, policy, scoring);
      assert [hits[0]][1..] == [];
      forall x
        ensures x in Kept(hits, policy, scoring) <==>
                exists h :: h in hits && Eligible(h) && Scored(h, policy, scoring) == x
      {
        if x in Kept(rest, policy, scoring) {
          var h :| h in rest && Eligible(h) && Scored(h, policy, scoring) == x;
          assert h in hits;
        }
      }
    }
  }

  ghost predicate IgnoresOrder(hits: seq<Hit>, policy: Policy, scoring: Scoring)
  {
    forall other :: multiset(other) == multiset(hits) ==>
      Ranked(other, policy, scoring) == Ranked(hits, policy, scoring)
  }

  /** The ranking forgets the order its candidates came in exactly when no two of them tie. */
  lemma {:induction false} RankingIsCanonicalExactlyWhenNothingTies(hits: seq<Hit>, policy: Policy, scoring: Scoring)
    ensures IgnoresOrder(hits, policy, scoring) <==> NoTies(hits, policy, scoring)
  {
    ComparatorIsTotalPreorder(policy);
    if NoTies(hits, policy, scoring) {
      forall other | multiset(other) == multiset(hits)
        ensures Ranked(other, policy, scoring) == Ranked(hits, policy, scoring)
      {
        KeptPermutes(hits, other, policy, scoring);
        SortCanonical(Kept(hits, policy, scoring), Kept(other, policy, scoring), Precedes(policy));
      }
    } else {
      var kept := Kept(hits, policy, scoring);
      var x, y :| x in kept && y in kept && Precedes(policy)(x, y) && Precedes(policy)(y, x) && x != y;
      TiesBreakCanonicity(hits, policy, scoring, x, y);
    }
  }

  lemma {:induction false} KeptOne(h: Hit, policy: Policy, scoring: Scoring)
    ensures Kept([h], policy, scoring) == if Eligible(h) then [Scored(h, policy, scoring)] else []
  {
    assert [h][1..] == [];
    assert Filter([h], Eligible) == if Eligible(h) then [h] else [];
  }

  /** A tied candidate brought to the front ranks before the one it ties with. */
  lemma {:induction false} FrontGoesFirst(front: Hit, rest: seq<Hit>, policy: Policy, scoring: Scoring)
    requires Eligible(front)
    ensures var x := Scored(front, policy, scoring);
            var tied := Filter(Ranked([front] + rest, policy, scoring), TiedWith(Precedes(policy), x));
            tied != [] && tied[0] == x
  {
    ComparatorIsTotalPreorder(policy);
    var x := Scored(front, policy, scoring);
    KeptSplit([front], rest, policy, scoring);
    KeptOne(front, policy, scoring);
    SortStable(Kept([front] + rest, policy, scoring), Precedes(policy), x);
    assert Kept([front] + rest, policy, scoring)[0] == x;
    CompareIsAntisymmetric(x, x, policy, 0);
  }

  /** Candidates that tie with one of two tied candidates tie with the other. */
  lemma {:induction false} SameTies(policy: Policy, x: Hit, y: Hit, z: Hit)
    requires Precedes(policy)(x, y) && Precedes(policy)(y, x)
    ensures Precedes(policy)(x, z) && Precedes(policy)(z, x) <==> Precedes(policy)(y, z) && Precedes(policy)(z, y)
  {
    ComparisonsAreConsistent(x, y, z, policy, 0);
    ComparisonsAreConsistent(z, x, y, policy, 0);
    CompareIsAntisymmetric(x, y, policy, 0);
    CompareIsAntisymmetric(x, z, policy, 0);
    CompareIsAntisymmetric(y, z, policy, 0);
  }

  lemma {:induction false} FilterCongruence(hits: seq<Hit>, p: Hit -> bool, q: Hit -> bool)
    requires forall h :: p(h) <==> q(h)
    ensures Filter(hits, p) == Filter(hits, q)
  {
    if hits != [] {
      FilterCongruence(hits[1..], p, q);
    }
  }

  lemma {:induction false} TiesBreakCanonicity(hits: seq<Hit>, policy: Policy, scoring: Scoring, x: Hit, y: Hit)
    requires x in Kept(hits, policy, scoring) && y in Kept(hits, policy, scoring) && x != y
    requires Precedes(policy)(x, y) && Precedes(policy)(y, x)
    ensures !IgnoresOrder(hits, policy, scoring)
  {
    KeptAre(hits, policy, scoring);
    var a :| a in hits && Eligible(a) && Scored(a, policy, scoring) == x;
    var b :| b in hits && Eligible(b) && Scored(b, policy, scoring) == y;
    var restA := Without(hits, a);
    var restB := Without(hits, b);
    FrontGoesFirst(a, restA, policy, scoring);
    FrontGoesFirst(b, restB, policy, scoring);
    var (tiesX, tiesY) := (TiedWith(Precedes(policy), x), TiedWith(Precedes(policy), y));
    forall z
      ensures tiesX(z) <==> tiesY(z)
    {
      SameTies(policy, x, y, z);
    }
    FilterCongruence(Ranked([b] + restB, policy, scoring), tiesX, tiesY);
    assert Ranked([a] + restA, policy, scoring) != Ranked([b] + restB, policy, scoring);
    assert multiset([a] + restA) == multiset(hits) == multiset([b] + restB);
  }

  /** Two hits on the rule R1 that only their rule numbers tell apart. */
  function Twin(ruleNo: string): Hit
  {
    Hit(Record("R1", ruleNo, "pack", Compatible, None, [], false, true, AutoReview, "default", 0.5, 0.5, 0.5, 0.5),
        0.5, 0.0, 0.0, 0.0)
  }

  lemma {:induction false} TwinsCompareEqual(x: Hit, y: Hit, policy: Policy, k: nat)
    requires k <= |policy.tieBreakers|
    requires y == x.(record := x.record.(ruleNo := y.record.ruleNo)) && x.record.id != ""
    ensures CompareFrom(x, y, policy, k) == 0
    decreases |policy.tieBreakers| - k
  {
    if k < |policy.tieBreakers| {
      var breaker := policy.tieBreakers[k];
      if breaker != "lexical_rule_id" {
        BreakerComparesMeasures(x, y, breaker, policy);
      }
      TwinsCompareEqual(x, y, policy, k + 1);
    }
  }

  /** Such candidates: they tie under every tie-breaker list, so their rank depends on the input order. */
  lemma {:induction false} TwinsBreakCanonicity(policy: Policy, scoring: Scoring)
    requires scoring.boost(Twin("1").record) == scoring.boost(Twin("2").record)
    ensures !IgnoresOrder([Twin("1"), Twin("2")], policy, scoring)
  {
    var hits := [Twin("1"), Twin("2")];
    var x, y := Scored(hits[0], policy, scoring), Scored(hits[1], policy, scoring);
    assert hits[0] in hits && hits[1] in hits;
    KeptAre(hits, policy, scoring);
    TwinsCompareEqual(x, y, policy, 0);
    TwinsCompareEqual(y, x, policy, 0);
    TiesBreakCanonicity(hits, policy, scoring, x, y);
  }

  lemma {:induction false} Without(hits: seq<Hit>, h: Hit) returns (rest: seq<Hit>)
    requires h in hits
    ensures multiset([h] + rest) == multiset(hits)
  {
    var i :| 0 <= i < |hits| && hits[i] == h;
    rest := hits[..i] + hits[i + 1..];
    assert hits == hits[..i] + [h] + hits[i + 1..];
  }

  // ----- what comes first --------------------------------------------------------------------

  /** The breaker tells the two apart: by their ids if it is the last one, else by their measures. */
  predicate Differ(a: Hit, b: Hit, breaker: string, policy: Policy)
  {
    if breaker == "lexical_rule_id" then EffectiveId(a.record) != EffectiveId(b.record)
    else Measure(a, breaker, policy) != Measure(b, breaker, policy)
  }

  /** The first of them has the greater measure, or the lesser id. */
  predicate Wins(a: Hit, b: Hit, breaker: string, policy: Policy)
  {
    if breaker == "lexical_rule_id" then
      Le(EffectiveId(a.record), EffectiveId(b.record)) && EffectiveId(a.record) != EffectiveId(b.record)
    else Measure(a, breaker, policy) > Measure(b, breaker, policy)
  }

  /** No breaker before position k tells them apart. */
  ghost predicate AgreeBefore(a: Hit, b: Hit, policy: Policy, k: nat)
    requires k <= |policy.tieBreakers|
  {
    forall j :: 0 <= j < k ==> !Differ(a, b, policy.tieBreakers[j], policy)
  }

  /** Breaker k is the first that tells them apart. */
  ghost predicate FirstDiffer(a: Hit, b: Hit, policy: Policy, k: nat)
  {
    k < |policy.tieBreakers| && AgreeBefore(a, b, policy, k) && Differ(a, b, policy.tieBreakers[k], policy)
  }

  /** The first breaker that tells them apart is won by a. If there is none, a has the greater score, or the
      same score and no greater id. */
  ghost predicate Ahead(a: Hit, b: Hit, policy: Policy)
  {
    && (forall k: nat :: FirstDiffer(a, b, policy, k) ==> Wins(a, b, policy.tieBreakers[k], policy))
    && (AgreeBefore(a, b, policy, |policy.tieBreakers|) ==>
          a.finalScore > b.finalScore
          || (a.finalScore == b.finalScore && Le(EffectiveId(a.record), EffectiveId(b.record))))
  }

  lemma {:induction false} AgreeingTies(a: Hit, b: Hit, breaker: string, policy: Policy)
    requires !Differ(a, b, breaker, policy)
    ensures CompareTieBreaker(a, b, breaker, policy) == 0
  {
    if breaker != "lexical_rule_id" {
      BreakerComparesMeasures(a, b, breaker, policy);
    }
  }

  lemma {:induction false} AgreementPostpones(a: Hit, b: Hit, policy: Policy, k: nat)
    requires k <= |policy.tieBreakers| && AgreeBefore(a, b, policy, k)
    ensures CompareFrom(a, b, policy, 0) == CompareFrom(a, b, policy, k)
  {
    if k > 0 {
      var before: nat := k - 1;
      AgreementPostpones(a, b, policy, before);
      AgreeingTies(a, b, policy.tieBreakers[before], policy);
    }
  }

  lemma {:induction false} WinnerComparesLess(a: Hit, b: Hit, breaker: string, policy: Policy)
    requires Differ(a, b, breaker, policy)
    ensures CompareTieBreaker(a, b, breaker, policy) < 0 <==> Wins(a, b, breaker, policy)
    ensures CompareTieBreaker(a, b, breaker, policy) != 0
  {
    if breaker != "lexical_rule_id" {
      BreakerComparesMeasures(a, b, breaker, policy);
    }
  }

  /** Exactly what goes ahead compares as no greater. */
  lemma {:induction false} PrecedesExactlyWhenAhead(a: Hit, b: Hit, policy: Policy)
    ensures Precedes(policy)(a, b) <==> Ahead(a, b, policy)
  {
    forall k: nat | FirstDiffer(a, b, policy, k)
      ensures Precedes(policy)(a, b) <==> Wins(a, b, policy.tieBreakers[k], policy)
      ensures !AgreeBefore(a, b, policy, |policy.tieBreakers|)
    {
      AgreementPostpones(a, b, policy, k);
      WinnerComparesLess(a, b, policy.tieBreakers[k], policy);
    }
    if AgreeBefore(a, b, policy, |policy.tieBreakers|) {
      AgreementPostpones(a, b, policy, |policy.tieBreakers|);
      assert forall k: nat :: !FirstDiffer(a, b, policy, k);
      LeTotal(EffectiveId(a.record), EffectiveId(a.record));
    } else {
      var k := FirstDifference(a, b, policy, |policy.tieBreakers|);
    }
  }

  lemma {:induction false} FirstDifference(a: Hit, b: Hit, policy: Policy, n: nat) returns (k: nat)
    requires n <= |policy.tieBreakers| && !AgreeBefore(a, b, policy, n)
    ensures FirstDiffer(a, b, policy, k)
  {
    var before: nat := n - 1;
    if AgreeBefore(a, b, policy, before) {
      k := before;
    } else {
      k := FirstDifference(a, b, policy, before);
    }
  }

  /** How many a slice up to k keeps of n: all from zero on up to n, and n less those it drops from the end. */
  function Sliced(n: nat, k: int): nat
  {
    if 0 <= k < n then k else if k >= n then n else if k + n > 0 then k + n else 0
  }

  ghost predicate BestFirst(ranked: seq<Hit>, policy: Policy)
  {
    forall i, j :: 0 <= i < j < |ranked| ==> Ahead(ranked[i], ranked[j], policy)
  }

  /** The whole ranking is best first, and the answer is its beginning. */
  lemma {:induction false} BestComeFirst(hits: seq<Hit>, policy: Policy, scoring: Scoring, topK: int)
    ensures var ranked := Ranked(hits, policy, scoring);
            BestFirst(ranked, policy) && Take(ranked, topK) == ranked[..Sliced(|ranked|, topK)]
    ensures BestFirst(Take(Ranked(hits, policy, scoring), topK), policy)
  {
    var ranked := Ranked(hits, policy, scoring);
    ComparatorIsTotalPreorder(policy);
    SortSorts(Kept(hits, policy, scoring), Precedes(policy));
    forall i, j | 0 <= i < j < |ranked|
      ensures Ahead(ranked[i], ranked[j], policy)
    {
      PrecedesExactlyWhenAhead(ranked[i], ranked[j], policy);
    }
  }

  /** What is ranked: the candidates neither excluded nor overridden, given their boost and score, with
      nothing else changed. */
  lemma {:induction false} RankedAre(hits: seq<Hit>, policy: Policy, scoring: Scoring, x: Hit)
    ensures x in Ranked(hits, policy, scoring) <==>
            exists h :: h in hits && h.record.conflictAction != Excluded && h.record.conflictAction != Overridden
                        && x == Hit(h.record, h.similarity, h.record.packWeight, scoring.boost(h.record),
                                    FinalScore(h, policy, scoring))
  {
    var kept := Kept(hits, policy, scoring);
    KeptAre(hits, policy, scoring);
    SortPermutes(kept, Precedes(policy));
    SameElements(Ranked(hits, policy, scoring), kept);
    forall h | h in hits
      ensures Eligible(h) && Scored(h, policy, scoring) == x <==>
              h.record.conflictAction != Excluded && h.record.conflictAction != Overridden
              && x == Hit(h.record, h.similarity, h.record.packWeight, scoring.boost(h.record),
                          FinalScore(h, policy, scoring))
    {
    }
  }

  /** If the other tier is listed, this one is, and no later. */
  ghost predicate NoLowerTier(order: seq<string>, tier: string, other: string)
  {
    forall j: nat :: LastListedAt(order, other, j) ==> exists i: nat :: LastListedAt(order, tier, i) && i <= j
  }

  lemma {:induction false} LastPlace(order: seq<string>, tier: string) returns (i: nat)
    requires tier in order
    ensures LastListedAt(order, tier, i)
  {
    var (front, last) := (order[..|order| - 1], order[|order| - 1]);
    if last == tier {
      i := |front|;
    } else {
      i := LastPlace(front, tier);
      assert forall j :: 0 <= j < |front| ==> front[j] == order[j];
    }
  }

  lemma {:induction false} HigherRankIsNoLowerTier(a: Record, b: Record, policy: Policy)
    requires RankOf(policy, a) >= RankOf(policy, b)
    ensures NoLowerTier(policy.tierOrder, a.priorityTier, b.priorityTier)
  {
    var order := policy.tierOrder;
    TierRankIsLastPlace(order, |order|, a.priorityTier);
    TierRankIsLastPlace(order, |order|, b.priorityTier);
    forall j: nat | LastListedAt(order, b.priorityTier, j)
      ensures exists i: nat :: LastListedAt(order, a.priorityTier, i) && i <= j
    {
      var i := LastPlace(order, a.priorityTier);
      assert i <= j;
    }
  }

  /** What each breaker asks of a candidate ranked before another. */
  ghost predicate KeepsBreaker(a: Hit, b: Hit, policy: Policy, breaker: string)
  {
    && (breaker == "explicit_override" ==> b.record.explicitOverride ==> a.record.explicitOverride)
    && (breaker == "higher_tier" ==> NoLowerTier(policy.tierOrder, a.record.priorityTier, b.record.priorityTier))
    && (breaker == "higher_pattern_boost" ==> a.patternBoost >= b.patternBoost)
    && (breaker == "higher_similarity" ==> a.similarity >= b.similarity)
    && (breaker == "higher_specificity" ==> a.record.specificity >= b.record.specificity)
    && (breaker == "higher_base_score" ==> a.record.baseScore >= b.record.baseScore)
    && (breaker == "higher_pack_weight" ==> a.record.packWeight >= b.record.packWeight)
    && (breaker == "lexical_rule_id" ==> Le(EffectiveId(a.record), EffectiveId(b.record)))
  }

  /** On the breakers that follow only agreement, each quantity goes the way its name says. */
  lemma {:induction false} BreakersAreKept(hits: seq<Hit>, policy: Policy, scoring: Scoring, i: nat, j: nat, k: nat)
    requires i < j < |Ranked(hits, policy, scoring)| && k < |policy.tieBreakers|
    requires AgreeBefore(Ranked(hits, policy, scoring)[i], Ranked(hits, policy, scoring)[j], policy, k)
    ensures KeepsBreaker(Ranked(hits, policy, scoring)[i], Ranked(hits, policy, scoring)[j], policy,
                         policy.tieBreakers[k])
  {
    var (a, b) := (Ranked(hits, policy, scoring)[i], Ranked(hits, policy, scoring)[j]);
    BestComeFirst(hits, policy, scoring, 0);
    assert Ahead(a, b, policy);
    AheadKeepsBreaker(a, b, policy, k);
  }

  lemma {:induction false} AheadKeepsBreaker(a: Hit, b: Hit, policy: Policy, k: nat)
    requires k < |policy.tieBreakers| && AgreeBefore(a, b, policy, k) && Ahead(a, b, policy)
    ensures KeepsBreaker(a, b, policy, policy.tieBreakers[k])
  {
    var breaker := policy.tieBreakers[k];
    LeTotal(EffectiveId(a.record), EffectiveId(a.record));
    assert Differ(a, b, breaker, policy) ==> FirstDiffer(a, b, policy, k);
    if breaker == "higher_tier" {
      HigherRankIsNoLowerTier(a.record, b.record, policy);
    }
  }

  /** Without tie breakers the score decides, and at one score the id; a record without an id stands by its
      rule number there. */
  lemma {:induction false} ScoreThenId(a: Hit, b: Hit, policy: Policy)
    requires policy.tieBreakers == []
    ensures Precedes(policy)(a, b) <==>
            var (x, y) := (a.record, b.record);
            || a.finalScore > b.finalScore
            || (a.finalScore == b.finalScore
                && Le(if x.id == "" then x.ruleNo else x.id, if y.id == "" then y.ruleNo else y.id))
  {
    PrecedesExactlyWhenAhead(a, b, policy);
  }

  /** How much each component counts: of two candidates of one tier and one boost, the scores differ by 36, 16,
      18, 10 and 7 hundredths of the differences in similarity, pack weight, base score, severity and specificity. */
  lemma ScoresDifferBy(a: Hit, b: Hit, policy: Policy, scoring: Scoring)
    requires forall x: real :: scoring.round(x) == x
    requires a.record.priorityTier == b.record.priorityTier && scoring.boost(a.record) == scoring.boost(b.record)
    ensures var (x, y) := (a.record, b.record);
            100.0 * (FinalScore(a, policy, scoring) - FinalScore(b, policy, scoring)) ==
            36.0 * (a.similarity - b.similarity) + 16.0 * (x.packWeight - y.packWeight)
            + 18.0 * (x.baseScore - y.baseScore) + 10.0 * (x.severityDefault - y.severityDefault)
            + 7.0 * (x.specificity - y.specificity)
  {
  }

  /** A candidate whose every component lies between zero and one. */
  predicate InUnit(h: Hit, scoring: Scoring)
  {
    && 0.0 <= h.similarity <= 1.0 && 0.0 <= h.record.packWeight <= 1.0 && 0.0 <= h.record.baseScore <= 1.0
    && 0.0 <= h.record.severityDefault <= 1.0 && 0.0 <= scoring.boost(h.record) <= 1.0
    && 0.0 <= h.record.specificity <= 1.0
  }

  lemma {:induction false} TierRankInRange(order: seq<string>, highest: nat, tier: string)
    requires |order| <= highest
    ensures 0 <= TierRank(order, highest, tier) <= highest
  {
    if order != [] {
      TierRankInRange(order[..|order| - 1], highest, tier);
    }
  }

  lemma {:induction false} TierShareInUnit(r: Record, policy: Policy)
    requires policy.tierOrder != []
    ensures 0.0 <= RankOf(policy, r) as real / |policy.tierOrder| as real <= 1.0
  {
    TierRankInRange(policy.tierOrder, |policy.tierOrder|, r.priorityTier);
  }

  /** Before rounding, the score is a mean: it stays between zero and one, and is one only for a candidate
      that is perfect in every component. */
  lemma {:induction false} ScoreIsAMean(h: Hit, policy: Policy, scoring: Scoring)
    requires InUnit(h, scoring) && forall x: real :: scoring.round(x) == x
    ensures 0.0 <= FinalScore(h, policy, scoring) <= 1.0
    ensures FinalScore(h, policy, scoring) == 1.0 ==>
              && h.similarity == 1.0 && h.record.packWeight == 1.0 && h.record.baseScore == 1.0
              && h.record.severityDefault == 1.0 && scoring.boost(h.record) == 1.0 && h.record.specificity == 1.0
  {
    if policy.tierOrder != [] {
      TierShareInUnit(h.record, policy);
    }
  }

  // ----- rank, filter, truncate --------------------------------------------------------------

  function OnRecord(applicable: Record -> bool): Hit -> bool
  {
    (h: Hit) => applicable(h.record)
  }

  function Max(a: int, b: int): int
  {
    if a >= b then a else b
  }

  lemma {:induction false} FilterKept(hits: seq<Hit>, policy: Policy, scoring: Scoring, applicable: Record -> bool)
    ensures Filter(Kept(hits, policy, scoring), OnRecord(applicable)) ==
            Kept(Filter(hits, OnRecord(applicable)), policy, scoring)
  {
    if hits != [] {
      FilterKept(hits[1..], policy, scoring, applicable);
      assert hits == [hits[0]] + hits[1..];
      KeptSplit([hits[0]], hits[1..], policy, scoring);
      FilterAppend([hits[0]], hits[1..], OnRecord(applicable));
      FilterAppend(Kept([hits[0]], policy, scoring), Kept(hits[1..], policy, scoring), OnRecord(applicable));
      KeptSplit(Filter([hits[0]], OnRecord(applicable)), Filter(hits[1..], OnRecord(applicable)), policy, scoring);
      FilterKeptOne(hits[0], policy, scoring, applicable);
    }
  }

  lemma {:induction false} FilterKeptOne(h: Hit, policy: Policy, scoring: Scoring, applicable: Record -> bool)
    ensures Filter(Kept([h], policy, scoring), OnRecord(applicable)) ==
            Kept(Filter([h], OnRecord(applicable)), policy, scoring)
  {
    KeptOne(h, policy, scoring);
    assert [h][1..] == [];
    assert Filter([h], OnRecord(applicable)) == if applicable(h.record) then [h] else [];
    var x := Scored(h, policy, scoring);
    assert [x][1..] == [];
    assert Filter([x], OnRecord(applicable)) == if applicable(h.record) then [x] else [];
  }

  /** Dropping the inapplicable after ranking is ranking only the applicable. */
  lemma {:induction false} FilterAfterRankIsRankOfFiltered(hits: seq<Hit>, policy: Policy, scoring: Scoring,
                                                           applicable: Record -> bool)
    ensures Filter(Ranked(hits, policy, scoring), OnRecord(applicable)) ==
            Ranked(Filter(hits, OnRecord(applicable)), policy, scoring)
  {
    ComparatorIsTotalPreorder(policy);
    FilterSort(Kept(hits, policy, scoring), Precedes(policy), OnRecord(applicable));
    FilterKept(hits, policy, scoring, applicable);
  }

  /** The pipeline gives the best topK of the applicable candidates: the cut inside never bites. */
  method BestApplicable(hits: seq<Hit>, policy: Policy, scoring: Scoring, applicable: Record -> bool, topK: int)
    returns (r: seq<Hit>)
    ensures r == Take(Ranked(Filter(hits, OnRecord(applicable)), policy, scoring), topK)
    ensures BestFirst(r, policy)
  {
    var reranked := RerankCandidates(hits, policy, scoring, Max(|hits|, Max(30, topK * 3)));
    FilterElements(hits, Eligible);
    SortPermutes(Kept(hits, policy, scoring), Precedes(policy));
    assert reranked == Ranked(hits, policy, scoring);
    FilterAfterRankIsRankOfFiltered(hits, policy, scoring, applicable);
    r := Take(Filter(reranked, OnRecord(applicable)), topK);
    BestComeFirst(Filter(hits, OnRecord(applicable)), policy, scoring, topK);
  }

  /** For candidates with distinct ids the pipeline's answer does not depend on the order they were
      retrieved in. */
  lemma {:induction false} AnswerIgnoresRetrievalOrder(hits: seq<Hit>, other: seq<Hit>, policy: Policy,
                                                       scoring: Scoring,
                                    applicable: Record -> bool, topK: int)
    requires multiset(hits) == multiset(other)
    requires forall a, b :: a in hits && b in hits && EffectiveId(a.record) == EffectiveId(b.record) ==> a == b
    ensures Take(Ranked(Filter(hits, OnRecord(applicable)), policy, scoring), topK) ==
            Take(Ranked(Filter(other, OnRecord(applicable)), policy, scoring), topK)
  {
    DistinctIdsNeverTie(hits, policy, scoring);
    RankingIsCanonicalExactlyWhenNothingTies(hits, policy, scoring);
    FilterAfterRankIsRankOfFiltered(hits, policy, scoring, applicable);
    FilterAfterRankIsRankOfFiltered(other, policy, scoring, applicable);
    assert multiset(other) == multiset(hits);
    assert Ranked(other, policy, scoring) == Ranked(hits, policy, scoring);
  }

  /** The tier is listed at that place and at no later one. */
  ghost predicate LastListedAt(order: seq<string>, tier: string, i: nat)
  {
    i < |order| && order[i] == tier && forall j :: i < j < |order| ==> order[j] != tier
  }

  /** A tier ranks by the last place it is listed at, and ranks 0 if it is not listed. */
  lemma {:induction false} TierRankIsLastPlace(order: seq<string>, highest: nat, tier: string)
    ensures tier !in order ==> TierRank(order, highest, tier) == 0
    ensures forall i: nat :: LastListedAt(order, tier, i) ==> TierRank(order, highest, tier) == highest - i
  {
    if order != [] {
      var (front, last) := (order[..|order| - 1], order[|order| - 1]);
      TierRankIsLastPlace(front, highest, tier);
      if last != tier {
        assert forall i: nat :: LastListedAt(order, tier, i) ==> LastListedAt(front, tier, i);
      } else {
        assert forall i: nat :: LastListedAt(order, tier, i) ==> i == |front|;
      }
    }
  }
}
