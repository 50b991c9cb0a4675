/** Resolving a pack's rule records against a priority policy: the policy's rules are applied one after
    the other to every record in place, and what comes out is split into three lists. */
module Resolution {
  import opened Text
  import opened Sorting
  import opened Guidelines

  predicate Matches(r: Record, m: Match)
  {
    && (m.ruleId != "" ==> m.ruleId == r.id)
    && (m.ruleNo != "" ==> m.ruleNo == r.ruleNo)
    && (m.packId != "" ==> m.packId == r.packId)
    && (m.ruleId != "" || m.ruleNo != "" || m.packId != "")
  }

  function RecordId(r: Record): string
  {
    if r.id != "" then r.id else r.packId + ":" + r.ruleNo
  }

  /** Some override names the record as what overrides. */
  predicate IsExplicit(r: Record, overrides: seq<Override>)
  {
    exists i :: 0 <= i < |overrides| && RecordId(r) in overrides[i].overriddenBy
  }

  // ----- one record --------------------------------------------------------------------------

  function LastExclusion(exclusions: seq<Exclusion>, r: Record): (k: Option<nat>)
    ensures k.Some? ==> k.value < |exclusions| && Matches(r, exclusions[k.value].match_)
  {
    if exclusions == [] then None
    else if Matches(r, exclusions[|exclusions| - 1].match_) then Some(|exclusions| - 1)
    else LastExclusion(exclusions[..|exclusions| - 1], r)
  }

  function LastOverride(overrides: seq<Override>, r: Record): (k: Option<nat>)
    ensures k.Some? ==> k.value < |overrides| && Matches(r, overrides[k.value].match_)
  {
    if overrides == [] then None
    else if Matches(r, overrides[|overrides| - 1].match_) then Some(|overrides| - 1)
    else LastOverride(overrides[..|overrides| - 1], r)
  }

  function Exclude(r: Record, e: Exclusion): Record
  {
    r.(conflictAction := Excluded, reason := e.rationale, active := false)
  }

  function ApplyOverride(r: Record, o: Override): Record
  {
    r.(conflictAction := if o.excludes then Excluded else Overridden, reason := o.rationale,
       overriddenBy := o.overriddenBy, active := false)
  }

  function AfterExclusions(r: Record, exclusions: seq<Exclusion>): Record
  {
    match LastExclusion(exclusions, r)
    case None => r
    case Some(k) => Exclude(r, exclusions[k])
  }

  function AfterOverrides(r: Record, overrides: seq<Override>): Record
  {
    match LastOverride(overrides, r)
    case None => r
    case Some(k) => ApplyOverride(r, overrides[k])
  }

  function Marked(r: Record, overrides: seq<Override>): Record
  {
    r.(explicitOverride := r.explicitOverride || IsExplicit(r, overrides))
  }

  /** What the policy makes of one record: the last override that matches it decides; failing that, the
      last exclusion; failing that, the record stays as it came. */
  function Resolve(r: Record, policy: Policy): Record
  {
    var marked := Marked(r, policy.overrides);
    if LastOverride(policy.overrides, r).Some? then
      var o := policy.overrides[LastOverride(policy.overrides, r).value];
      marked.(conflictAction := if o.excludes then Excluded else Overridden, reason := o.rationale,
              overriddenBy := o.overriddenBy, active := false)
    else if LastExclusion(policy.exclusions, r).Some? then
      var e := policy.exclusions[LastExclusion(policy.exclusions, r).value];
      marked.(conflictAction := Excluded, reason := e.rationale, active := false)
    else marked
  }

  function ResolveAll(records: seq<Record>, policy: Policy): (r: seq<Record>)
    ensures |r| == |records|
  {
    seq(|records|, i requires 0 <= i < |records| => Resolve(records[i], policy))
  }

  /** Making a record again fills in its id. */
  function Validate(r: Record): Record
  {
    r.(id := RecordId(r))
  }

  function ValidateAll(records: seq<Record>): (r: seq<Record>)
    ensures |r| == |records|
  {
    if records == [] then [] else ValidateAll(records[..|records| - 1]) + [Validate(records[|records| - 1])]
  }

  // ----- the passes --------------------------------------------------------------------------

  /** The ids the overrides name as overriding. */
  method CollectExplicitIds(overrides: seq<Override>) returns (ids: set<string>)
    ensures forall r :: RecordId(r) in ids <==> IsExplicit(r, overrides)
  {
    ids := set i, id | 0 <= i < |overrides| && id in overrides[i].overriddenBy :: id;
  }

  method MarkExplicit(all: array<Record>, overrides: seq<Override>)
    modifies all
    ensures forall j :: 0 <= j < all.Length ==> all[j] == Marked(old(all[j]), overrides)
  {
    var ids := CollectExplicitIds(overrides);
    for j := 0 to all.Length
      invariant forall k :: 0 <= k < j ==> all[k] == Marked(old(all[k]), overrides)
      invariant forall k :: j <= k < all.Length ==> all[k] == old(all[k])
    {
      if RecordId(all[j]) in ids {
        all[j] := all[j].(explicitOverride := true);
      }
    }
  }

  /** Matching looks at what the passes never change. */
  lemma {:induction false} LastMatchesKept(r: Record, r': Record, policy: Policy, n: nat, m: nat)
    requires r.id == r'.id && r.ruleNo == r'.ruleNo && r.packId == r'.packId
    requires n <= |policy.exclusions| && m <= |policy.overrides|
    ensures LastExclusion(policy.exclusions[..n], r) == LastExclusion(policy.exclusions[..n], r')
    ensures LastOverride(policy.overrides[..m], r) == LastOverride(policy.overrides[..m], r')
    decreases n + m
  {
    if n > 0 {
      LastMatchesKept(r, r', policy, n - 1, m);
      assert policy.exclusions[..n][..n - 1] == policy.exclusions[..n - 1];
    } else if m > 0 {
      LastMatchesKept(r, r', policy, n, m - 1);
      assert policy.overrides[..m][..m - 1] == policy.overrides[..m - 1];
    }
  }

  /** A further exclusion overwrites what an earlier one wrote. */
  lemma {:induction false} ExclusionStep(r: Record, exclusions: seq<Exclusion>, i: nat)
    requires i < |exclusions|
    ensures AfterExclusions(r, exclusions[..i + 1]) ==
            if Matches(AfterExclusions(r, exclusions[..i]), exclusions[i].match_)
            then Exclude(AfterExclusions(r, exclusions[..i]), exclusions[i]) else AfterExclusions(r, exclusions[..i])
  {
    assert exclusions[..i + 1][..i] == exclusions[..i];
  }

  lemma {:induction false} OverrideStep(r: Record, overrides: seq<Override>, i: nat)
    requires i < |overrides|
    ensures AfterOverrides(r, overrides[..i + 1]) ==
            if Matches(AfterOverrides(r, overrides[..i]), overrides[i].match_)
            then ApplyOverride(AfterOverrides(r, overrides[..i]), overrides[i]) else AfterOverrides(r, overrides[..i])
  {
    assert overrides[..i + 1][..i] == overrides[..i];
  }

  method ApplyExclusion(all: array<Record>, e: Exclusion)
    modifies all
    ensures forall j :: 0 <= j < all.Length ==>
              all[j] == if Matches(old(all[j]), e.match_) then Exclude(old(all[j]), e) else old(all[j])
  {
    for j := 0 to all.Length
      invariant forall k :: 0 <= k < j ==>
                  all[k] == if Matches(old(all[k]), e.match_) then Exclude(old(all[k]), e) else old(all[k])
      invariant forall k :: j <= k < all.Length ==> all[k] == old(all[k])
    {
      if Matches(all[j], e.match_) {
        all[j] := all[j].(conflictAction := Excluded, reason := e.rationale, active := false);
      }
    }
  }

  method ApplyOneOverride(all: array<Record>, o: Override)
    modifies all
    ensures forall j :: 0 <= j < all.Length ==>
              all[j] == if Matches(old(all[j]), o.match_) then ApplyOverride(old(all[j]), o) else old(all[j])
  {
    for j := 0 to all.Length
      invariant forall k :: 0 <= k < j ==>
                  all[k] == if Matches(old(all[k]), o.match_) then ApplyOverride(old(all[k]), o) else old(all[k])
      invariant forall k :: j <= k < all.Length ==> all[k] == old(all[k])
    {
      if Matches(all[j], o.match_) {
        all[j] := all[j].(conflictAction := if o.excludes then Excluded else Overridden, reason := o.rationale,
                          overriddenBy := o.overriddenBy, active := false);
      }
    }
  }

  /** Both rule-major passes over the records. */
  method ApplyPolicy(all: array<Record>, policy: Policy)
    modifies all
    ensures all[..] == ResolveAll(old(all[..]), policy)
  {
    MarkExplicit(all, policy.overrides);
    ghost var marked := all[..];
    for i := 0 to |policy.exclusions|
      invariant forall j :: 0 <= j < all.Length ==> all[j] == AfterExclusions(marked[j], policy.exclusions[..i])
    {
      ghost var before := all[..];
      ApplyExclusion(all, policy.exclusions[i]);
      forall j | 0 <= j < all.Length
        ensures all[j] == AfterExclusions(marked[j], policy.exclusions[..i + 1])
      {
        assert before[j] == AfterExclusions(marked[j], policy.exclusions[..i]);
        ExclusionStep(marked[j], policy.exclusions, i);
      }
    }
    ghost var sifted := all[..];
    for i := 0 to |policy.overrides|
      invariant forall j :: 0 <= j < all.Length ==> all[j] == AfterOverrides(sifted[j], policy.overrides[..i])
    {
      ghost var before := all[..];
      ApplyOneOverride(all, policy.overrides[i]);
      forall j | 0 <= j < all.Length
        ensures all[j] == AfterOverrides(sifted[j], policy.overrides[..i + 1])
      {
        assert before[j] == AfterOverrides(sifted[j], policy.overrides[..i]);
        OverrideStep(sifted[j], policy.overrides, i);
      }
    }
    forall j | 0 <= j < all.Length
      ensures all[j] == Resolve(old(all[j]), policy)
    {
      PassesResolve(old(all[j]), marked[j], sifted[j], policy);
    }
  }

  lemma {:induction false} PassesResolve(r: Record, marked: Record, sifted: Record, policy: Policy)
    requires marked == Marked(r, policy.overrides)
    requires sifted == AfterExclusions(marked, policy.exclusions[..|policy.exclusions|])
    ensures AfterOverrides(sifted, policy.overrides[..|policy.overrides|]) == Resolve(r, policy)
  {
    assert policy.exclusions[..|policy.exclusions|] == policy.exclusions;
    assert policy.overrides[..|policy.overrides|] == policy.overrides;
    LastMatchesKept(r, marked, policy, |policy.exclusions|, |policy.overrides|);
    LastMatchesKept(r, sifted, policy, |policy.exclusions|, |policy.overrides|);
  }

  // ----- the three lists ---------------------------------------------------------------------

  predicate IsExcluded(r: Record)
  {
    r.conflictAction == Excluded || r.conflictAction == Overridden
  }

  predicate IsReference(r: Record)
  {
    !IsExcluded(r) && (r.conflictAction == ReferenceOnly || r.reviewability != AutoReview)
  }

  predicate IsActive(r: Record)
  {
    !IsExcluded(r) && !IsReference(r)
  }

  lemma {:induction false} ValidatePush(all: seq<Record>, j: nat)
    requires j < |all|
    ensures ValidateAll(all[..j + 1]) == ValidateAll(all[..j]) + [Validate(all[j])]
  {
    assert all[..j + 1][..j] == all[..j] && all[..j + 1][j] == all[j];
  }

  method Split(all: seq<Record>) returns (active: seq<Record>, reference: seq<Record>, excluded: seq<Record>)
    ensures active == Filter(ValidateAll(all), IsActive)
    ensures reference == Filter(ValidateAll(all), IsReference)
    ensures excluded == Filter(ValidateAll(all), IsExcluded)
  {
    active, reference, excluded := [], [], [];
    for j := 0 to |all|
      invariant active == Filter(ValidateAll(all[..j]), IsActive)
      invariant reference == Filter(ValidateAll(all[..j]), IsReference)
      invariant excluded == Filter(ValidateAll(all[..j]), IsExcluded)
    {
      var r := Validate(all[j]);
      ValidatePush(all, j);
      FilterPush(ValidateAll(all[..j]), r, IsActive);
      FilterPush(ValidateAll(all[..j]), r, IsReference);
      FilterPush(ValidateAll(all[..j]), r, IsExcluded);
      if r.conflictAction == Excluded || r.conflictAction == Overridden {
        excluded := excluded + [r];
        continue;
      }
      if r.conflictAction == ReferenceOnly || r.reviewability != AutoReview {
        reference := reference + [r];
        continue;
      }
      active := active + [r];
    }
    assert all[..|all|] == all;
  }

  /** The resolved records, in the order of the input, each in one of three lists. */
  method ResolveRecords(records: seq<Record>, policy: Policy)
    returns (active: seq<Record>, reference: seq<Record>, excluded: seq<Record>)
    ensures active == Filter(ValidateAll(ResolveAll(records, policy)), IsActive)
    ensures reference == Filter(ValidateAll(ResolveAll(records, policy)), IsReference)
    ensures excluded == Filter(ValidateAll(ResolveAll(records, policy)), IsExcluded)
  {
    var all := new Record[|records|](i requires 0 <= i < |records| => records[i]);
    assert all[..] == records;
    ApplyPolicy(all, policy);
    active, reference, excluded := Split(all[..]);
  }

  // ----- what resolving guarantees -----------------------------------------------------------

  /** Nothing is lost and nothing is doubled. */
  lemma {:induction false} ListsPartition(all: seq<Record>)
    ensures multiset(all) ==
            multiset(Filter(all, IsActive)) + multiset(Filter(all, IsReference)) + multiset(Filter(all, IsExcluded))
    ensures |all| == |Filter(all, IsActive)| + |Filter(all, IsReference)| + |Filter(all, IsExcluded)|
  {
    if all != [] {
      ListsPartition(all[1..]);
      assert all == [all[0]] + all[1..];
    }
  }

  lemma {:induction false} SomeLastExclusion(exclusions: seq<Exclusion>, r: Record)
    ensures LastExclusion(exclusions, r).Some? <==>
            exists i :: 0 <= i < |exclusions| && Matches(r, exclusions[i].match_)
    ensures LastExclusion(exclusions, r).Some? ==>
              forall i :: LastExclusion(exclusions, r).value < i < |exclusions| ==> !Matches(r, exclusions[i].match_)
  {
    if exclusions != [] {
      var front := exclusions[..|exclusions| - 1];
      SomeLastExclusion(front, r);
      assert forall i :: 0 <= i < |front| ==> front[i] == exclusions[i];
    }
  }

  lemma {:induction false} SomeLastOverride(overrides: seq<Override>, r: Record)
    ensures LastOverride(overrides, r).Some? <==> exists i :: 0 <= i < |overrides| && Matches(r, overrides[i].match_)
    ensures LastOverride(overrides, r).Some? ==>
              forall i :: LastOverride(overrides, r).value < i < |overrides| ==> !Matches(r, overrides[i].match_)
  {
    if overrides != [] {
      var front := overrides[..|overrides| - 1];
      SomeLastOverride(front, r);
      assert forall i :: 0 <= i < |front| ==> front[i] == overrides[i];
    }
  }

  /** The selector says something, and what it says of id, rule number and pack is true of the record. */
  predicate PointsAt(m: Match, r: Record)
  {
    m != Match("", "", "") && m.ruleId in {"", r.id} && m.ruleNo in {"", r.ruleNo} && m.packId in {"", r.packId}
  }

  ghost predicate PointedAt(r: Record, policy: Policy)
  {
    || (exists i :: 0 <= i < |policy.exclusions| && PointsAt(policy.exclusions[i].match_, r))
    || (exists i :: 0 <= i < |policy.overrides| && PointsAt(policy.overrides[i].match_, r))
  }

  /** The record came excluded or overridden. */
  predicate CameOut(r: Record)
  {
    r.conflictAction == Excluded || r.conflictAction == Overridden
  }

  /** Which records are left out depends on which rules the policy has, not on their order: those some
      rule points at, and those that came excluded. Of the others, the ones meant for reference and the ones
      not reviewed automatically are reference; the rest are active. These records stay as they came, but for
      the mark of being named as what overrides. */
  lemma {:induction false} ExcludedExactlyWhenTargeted(r: Record, policy: Policy)
    ensures var (out, once) := (CameOut(r) || PointedAt(r, policy), Resolve(r, policy));
            && (IsExcluded(once) <==> out)
            && (IsReference(once) <==> !out && (r.conflictAction == ReferenceOnly || r.reviewability != AutoReview))
            && (IsActive(once) <==> !out && r.conflictAction == Compatible && r.reviewability == AutoReview)
            && (once.active <==> r.active && !PointedAt(r, policy))
            && (!PointedAt(r, policy) ==> once == r.(explicitOverride := once.explicitOverride))
  {
    SomeLastExclusion(policy.exclusions, r);
    SomeLastOverride(policy.overrides, r);
  }

  /** The mark: set on records that came with it and on those whose id some override lists. The id of a record
      without one is made of its pack and its rule number. */
  lemma MarkedExactlyWhenListed(r: Record, policy: Policy)
    ensures var id := if r.id == "" then r.packId + ":" + r.ruleNo else r.id;
            Resolve(r, policy).explicitOverride <==>
            r.explicitOverride || exists i :: 0 <= i < |policy.overrides| && id in policy.overrides[i].overriddenBy
  {
  }

  /** An override that points at the record decides it, whatever exclusions there are and wherever they
      stand; of two that do, the later. */
  lemma {:induction false} LaterOverrideDecides(r: Record, policy: Policy, i: nat)
    requires i < |policy.overrides| && PointsAt(policy.overrides[i].match_, r)
    requires forall j :: i < j < |policy.overrides| ==> !PointsAt(policy.overrides[j].match_, r)
    ensures var (o, once) := (policy.overrides[i], Resolve(r, policy));
            once == r.(conflictAction := if o.excludes then Excluded else Overridden, reason := o.rationale,
                       overriddenBy := o.overriddenBy, active := false, explicitOverride := once.explicitOverride)
  {
    SomeLastOverride(policy.overrides, r);
  }

  /** Where no override points, the last exclusion that does decides. */
  lemma {:induction false} LaterExclusionDecides(r: Record, policy: Policy, i: nat)
    requires forall j :: 0 <= j < |policy.overrides| ==> !PointsAt(policy.overrides[j].match_, r)
    requires i < |policy.exclusions| && PointsAt(policy.exclusions[i].match_, r)
    requires forall j :: i < j < |policy.exclusions| ==> !PointsAt(policy.exclusions[j].match_, r)
    ensures var (e, once) := (policy.exclusions[i], Resolve(r, policy));
            once == r.(conflictAction := Excluded, reason := e.rationale, active := false,
                       explicitOverride := once.explicitOverride)
  {
    SomeLastOverride(policy.overrides, r);
    SomeLastExclusion(policy.exclusions, r);
  }

  lemma {:induction false} ResolveIsIdempotent(r: Record, policy: Policy)
    ensures Resolve(Resolve(r, policy), policy) == Resolve(r, policy)
  {
    SameLastMatches(r, Resolve(r, policy), policy);
  }

  /** What matches a record without an id still matches it with the id filled in. */
  lemma {:induction false} MatchesOnceValidated(r: Record, policy: Policy)
    ensures LastOverride(policy.overrides, r).Some? ==> LastOverride(policy.overrides, Validate(r)).Some?
    ensures LastExclusion(policy.exclusions, r).Some? ==> LastExclusion(policy.exclusions, Validate(r)).Some?
  {
    SomeLastExclusion(policy.exclusions, r);
    SomeLastExclusion(policy.exclusions, Validate(r));
    SomeLastOverride(policy.overrides, r);
    SomeLastOverride(policy.overrides, Validate(r));
  }

  /** Resolving and validating again changes nothing exactly when it makes no difference whether the id is
      filled in before or after resolving: a record that came with an id never changes. */
  lemma {:induction false} ResolvingAgainChangesNothingExactlyWhen(r: Record, policy: Policy)
    ensures var once := Validate(Resolve(r, policy));
            && (Validate(Resolve(once, policy)) == once <==> Resolve(Validate(r), policy) == once)
            && (r.id != "" ==> Validate(Resolve(once, policy)) == once)
  {
    var (full, once) := (Validate(r), Validate(Resolve(r, policy)));
    MatchesOnceValidated(r, policy);
    SameLastMatches(full, once, policy);
    AgainOnlyWhatDecides(r, full, once, policy);
    if r.id != "" {
      ResolveIsIdempotent(r, policy);
    }
  }

  lemma {:induction false} SameLastMatches(r: Record, r': Record, policy: Policy)
    requires r.id == r'.id && r.ruleNo == r'.ruleNo && r.packId == r'.packId
    ensures LastExclusion(policy.exclusions, r) == LastExclusion(policy.exclusions, r')
    ensures LastOverride(policy.overrides, r) == LastOverride(policy.overrides, r')
  {
    LastMatchesKept(r, r', policy, |policy.exclusions|, |policy.overrides|);
    assert policy.exclusions[..|policy.exclusions|] == policy.exclusions;
    assert policy.overrides[..|policy.overrides|] == policy.overrides;
  }

  lemma {:induction false} AgainOnlyWhatDecides(r: Record, full: Record, once: Record, policy: Policy)
    requires full == Validate(r) && once == Validate(Resolve(r, policy))
    requires LastOverride(policy.overrides, once) == LastOverride(policy.overrides, full)
    requires LastExclusion(policy.exclusions, once) == LastExclusion(policy.exclusions, full)
    requires LastOverride(policy.overrides, r).Some? ==> LastOverride(policy.overrides, full).Some?
    requires LastExclusion(policy.exclusions, r).Some? ==> LastExclusion(policy.exclusions, full).Some?
    ensures Validate(Resolve(once, policy)) == once <==> Resolve(full, policy) == once
  {
    assert IsExplicit(once, policy.overrides) <==> IsExplicit(r, policy.overrides);
    assert IsExplicit(full, policy.overrides) <==> IsExplicit(r, policy.overrides);
    if LastOverride(policy.overrides, full).Some? {
      assert Resolve(full, policy).overriddenBy == Resolve(once, policy).overriddenBy;
    } else {
      assert once.overriddenBy == r.overriddenBy;
    }
  }

  /** A record without an id, and an exclusion of the id it will get. */
  function Unnamed(): Record
  {
    Record("", "R1", "pack", Compatible, None, [], false, true, AutoReview, "default", 0.5, 0.5, 0.5, 0.5)
  }

  function ExcludesNamed(): Policy
  {
    Policy([], [], [Exclusion(Match("pack:R1", "", ""), None)], [])
  }

  /** It is resolved as active, and resolved again as excluded. */
  lemma {:induction false} UnnamedRecordChanges()
    ensures var once := Validate(Resolve(Unnamed(), ExcludesNamed()));
            IsActive(once) && IsExcluded(Validate(Resolve(once, ExcludesNamed())))
  {
    var once := Validate(Resolve(Unnamed(), ExcludesNamed()));
    assert RecordId(Unnamed()) == "pack:R1";
    SomeLastExclusion(ExcludesNamed().exclusions, Unnamed());
    SomeLastExclusion(ExcludesNamed().exclusions, once);
    assert Matches(once, ExcludesNamed().exclusions[0].match_);
  }
}
