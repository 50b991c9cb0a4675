/** From eligible decisions to posted comments: the three classifiers that must agree on what an
    existing thread means, the same-line suppression, and the one-key-once rule of the posting loop. */
module Publication {
  import opened Text
  import opened Records
  import opened Sorting
  import opened Scheduler
  import Threads

  // ----- the classifiers ---------------------------------------------------------------------

  datatype Settings = Settings(repeatReminder: bool, resurfaceResolved: bool)

  /** A decision on its way to publication, with what the prepare loop looked up for it. */
  datatype Draft = Draft(
    decision: Decision,
    existing: Option<Thread>,
    canonicalBodyHash: string,
    reminderBodyHash: string,
    title: string,
    category: Option<string>,
    laterRequested: bool)

  predicate SameAnchor(d: Draft)
  {
    d.existing.Some? && d.existing.value.anchor == d.decision.anchor
  }

  predicate SameBody(d: Draft)
  {
    d.existing.Some? && d.existing.value.bodyHash == d.canonicalBodyHash
  }

  predicate ShouldResurfaceOpenThread(d: Draft, settings: Settings, incremental: bool)
  {
    settings.repeatReminder && !incremental && d.existing.Some? && d.existing.value.status == Open && SameAnchor(d)
  }

  function ClassifyBacklog(d: Draft, reminder: bool, settings: Settings): BacklogReason
  {
    if d.laterRequested then FeedbackLater
    else if d.existing.None? then NotBacklog
    else if d.existing.value.status == Open && SameAnchor(d) && SameBody(d) then
      if d.existing.value.reason == RemoteReopened || reminder then NotBacklog else ExistingOpenThread
    else if d.existing.value.status == Resolved && SameAnchor(d) && SameBody(d) && !settings.resurfaceResolved then
      ResolvedUnchanged
    else NotBacklog
  }

  function CandidatePriorityGroup(d: Draft, reminder: bool): int
  {
    if d.existing.None? then 1
    else if d.existing.value.status == Resolved then 0
    else if !SameAnchor(d) then 0
    else if d.existing.value.reason == RemoteReopened then 0
    else if reminder then 2
    else if !SameBody(d) then 0
    else 3
  }

  function SameLineCategoryKey(d: Draft): Option<(string, int, string)>
  {
    if d.category.None? || Strip(d.category.value) == "" || d.decision.lineNo.None? then None
    else Some((d.decision.filePath, d.decision.lineNo.value, Strip(d.category.value)))
  }

  function Prepare(d: Draft, settings: Settings, incremental: bool): Candidate
  {
    var reminder := ShouldResurfaceOpenThread(d, settings, incremental);
    var reason := ClassifyBacklog(d, reminder, settings);
    Candidate(d.decision, (d.decision.filePath, d.decision.lineNo, Strip(d.title)), SameLineCategoryKey(d),
              if reminder then d.reminderBodyHash else d.canonicalBodyHash, d.canonicalBodyHash, d.existing,
              CandidatePriorityGroup(d, reminder), reminder, reason != NotBacklog, reason)
  }

  /** The lookup returns open and resolved threads only. */
  predicate Lookable(d: Draft)
  {
    d.existing.Some? ==> d.existing.value.status == Open || d.existing.value.status == Resolved
  }

  /** The two classifiers agree: what the priority group leaves to the backlog, the backlog takes. So
      nothing is both in group 3 and outside the backlog, the list of such candidates the publish phase
      skips is always empty, and the scheduler sees exactly what is not backlog. */
  lemma ClassifiersAgree(d: Draft, settings: Settings, incremental: bool)
    requires Lookable(d)
    ensures var c := Prepare(d, settings, incremental);
            && (c.priorityGroup == 3 ==> c.backlogOnly)
            && (Schedulable(c) <==> !c.backlogOnly)
            && (!d.laterRequested ==> (c.priorityGroup == 3 <==> c.backlogReason == ExistingOpenThread))
            && (c.backlogReason == ResolvedUnchanged ==> c.priorityGroup == 0)
            && (c.reminder ==> c.priorityGroup == 0 || c.priorityGroup == 2)
            && 0 <= c.priorityGroup <= 3
  {
  }

  /** The thread stands where the decision is. */
  predicate StandsThere(d: Draft)
  {
    d.existing.Some? && d.existing.value.anchor == d.decision.anchor
  }

  /** The thread is open where the decision is, and nobody reopened it. */
  predicate OpenThere(d: Draft)
  {
    StandsThere(d) && d.existing.value.status == Open && d.existing.value.reason != RemoteReopened
  }

  /** Who goes first. Group 0: what was resolved, reopened, or moved, or would read differently now. Group 1:
      what is new. Group 2: reminders. Group 3: what is there already. */
  lemma GroupsExactly(d: Draft, settings: Settings, incremental: bool)
    requires Lookable(d)
    ensures var (c, remind) := (Prepare(d, settings, incremental), settings.repeatReminder && !incremental);
            && (c.priorityGroup == 0 <==>
                  d.existing.Some? && (!OpenThere(d)
                                       || (!remind && d.existing.value.bodyHash != d.canonicalBodyHash)))
            && (c.priorityGroup == 1 <==> d.existing == None)
            && (c.priorityGroup == 2 <==> OpenThere(d) && remind)
            && (c.priorityGroup == 3 <==> OpenThere(d) && !remind && d.existing.value.bodyHash == d.canonicalBodyHash)
  {
  }

  /** What stays in the backlog: the deferred; the open that is there already and not reminded of; the resolved
      that still stands and says the same, unless resolved findings are brought up again. */
  lemma BacklogExactly(d: Draft, settings: Settings, incremental: bool)
    requires Lookable(d)
    ensures var (c, remind) := (Prepare(d, settings, incremental), settings.repeatReminder && !incremental);
            var same := StandsThere(d) && d.existing.value.bodyHash == d.canonicalBodyHash;
            && c.backlogReason ==
               (if d.laterRequested then FeedbackLater
                else if same && OpenThere(d) && !remind then ExistingOpenThread
                else if same && d.existing.value.status == Resolved && !settings.resurfaceResolved
                then ResolvedUnchanged else NotBacklog)
            && (c.backlogOnly <==> c.backlogReason != NotBacklog)
            && (c.reminder <==> StandsThere(d) && d.existing.value.status == Open && remind)
            && c.bodyHash == (if c.reminder then d.reminderBodyHash else d.canonicalBodyHash)
  {
  }

  /** Two drafts are the same comment exactly when they share file, line and trimmed title; they contend for
      one place exactly when they share file, line and trimmed category, none of which is missing. */
  lemma KeysAgreeExactlyWhen(d: Draft, e: Draft, settings: Settings, incremental: bool)
    ensures var (a, b) := (Prepare(d, settings, incremental), Prepare(e, settings, incremental));
            && (a.publicationKey == b.publicationKey <==>
                  d.decision.filePath == e.decision.filePath && d.decision.lineNo == e.decision.lineNo
                  && Strip(d.title) == Strip(e.title))
            && (a.categoryKey.Some? && a.categoryKey == b.categoryKey <==>
                  d.decision.filePath == e.decision.filePath
                  && d.decision.lineNo.Some? && d.decision.lineNo == e.decision.lineNo
                  && d.category.Some? && e.category.Some? && Strip(d.category.value) == Strip(e.category.value)
                  && Strip(d.category.value) != "")
  {
  }

  /** When posting a scheduled candidate is skipped because its comment is already there. Besides a
      reminder repeated word for word, that is a finding whose anchor moved while its text did not:
      it counts as published, and its thread stays at the old anchor. */
  lemma SkippedExactlyWhen(w: Threads.World, p: Threads.Posting, d: Draft, settings: Settings, incremental: bool)
    requires Threads.ValidPosting(w, p) && Lookable(d)
    requires p.existing.Some? == d.existing.Some?
    requires p.existing.Some? ==> w.threads[p.existing.value] == d.existing.value
    requires p.bodyHash == Prepare(d, settings, incremental).bodyHash
    requires Schedulable(Prepare(d, settings, incremental))
    ensures Threads.AlreadyPosted(w, p) <==>
            && d.existing.Some? && d.existing.value.status == Open && d.existing.value.reason != RemoteReopened
            && if Prepare(d, settings, incremental).reminder then d.existing.value.bodyHash == d.reminderBodyHash
               else !SameAnchor(d) && SameBody(d)
    ensures Threads.AlreadyPosted(w, p) ==> Threads.PostOne(w, p, None).threads == w.threads
  {
  }

  /** An anchor is made of the file, the line and the hunk's header. This thread's finding is found again
      at its line, under a header that covers one line more. */
  function FoundBefore(): Thread
  {
    Thread("t", None, "f", "a.c|7|@@ -7 +7 @@", "text", None, Open, NoReason, None, 0)
  }

  function FoundAgain(): Decision
  {
    Decision(1, 1, "f", "a.c", "R1", Some(7), 0.5, 0, 0, "a.c|7|@@ -7 +7,2 @@", Eligible, NotSuppressed)
  }

  /** The finding is scheduled and counts as published, and nothing is posted under the new header. */
  lemma {:induction false} MovedFindingIsNotPosted(settings: Settings, incremental: bool)
    ensures var draft := Draft(FoundAgain(), Some(FoundBefore()), "text", "reminder", "title", None, false);
            Schedulable(Prepare(draft, settings, incremental))
    ensures Threads.PostOne(Threads.World([FoundBefore()], [FoundAgain()], []),
                            Threads.Posting(0, Some(0), "text", Threads.Posted("u", None)), None) ==
            Threads.World([FoundBefore()], [FoundAgain().(state := Published)], [])
  {
    AnchorsDiffer();
  }

  lemma {:induction false} AnchorsDiffer()
    ensures FoundBefore().anchor != FoundAgain().anchor
  {
    assert FoundBefore().anchor[14] == ' ' && FoundAgain().anchor[14] == ',';
  }

  // ----- same-line suppression ---------------------------------------------------------------

  type CategoryKey = (string, int, string)

  /** The candidate takes part in the contest for its line and category. */
  predicate Contends(c: Candidate, key: CategoryKey)
  {
    c.categoryKey == Some(key) && !c.backlogOnly
  }

  /** No worse: by priority group, then score, then rule number. */
  predicate NoWorse(a: Candidate, b: Candidate)
  {
    a.priorityGroup < b.priorityGroup
    || (a.priorityGroup == b.priorityGroup
        && (a.decision.score > b.decision.score
            || (a.decision.score == b.decision.score && Le(a.decision.ruleNo, b.decision.ruleNo))))
  }

  /** The positions below n of the candidates that contend for the key. */
  function Contenders(cs: seq<Candidate>, key: CategoryKey, n: nat): (group: seq<nat>)
    requires n <= |cs|
    ensures |group| <= n
  {
    if n == 0 then []
    else Contenders(cs, key, n - 1) + if Contends(cs[n - 1], key) then [n - 1] else []
  }

  ghost predicate Indexes(group: seq<nat>, cs: seq<Candidate>)
  {
    forall k :: 0 <= k < |group| ==> group[k] < |cs|
  }

  lemma {:induction false} ContendersAre(cs: seq<Candidate>, key: CategoryKey, n: nat)
    requires n <= |cs|
    ensures Indexes(Contenders(cs, key, n), cs)
    ensures forall i :: i in Contenders(cs, key, n) <==> 0 <= i < n && Contends(cs[i], key)
  {
    if n > 0 {
      ContendersAre(cs, key, n - 1);
    }
  }

  /** The first of the best. */
  ghost predicate IsWinner(cs: seq<Candidate>, key: CategoryKey, i: nat)
  {
    && i < |cs| && Contends(cs[i], key)
    && (forall j :: 0 <= j < |cs| && Contends(cs[j], key) ==> NoWorse(cs[i], cs[j]))
    && (forall j :: 0 <= j < i && Contends(cs[j], key) ==> !NoWorse(cs[j], cs[i]))
  }

  /** The contenders disagree on what they would post. */
  ghost predicate Mixed(cs: seq<Candidate>, key: CategoryKey)
  {
    exists i, j :: 0 <= i < |cs| && 0 <= j < |cs| && Contends(cs[i], key) && Contends(cs[j], key)
                   && cs[i].publicationKey != cs[j].publicationKey
  }

  ghost predicate Loses(cs: seq<Candidate>, i: nat)
    requires i < |cs|
  {
    && cs[i].categoryKey.Some? && !cs[i].backlogOnly
    && Mixed(cs, cs[i].categoryKey.value) && !IsWinner(cs, cs[i].categoryKey.value, i)
  }

  /** The candidates below n that are not suppressed, in order. */
  ghost function Survivors(cs: seq<Candidate>, n: nat): seq<Candidate>
    requires n <= |cs|
  {
    if n == 0 then []
    else Survivors(cs, n - 1) + if Loses(cs, n - 1) then [] else [cs[n - 1]]
  }

  function Suppress(c: Candidate): Candidate
  {
    c.(decision := c.decision.(state := Suppressed, suppression := OtherSuppression))
  }

  lemma {:induction false} NoWorsePreorder(a: Candidate, b: Candidate, c: Candidate)
    ensures NoWorse(a, b) || NoWorse(b, a)
    ensures NoWorse(a, b) && NoWorse(b, c) ==> NoWorse(a, c)
  {
    LeTotal(a.decision.ruleNo, b.decision.ruleNo);
    if Le(a.decision.ruleNo, b.decision.ruleNo) && Le(b.decision.ruleNo, c.decision.ruleNo) {
      LeTransitive(a.decision.ruleNo, b.decision.ruleNo, c.decision.ruleNo);
    }
  }

  /** What beats a candidate beats everything that candidate is no worse than. */
  lemma {:induction false} StrictlyBetter(a: Candidate, b: Candidate, c: Candidate)
    requires !NoWorse(b, a) && NoWorse(b, c)
    ensures NoWorse(a, c) && !NoWorse(c, a)
  {
    NoWorsePreorder(a, b, c);
    NoWorsePreorder(b, c, a);
  }

  /** The first of the least. */
  ghost predicate IsFirstLeast(xs: seq<Candidate>, b: nat)
  {
    && b < |xs|
    && (forall l :: 0 <= l < |xs| ==> NoWorse(xs[b], xs[l]))
    && (forall l :: 0 <= l < b ==> !NoWorse(xs[l], xs[b]))
  }

  lemma {:induction false} FirstLeastStep(xs: seq<Candidate>, x: Candidate, b: nat)
    requires IsFirstLeast(xs, b)
    ensures IsFirstLeast(xs + [x], if NoWorse(xs[b], x) then b else |xs|)
  {
    NoWorsePreorder(x, x, x);
    if !NoWorse(xs[b], x) {
      forall l | 0 <= l < |xs|
        ensures NoWorse(x, xs[l]) && !NoWorse(xs[l], x)
      {
        StrictlyBetter(x, xs[b], xs[l]);
      }
    }
  }

  method Min(xs: seq<Candidate>) returns (best: nat)
    requires xs != []
    ensures IsFirstLeast(xs, best)
  {
    best := 0;
    NoWorsePreorder(xs[0], xs[0], xs[0]);
    for k := 1 to |xs|
      invariant IsFirstLeast(xs[..k], best)
    {
      FirstLeastStep(xs[..k], xs[k], best);
      assert xs[..k + 1] == xs[..k] + [xs[k]];
      if !NoWorse(xs[best], xs[k]) {
        best := k;
      }
    }
    assert xs[..|xs|] == xs;
  }

  /** The winner of a group. */
  method Least(cs: seq<Candidate>, key: CategoryKey, group: seq<nat>) returns (winner: nat)
    requires group == Contenders(cs, key, |cs|) && group != []
    ensures IsWinner(cs, key, winner)
  {
    ContendersAre(cs, key, |cs|);
    ContendersAscend(cs, key, |cs|);
    var xs := seq(|group|, k requires 0 <= k < |group| => cs[group[k]]);
    var best := Min(xs);
    winner := group[best];
    WinnerOfGroup(cs, key, group, xs, best);
  }

  lemma {:induction false} WinnerOfGroup(cs: seq<Candidate>, key: CategoryKey, group: seq<nat>, xs: seq<Candidate>,
                                         best: nat)
    requires group == Contenders(cs, key, |cs|) && Indexes(group, cs) && Ascending(group)
    requires |xs| == |group| && forall k :: 0 <= k < |group| ==> xs[k] == cs[group[k]]
    requires IsFirstLeast(xs, best)
    ensures IsWinner(cs, key, group[best])
  {
    ContendersAre(cs, key, |cs|);
    assert group[best] in group;
    forall j | 0 <= j < |cs| && Contends(cs[j], key)
      ensures NoWorse(cs[group[best]], cs[j])
      ensures j < group[best] ==> !NoWorse(cs[j], cs[group[best]])
    {
      assert j in group;
      var l :| 0 <= l < |group| && group[l] == j;
      assert xs[l] == cs[j];
    }
  }

  lemma {:induction false} ContendersAscend(cs: seq<Candidate>, key: CategoryKey, n: nat)
    requires n <= |cs|
    ensures Ascending(Contenders(cs, key, n))
  {
    if n > 0 {
      ContendersAscend(cs, key, n - 1);
      ContendersAre(cs, key, n - 1);
      AscendingPush(Contenders(cs, key, n - 1), n - 1);
    }
  }

  /** The publication keys of a group. */
  function Keys(cs: seq<Candidate>, group: seq<nat>): set<(string, Option<int>, string)>
  {
    set k | 0 <= k < |group| && group[k] < |cs| :: cs[group[k]].publicationKey
  }

  lemma {:induction false} MixedHasTwoKeys(cs: seq<Candidate>, key: CategoryKey)
    requires Mixed(cs, key)
    ensures |Keys(cs, Contenders(cs, key, |cs|))| >= 2
  {
    var group := Contenders(cs, key, |cs|);
    ContendersAre(cs, key, |cs|);
    var i, j :| 0 <= i < |cs| && 0 <= j < |cs| && Contends(cs[i], key) && Contends(cs[j], key)
                && cs[i].publicationKey != cs[j].publicationKey;
    assert i in group && j in group;
    var two := {cs[i].publicationKey, cs[j].publicationKey};
    assert two <= Keys(cs, group) && |two| == 2;
    SubsetIsSmaller(two, Keys(cs, group));
  }

  lemma {:induction false} MixedExactlyWhenTwoKeys(cs: seq<Candidate>, key: CategoryKey)
    ensures Mixed(cs, key) <==> |Keys(cs, Contenders(cs, key, |cs|))| >= 2
  {
    var group := Contenders(cs, key, |cs|);
    ContendersAre(cs, key, |cs|);
    if Mixed(cs, key) {
      MixedHasTwoKeys(cs, key);
    } else if group != [] {
      var only := cs[group[0]].publicationKey;
      assert forall k :: 0 <= k < |group| ==> group[k] in group;
      assert Keys(cs, group) <= {only};
      SubsetIsSmaller(Keys(cs, group), {only});
    }
  }

  type Groups = map<CategoryKey, seq<nat>>

  /** The key's group holds its contenders among the first n; a key without contenders has no group. */
  ghost predicate GroupedFor(cs: seq<Candidate>, grouped: Groups, keys: seq<CategoryKey>, n: nat, key: CategoryKey)
    requires n <= |cs|
  {
    && (key in keys <==> key in grouped)
    && (key in grouped ==> grouped[key] == Contenders(cs, key, n) && grouped[key] != [])
    && (key !in grouped ==> Contenders(cs, key, n) == [])
  }

  lemma {:induction false} OutsiderKeepsGroup(cs: seq<Candidate>, grouped: Groups, keys: seq<CategoryKey>, i: nat,
                                              next: nat,
                                              key: CategoryKey)
    requires i < |cs| && next == i + 1 && GroupedFor(cs, grouped, keys, i, key) && !Contends(cs[i], key)
    ensures GroupedFor(cs, grouped, keys, next, key)
  {
    assert Contenders(cs, key, next) == Contenders(cs, key, i) + [];
  }

  lemma ContenderJoinsGroup(cs: seq<Candidate>, grouped: Groups, keys: seq<CategoryKey>, i: nat, next: nat,
                            own: CategoryKey,
                            grouped': Groups, keys': seq<CategoryKey>, key: CategoryKey)
    requires i < |cs| && next == i + 1 && GroupedFor(cs, grouped, keys, i, key) && GroupedFor(cs, grouped, keys, i, own)
    requires Contends(cs[i], own)
    requires own in grouped ==> grouped' == grouped[own := grouped[own] + [i]] && keys' == keys
    requires own !in grouped ==> grouped' == grouped[own := [i]] && keys' == keys + [own]
    ensures GroupedFor(cs, grouped', keys', next, key)
  {
  }

  /** Groups the contenders by key, keys in order of first appearance. */
  method GroupByKey(cs: seq<Candidate>) returns (grouped: Groups, keys: seq<CategoryKey>)
    ensures forall key :: GroupedFor(cs, grouped, keys, |cs|, key)
  {
    grouped, keys := map[], [];
    for i := 0 to |cs|
      invariant forall key :: GroupedFor(cs, grouped, keys, i, key)
    {
      ghost var (before, listed, next) := (grouped, keys, i + 1);
      if cs[i].categoryKey.Some? && !cs[i].backlogOnly {
        var own := cs[i].categoryKey.value;
        if own !in grouped {
          grouped, keys := grouped[own := [i]], keys + [own];
        } else {
          grouped := grouped[own := grouped[own] + [i]];
        }
        forall key
          ensures GroupedFor(cs, grouped, keys, next, key)
        {
          assert GroupedFor(cs, before, listed, i, own);
          ContenderJoinsGroup(cs, before, listed, i, next, own, grouped, keys, key);
        }
      } else {
        forall key
          ensures GroupedFor(cs, grouped, keys, next, key)
        {
          OutsiderKeepsGroup(cs, before, listed, i, next, key);
        }
      }
    }
  }

  /** A suppressed candidate lost a contest whose key is among the given ones. */
  ghost predicate LosesIn(cs: seq<Candidate>, keys: seq<CategoryKey>, i: nat)
    requires i < |cs|
  {
    Loses(cs, i) && cs[i].categoryKey.value in keys
  }

  ghost predicate LosesFor(cs: seq<Candidate>, key: CategoryKey, i: nat)
    requires i < |cs|
  {
    Loses(cs, i) && cs[i].categoryKey == Some(key)
  }

  method SuppressGroup(cs: seq<Candidate>, key: CategoryKey, group: seq<nat>, suppressed: set<nat>)
    returns (more: set<nat>)
    requires group == Contenders(cs, key, |cs|) && group != []
    ensures forall i: nat :: i in more <==> i in suppressed || (i < |cs| && LosesFor(cs, key, i))
  {
    more := suppressed;
    MixedExactlyWhenTwoKeys(cs, key);
    if |Keys(cs, group)| < 2 {
      return;
    }
    var winner := Least(cs, key, group);
    more := AddOthers(group, winner, suppressed);
    forall i: nat | i < |cs|
      ensures LosesFor(cs, key, i) <==> i in group && i != winner
    {
      LosersOf(cs, key, winner, i);
    }
    ContendersAre(cs, key, |cs|);
  }

  lemma {:induction false} LosersOf(cs: seq<Candidate>, key: CategoryKey, winner: nat, i: nat)
    requires i < |cs| && Mixed(cs, key) && IsWinner(cs, key, winner)
    ensures LosesFor(cs, key, i) <==> i in Contenders(cs, key, |cs|) && i != winner
  {
    ContendersAre(cs, key, |cs|);
  }

  method AddOthers(group: seq<nat>, winner: nat, suppressed: set<nat>) returns (more: set<nat>)
    ensures forall i: nat :: i in more <==> i in suppressed || (i in group && i != winner)
  {
    more := suppressed;
    for k := 0 to |group|
      invariant forall i: nat :: i in more <==> i in suppressed || (i in group[..k] && i != winner)
    {
      if group[k] != winner {
        more := more + {group[k]};
      }
    }
    assert group[..|group|] == group;
  }

  /** One finding per line and category: of the candidates that would post different comments for the
      same line and category, only the best is kept. Also gives the candidates with the decisions of
      the suppressed ones marked. */
  method SuppressSameLineCategoryEquivalents(cs: seq<Candidate>) returns (kept: seq<Candidate>, marked: seq<Candidate>)
    ensures kept == Survivors(cs, |cs|)
    ensures |marked| == |cs|
    ensures forall i :: 0 <= i < |cs| ==>
              marked[i] ==
              if Loses(cs, i)
              then cs[i].(decision := cs[i].decision.(state := Suppressed, suppression := OtherSuppression)) else cs[i]
  {
    var grouped, keys := GroupByKey(cs);
    var suppressed: set<nat> := {};
    for k := 0 to |keys|
      invariant forall i: nat :: i in suppressed <==> i < |cs| && LosesIn(cs, keys[..k], i)
    {
      assert keys[k] in keys && GroupedFor(cs, grouped, keys, |cs|, keys[k]);
      suppressed := SuppressGroup(cs, keys[k], grouped[keys[k]], suppressed);
      assert keys[..k + 1] == keys[..k] + [keys[k]];
      forall i: nat | i < |cs|
        ensures LosesIn(cs, keys[..k + 1], i) <==> LosesIn(cs, keys[..k], i) || LosesFor(cs, keys[k], i)
      {
      }
    }
    assert keys[..|keys|] == keys;
    forall i: nat | i < |cs|
      ensures i in suppressed <==> Loses(cs, i)
    {
      if cs[i].categoryKey.Some? {
        ContendersAre(cs, cs[i].categoryKey.value, |cs|);
        assert GroupedFor(cs, grouped, keys, |cs|, cs[i].categoryKey.value);
      }
    }
    OutsideAreSurvivors(cs, suppressed, |cs|);
    kept, marked := MarkSuppressed(cs, suppressed);
  }

  /** The candidates below n at positions outside the set. */
  function Outside(cs: seq<Candidate>, suppressed: set<nat>, n: nat): seq<Candidate>
    requires n <= |cs|
  {
    if n == 0 then []
    else Outside(cs, suppressed, n - 1) + if n - 1 in suppressed then [] else [cs[n - 1]]
  }

  lemma {:induction false} OutsideAreSurvivors(cs: seq<Candidate>, suppressed: set<nat>, n: nat)
    requires n <= |cs|
    requires forall i: nat :: i < |cs| ==> (i in suppressed <==> Loses(cs, i))
    ensures Outside(cs, suppressed, n) == Survivors(cs, n)
  {
    if n > 0 {
      OutsideAreSurvivors(cs, suppressed, n - 1);
    }
  }

  method MarkSuppressed(cs: seq<Candidate>, suppressed: set<nat>) returns (kept: seq<Candidate>, marked: seq<Candidate>)
    ensures kept == Outside(cs, suppressed, |cs|)
    ensures |marked| == |cs|
    ensures forall i :: 0 <= i < |cs| ==> marked[i] == if i in suppressed then Suppress(cs[i]) else cs[i]
  {
    kept, marked := [], [];
    for i := 0 to |cs|
      invariant kept == Outside(cs, suppressed, i)
      invariant |marked| == i
      invariant forall j :: 0 <= j < i ==> marked[j] == if j in suppressed then Suppress(cs[j]) else cs[j]
    {
      if i in suppressed {
        marked := marked + [Suppress(cs[i])];
      } else {
        kept, marked := kept + [cs[i]], marked + [cs[i]];
      }
    }
  }

  // ----- what suppression guarantees ---------------------------------------------------------

  lemma {:induction false} SurvivorsAre(cs: seq<Candidate>, n: nat)
    requires n <= |cs|
    ensures forall c :: c in Survivors(cs, n) <==> exists i :: 0 <= i < n && cs[i] == c && !Loses(cs, i)
  {
    if n > 0 {
      SurvivorsAre(cs, n - 1);
      forall c
        ensures c in Survivors(cs, n) <==> exists i :: 0 <= i < n && cs[i] == c && !Loses(cs, i)
      {
        if c in Survivors(cs, n) && c !in Survivors(cs, n - 1) {
          assert cs[n - 1] == c && !Loses(cs, n - 1);
        }
      }
    }
  }

  lemma {:induction false} SomeFirstLeast(xs: seq<Candidate>) returns (best: nat)
    requires xs != []
    ensures IsFirstLeast(xs, best)
  {
    var (front, last) := (xs[..|xs| - 1], xs[|xs| - 1]);
    if front == [] {
      best := 0;
      NoWorsePreorder(last, last, last);
    } else {
      best := SomeFirstLeast(front);
      FirstLeastStep(front, last, best);
      best := if NoWorse(front[best], last) then best else |front|;
      assert xs == front + [last];
    }
  }

  lemma {:induction false} SomeWinner(cs: seq<Candidate>, key: CategoryKey, i: nat) returns (w: nat)
    requires i < |cs| && Contends(cs[i], key)
    ensures IsWinner(cs, key, w)
  {
    var group := Contenders(cs, key, |cs|);
    ContendersAre(cs, key, |cs|);
    ContendersAscend(cs, key, |cs|);
    assert i in group;
    var xs := seq(|group|, k requires 0 <= k < |group| => cs[group[k]]);
    var best := SomeFirstLeast(xs);
    w := group[best];
    WinnerOfGroup(cs, key, group, xs, best);
  }

  /** Both stand for the same line and category, and neither is left to the backlog. */
  predicate Rivals(a: Candidate, b: Candidate)
  {
    a.categoryKey.Some? && a.categoryKey == b.categoryKey && !a.backlogOnly && !b.backlogOnly
  }

  /** a is the better of two rivals: a lower group; or the same group and a higher score; or both the same and
      a rule that sorts strictly earlier. */
  predicate Beats(a: Candidate, b: Candidate)
  {
    || a.priorityGroup < b.priorityGroup
    || (a.priorityGroup == b.priorityGroup && a.decision.score > b.decision.score)
    || (a.priorityGroup == b.priorityGroup && a.decision.score == b.decision.score
        && Le(a.decision.ruleNo, b.decision.ruleNo) && a.decision.ruleNo != b.decision.ruleNo)
  }

  predicate Level(a: Candidate, b: Candidate)
  {
    && a.priorityGroup == b.priorityGroup && a.decision.score == b.decision.score
    && a.decision.ruleNo == b.decision.ruleNo
  }

  /** Candidate w comes before its rival i: it is better, or they are level and it is the earlier. */
  predicate Defeats(cs: seq<Candidate>, w: nat, i: nat)
  {
    w < |cs| && i < |cs| && Rivals(cs[w], cs[i]) && (Beats(cs[w], cs[i]) || (Level(cs[w], cs[i]) && w < i))
  }

  lemma {:induction false} NoWorseMeans(a: Candidate, b: Candidate)
    ensures NoWorse(a, b) <==> Beats(a, b) || Level(a, b)
    ensures !NoWorse(b, a) <==> Beats(a, b)
  {
    LeTotal(a.decision.ruleNo, b.decision.ruleNo);
    LeTotal(a.decision.ruleNo, a.decision.ruleNo);
    if Le(a.decision.ruleNo, b.decision.ruleNo) && Le(b.decision.ruleNo, a.decision.ruleNo) {
      LeAntisymmetric(a.decision.ruleNo, b.decision.ruleNo);
    }
  }

  /** Nobody is suppressed for nothing: a survivor of the same line and category comes before it. */
  lemma {:induction false} SuppressedInFavourOfABetter(cs: seq<Candidate>, i: nat) returns (w: nat)
    requires i < |cs| && Loses(cs, i)
    ensures w < |cs| && w != i && !Loses(cs, w) && cs[w] in Survivors(cs, |cs|)
    ensures Defeats(cs, w, i)
  {
    var key := cs[i].categoryKey.value;
    w := SomeWinner(cs, key, i);
    SurvivorsAre(cs, |cs|);
    NoWorseMeans(cs[w], cs[i]);
  }

  /** Some rivals of candidate i would post different comments. */
  ghost predicate Disputed(cs: seq<Candidate>, i: nat)
    requires i < |cs|
  {
    exists j, k :: 0 <= j < |cs| && 0 <= k < |cs| && Rivals(cs[j], cs[i]) && Rivals(cs[k], cs[i])
                   && cs[j].publicationKey != cs[k].publicationKey
  }

  /** Who is suppressed: exactly those whose line and category are disputed and who have a rival that comes
      before them. */
  lemma {:induction false} SuppressedExactlyWhen(cs: seq<Candidate>, i: nat)
    requires i < |cs|
    ensures Loses(cs, i) <==> Disputed(cs, i) && exists w: nat :: Defeats(cs, w, i)
  {
    if Loses(cs, i) {
      var key := cs[i].categoryKey.value;
      var j, k :| 0 <= j < |cs| && 0 <= k < |cs| && Contends(cs[j], key) && Contends(cs[k], key)
                  && cs[j].publicationKey != cs[k].publicationKey;
      assert Rivals(cs[j], cs[i]) && Rivals(cs[k], cs[i]);
      var w := SuppressedInFavourOfABetter(cs, i);
    } else if Disputed(cs, i) {
      forall w: nat
        ensures !Defeats(cs, w, i)
      {
        WinnerIsUndefeated(cs, i, w);
      }
    }
  }

  lemma {:induction false} WinnerIsUndefeated(cs: seq<Candidate>, i: nat, w: nat)
    requires i < |cs| && Disputed(cs, i) && !Loses(cs, i)
    ensures !Defeats(cs, w, i)
  {
    var j, k :| 0 <= j < |cs| && 0 <= k < |cs| && Rivals(cs[j], cs[i]) && Rivals(cs[k], cs[i])
                && cs[j].publicationKey != cs[k].publicationKey;
    var key := cs[i].categoryKey.value;
    assert Contends(cs[j], key) && Contends(cs[k], key);
    assert IsWinner(cs, key, i);
    if Defeats(cs, w, i) {
      NoWorseMeans(cs[w], cs[i]);
      assert Contends(cs[w], key);
    }
  }

  /** Two survivors that contend for the same line and category would post under the same key. */
  lemma {:induction false} SurvivorsAgree(cs: seq<Candidate>, a: Candidate, b: Candidate, key: CategoryKey)
    requires a in Survivors(cs, |cs|) && b in Survivors(cs, |cs|)
    requires Contends(a, key) && Contends(b, key)
    ensures a.publicationKey == b.publicationKey
  {
    SurvivorsAre(cs, |cs|);
    var i :| 0 <= i < |cs| && cs[i] == a && !Loses(cs, i);
    var j :| 0 <= j < |cs| && cs[j] == b && !Loses(cs, j);
    if Mixed(cs, key) {
      assert IsWinner(cs, key, i) && IsWinner(cs, key, j);
      assert i == j;
    }
  }

  /** Suppressing again suppresses nothing. */
  lemma {:induction false} SuppressionIsIdempotent(cs: seq<Candidate>, n: nat)
    requires n <= |Survivors(cs, |cs|)|
    ensures var kept := Survivors(cs, |cs|); Survivors(kept, n) == kept[..n]
  {
    var kept := Survivors(cs, |cs|);
    if n > 0 {
      SuppressionIsIdempotent(cs, n - 1);
      if kept[n - 1].categoryKey.Some? {
        var key := kept[n - 1].categoryKey.value;
        forall i, j | 0 <= i < |kept| && 0 <= j < |kept| && Contends(kept[i], key) && Contends(kept[j], key)
          ensures kept[i].publicationKey == kept[j].publicationKey
        {
          SurvivorsAgree(cs, kept[i], kept[j], key);
        }
      }
    }
  }

  // ----- posting each key once ---------------------------------------------------------------

  function HasKey(key: (string, Option<int>, string)): Candidate -> bool
  {
    (c: Candidate) => c.publicationKey == key
  }

  /** The first candidate of each publication key. */
  function FirstOfEachKey(selected: seq<Candidate>): seq<Candidate>
  {
    if selected == [] then []
    else
      var front := FirstOfEachKey(selected[..|selected| - 1]);
      var c := selected[|selected| - 1];
      if Count(selected[..|selected| - 1], HasKey(c.publicationKey)) > 0 then front else front + [c]
  }

  ghost predicate Represented(posted: seq<Candidate>, key: (string, Option<int>, string))
  {
    exists d :: d in posted && d.publicationKey == key
  }

  /** Every key has its first candidate. */
  lemma {:induction false} EveryKeyIsRepresented(selected: seq<Candidate>, c: Candidate)
    requires c in selected
    ensures Represented(FirstOfEachKey(selected), c.publicationKey)
  {
    var (rest, last) := (selected[..|selected| - 1], selected[|selected| - 1]);
    CountPositive(rest, HasKey(last.publicationKey));
    if c in rest {
      EveryKeyIsRepresented(rest, c);
      var d :| d in FirstOfEachKey(rest) && d.publicationKey == c.publicationKey;
      assert d in FirstOfEachKey(selected);
    } else if Count(rest, HasKey(last.publicationKey)) > 0 {
      var i :| 0 <= i < |rest| && HasKey(last.publicationKey)(rest[i]);
      EveryKeyIsRepresented(rest, rest[i]);
    } else {
      assert last in FirstOfEachKey(selected);
    }
  }

  lemma {:induction false} SeenPush(selected: seq<Candidate>, i: nat, key: (string, Option<int>, string))
    requires i < |selected|
    ensures Count(selected[..i + 1], HasKey(key)) > 0 <==>
            Count(selected[..i], HasKey(key)) > 0 || key == selected[i].publicationKey
  {
    assert selected[..i + 1] == selected[..i] + [selected[i]];
    CountPush(selected[..i], selected[i], HasKey(key));
  }

  lemma {:induction false} FirstsPush(selected: seq<Candidate>, i: nat)
    requires i < |selected|
    ensures FirstOfEachKey(selected[..i + 1]) ==
            FirstOfEachKey(selected[..i])
            + if Count(selected[..i], HasKey(selected[i].publicationKey)) > 0 then [] else [selected[i]]
  {
    assert selected[..i + 1][..i] == selected[..i];
  }

  /** The posting loop's filter: a key already seen is a duplicate. */
  method DropSeenKeys(selected: seq<Candidate>) returns (posted: seq<Candidate>, duplicates: seq<Candidate>)
    ensures posted == FirstOfEachKey(selected)
    ensures |posted| + |duplicates| == |selected|
    ensures forall c :: c in duplicates ==> Represented(posted, c.publicationKey)
  {
    posted, duplicates := [], [];
    var seen: set<(string, Option<int>, string)> := {};
    for i := 0 to |selected|
      invariant posted == FirstOfEachKey(selected[..i])
      invariant |posted| + |duplicates| == i
      invariant forall key :: key in seen <==> Count(selected[..i], HasKey(key)) > 0
      invariant forall c :: c in duplicates ==> c in selected
    {
      var c := selected[i];
      FirstsPush(selected, i);
      forall key
        ensures Count(selected[..i + 1], HasKey(key)) > 0 <==>
                Count(selected[..i], HasKey(key)) > 0 || key == c.publicationKey
      {
        SeenPush(selected, i, key);
      }
      if c.publicationKey in seen {
        duplicates := duplicates + [c];
      } else {
        seen, posted := seen + {c.publicationKey}, posted + [c];
      }
    }
    assert selected[..|selected|] == selected;
    forall c | c in duplicates
      ensures Represented(posted, c.publicationKey)
    {
      EveryKeyIsRepresented(selected, c);
    }
  }

  ghost predicate KeysDiffer(posted: seq<Candidate>)
  {
    forall i, j :: 0 <= i < j < |posted| ==> posted[i].publicationKey != posted[j].publicationKey
  }

  lemma {:induction false} FirstsAre(selected: seq<Candidate>)
    ensures forall c :: c in FirstOfEachKey(selected) ==> c in selected
    ensures KeysDiffer(FirstOfEachKey(selected))
  {
    if selected != [] {
      var (rest, c) := (selected[..|selected| - 1], selected[|selected| - 1]);
      FirstsAre(rest);
      CountPositive(rest, HasKey(c.publicationKey));
      var front := FirstOfEachKey(rest);
      forall k | 0 <= k < |front|
        ensures front[k] in rest
        ensures front[k].publicationKey == c.publicationKey ==> Count(rest, HasKey(c.publicationKey)) >= 1
      {
        assert front[k] in front;
        var i :| 0 <= i < |rest| && rest[i] == front[k];
        assert HasKey(c.publicationKey)(rest[i]) <==> front[k].publicationKey == c.publicationKey;
      }
      forall d | d in FirstOfEachKey(selected)
        ensures d in selected
      {
      }
    }
  }

  /** What one publish phase posts for the prepared candidates. */
  ghost function Postable(cs: seq<Candidate>, caps: Caps, batch: int): seq<Candidate>
  {
    FirstOfEachKey(Select(Survivors(cs, |cs|), caps, batch))
  }

  lemma {:induction false} PostableAre(cs: seq<Candidate>, caps: Caps, batch: int)
    ensures forall c :: c in Postable(cs, caps, batch) ==> c in Survivors(cs, |cs|) && Schedulable(c)
  {
    var kept := Survivors(cs, |cs|);
    FirstsAre(Select(kept, caps, batch));
    GreedyPicksFrom(Ordered(kept), [], caps, batch);
    OrderedIsSorted(kept);
  }

  /** One comment per line and category: in a publish phase no two candidates that reach posting share
      a publication key, and no two share a line and category. */
  lemma {:induction false} OneCommentPerLineAndCategory(cs: seq<Candidate>, caps: Caps, batch: int, i: nat, j: nat)
    requires i < j < |Postable(cs, caps, batch)|
    ensures var posted := Postable(cs, caps, batch);
            && posted[i].publicationKey != posted[j].publicationKey
            && (posted[i].categoryKey.Some? ==> posted[i].categoryKey != posted[j].categoryKey)
            && posted[i] in cs && Schedulable(posted[i])
  {
    var posted := Postable(cs, caps, batch);
    FirstsAre(Select(Survivors(cs, |cs|), caps, batch));
    PostableAre(cs, caps, batch);
    SurvivorsAre(cs, |cs|);
    assert posted[i] in posted && posted[j] in posted;
    assert posted[i].publicationKey != posted[j].publicationKey;
    if posted[i].categoryKey.Some? && posted[i].categoryKey == posted[j].categoryKey {
      assert Contends(posted[i], posted[i].categoryKey.value) && Contends(posted[j], posted[i].categoryKey.value);
      SurvivorsAgree(cs, posted[i], posted[j], posted[i].categoryKey.value);
    }
  }
}
