/** The report conserves the run: every fingerprint stands in at most one section, once, and a decision
    of the run is missing exactly when nothing was done with it, it was deferred and no thread is live. */
module ReportTheorems {
  import opened Text
  import opened Records
  import opened Report

  function Occurrences(items: seq<Item>, f: string): nat
  {
    if items == [] then 0
    else Occurrences(items[..|items| - 1], f) + if items[|items| - 1].fingerprint == f then 1 else 0
  }

  lemma {:induction false} OccurrencesAppend(a: seq<Item>, b: seq<Item>, f: string)
    ensures Occurrences(a + b, f) == Occurrences(a, f) + Occurrences(b, f)
  {
    if b == [] {
      assert a + b == a;
    } else {
      assert (a + b)[..|a + b| - 1] == a + b[..|b| - 1];
      OccurrencesAppend(a, b[..|b| - 1], f);
    }
  }

  lemma {:induction false} OccursOnce(items: seq<Item>, item: Item, f: string)
    ensures Occurrences(items + [item], f) == Occurrences(items, f) + if item.fingerprint == f then 1 else 0
    ensures items + [] == items
  {
    assert (items + [item])[..|items|] == items;
  }

  /** No two decisions of the run share a fingerprint. */
  ghost predicate DistinctFingerprints(decisions: seq<Decision>)
  {
    forall i, j :: 0 <= i < j < |decisions| ==> decisions[i].fingerprint != decisions[j].fingerprint
  }

  // ----- where a fingerprint belongs ---------------------------------------------------------

  /** The section the run puts the fingerprint in. */
  function RunHome(decisions: seq<Decision>, src: Sources, f: string): Option<Section>
  {
    if decisions == [] then None
    else
      var d := decisions[|decisions| - 1];
      if d.fingerprint == f && RunSection(d, src).Some? then RunSection(d, src)
      else RunHome(decisions[..|decisions| - 1], src, f)
  }

  /** The first of the fingerprint's threads that could stand in the backlog. */
  function FirstShown(threads: seq<Thread>, src: Sources, f: string): (t: Option<Thread>)
    ensures t.Some? ==> t.value in threads && t.value.fingerprint == f && Shows(t.value, src)
  {
    if threads == [] then None
    else
      var t := threads[|threads| - 1];
      var earlier := FirstShown(threads[..|threads| - 1], src, f);
      if earlier.Some? then earlier
      else if t.fingerprint == f && Shows(t, src) then Some(t) else None
  }

  /** The one section of the fingerprint: the run's if the run has one for it, else the backlog's. */
  function Home(decisions: seq<Decision>, src: Sources, f: string): Option<Section>
  {
    if RunHome(decisions, src, f).Some? then RunHome(decisions, src, f)
    else
      match FirstShown(src.threads, src, f)
      case None => None
      case Some(t) => BacklogSection(t, src)
  }

  // ----- each fingerprint once ---------------------------------------------------------------

  lemma {:induction false} RunHomeIs(decisions: seq<Decision>, src: Sources, f: string)
    ensures RunHome(decisions, src, f).Some? <==> f in RunFingerprints(decisions, src)
    ensures RunHome(decisions, src, f).Some? ==>
              exists d :: d in decisions && d.fingerprint == f && RunSection(d, src) == RunHome(decisions, src, f)
  {
    if decisions != [] {
      var (front, last) := (decisions[..|decisions| - 1], decisions[|decisions| - 1]);
      RunHomeIs(front, src, f);
      assert decisions == front + [last];
      RunFingerprintsPush(front, last, src);
      if last.fingerprint == f && RunSection(last, src).Some? {
        assert last in decisions;
      } else if RunHome(front, src, f).Some? {
        var d :| d in front && d.fingerprint == f && RunSection(d, src) == RunHome(front, src, f);
        assert d in decisions;
      }
    }
  }

  lemma {:induction false} RunItemsOccur(decisions: seq<Decision>, src: Sources, s: Section, f: string)
    requires DistinctFingerprints(decisions)
    ensures Occurrences(RunItems(decisions, src, s), f) == if RunHome(decisions, src, f) == Some(s) then 1 else 0
  {
    if decisions != [] {
      var (front, last) := (decisions[..|decisions| - 1], decisions[|decisions| - 1]);
      RunItemsOccur(front, src, s, f);
      RunHomeIs(front, src, f);
      OccursOnce(RunItems(front, src, s), RunItem(last, src, s), f);
      if last.fingerprint == f {
        forall d | d in front
          ensures d.fingerprint != f
        {
          var i :| 0 <= i < |front| && front[i] == d;
          assert decisions[i] == d;
        }
        assert RunHome(front, src, f) == None;
      }
    }
  }

  lemma {:induction false} EntriesMention(threads: seq<Thread>, src: Sources, f: string)
    ensures Mentions(Entries(threads, src), f) <==> FirstShown(threads, src, f).Some?
  {
    if threads != [] {
      var (front, t) := (threads[..|threads| - 1], threads[|threads| - 1]);
      EntriesMention(front, src, f);
      EntriesMention(front, src, t.fingerprint);
      if Shows(t, src) {
        MentionsPush(Entries(front, src), Entry(BacklogSection(t, src).value, t));
      }
    }
  }

  /** The backlog section of the fingerprint, unless the run mentions it. */
  function BacklogHome(threads: seq<Thread>, src: Sources, mentioned: set<string>, f: string): Option<Section>
  {
    if f in mentioned then None
    else
      match FirstShown(threads, src, f)
      case None => None
      case Some(t) => BacklogSection(t, src)
  }

  lemma {:induction false} BacklogItemsPush(entries: seq<Entry>, e: Entry, mentioned: set<string>, s: Section,
                                            f: string)
    ensures Occurrences(BacklogItems(entries + [e], mentioned, s), f) ==
            Occurrences(BacklogItems(entries, mentioned, s), f)
            + if e.section == s && e.thread.fingerprint !in mentioned && e.thread.fingerprint == f then 1 else 0
  {
    assert (entries + [e])[..|entries|] == entries;
    OccursOnce(BacklogItems(entries, mentioned, s), Item(e.thread.fingerprint, s, Some(e.thread.ref)), f);
  }

  /** A further thread gives the fingerprint a home only if it had none. */
  lemma {:induction false} FirstShownPush(threads: seq<Thread>, t: Thread, src: Sources, f: string)
    ensures FirstShown(threads + [t], src, f) ==
            if FirstShown(threads, src, f).Some? then FirstShown(threads, src, f)
            else if t.fingerprint == f && Shows(t, src) then Some(t) else None
  {
    assert (threads + [t])[..|threads|] == threads;
  }

  lemma {:induction false} BacklogItemsOccur(threads: seq<Thread>, src: Sources, mentioned: set<string>, s: Section,
                                             f: string)
    ensures Occurrences(BacklogItems(Entries(threads, src), mentioned, s), f) ==
            if BacklogHome(threads, src, mentioned, f) == Some(s) then 1 else 0
  {
    if threads != [] {
      var (front, t) := (threads[..|threads| - 1], threads[|threads| - 1]);
      BacklogItemsOccur(front, src, mentioned, s, f);
      EntriesMention(front, src, t.fingerprint);
      assert threads == front + [t];
      FirstShownPush(front, t, src, f);
      var entries := Entries(front, src);
      if Shows(t, src) && !Mentions(entries, t.fingerprint) {
        BacklogItemsPush(entries, Entry(BacklogSection(t, src).value, t), mentioned, s, f);
      }
    }
  }

  /** The report lists a fingerprint in its home section, once, and nowhere else: no fingerprint is in
      two sections, be they of the run or of the backlog. */
  lemma {:induction false} EachFingerprintAtHome(decisions: seq<Decision>, src: Sources, s: Section, f: string)
    requires DistinctFingerprints(decisions)
    ensures Occurrences(Listed(decisions, src, s), f) == if Home(decisions, src, f) == Some(s) then 1 else 0
  {
    var mentioned := RunFingerprints(decisions, src);
    RunHomeIs(decisions, src, f);
    RunItemsOccur(decisions, src, s, f);
    BacklogItemsOccur(src.threads, src, mentioned, s, f);
    OccurrencesAppend(RunItems(decisions, src, s), BacklogItems(Entries(src.threads, src), mentioned, s), f);
  }

  // ----- every decision accounted for --------------------------------------------------------

  ghost predicate SomeLive(threads: seq<Thread>, f: string)
  {
    exists t :: t in threads && t.fingerprint == f && Live(t)
  }

  /** The lookup finds a live thread if there is one, and the one updated last. */
  lemma {:induction false} FindExistingIsNewest(threads: seq<Thread>, f: string)
    requires NewestFirst(threads)
    ensures FindExistingThread(threads, f).Some? <==> SomeLive(threads, f)
    ensures FindExistingThread(threads, f).Some? ==>
              forall t :: t in threads && t.fingerprint == f && Live(t)
                ==> t == FindExistingThread(threads, f).value
                    || t.updatedAt < FindExistingThread(threads, f).value.updatedAt
  {
    if threads != [] {
      var (first, rest) := (threads[0], threads[1..]);
      OlderRest(threads);
      FindExistingIsNewest(rest, f);
      if SomeLive(rest, f) {
        var t :| t in rest && t.fingerprint == f && Live(t);
        assert t in threads;
      }
    }
  }

  /** The first row is the newest; the rest are the other rows. */
  lemma {:induction false} OlderRest(threads: seq<Thread>)
    requires threads != [] && NewestFirst(threads)
    ensures threads[0] in threads && NewestFirst(threads[1..])
    ensures forall t :: t in threads ==> t == threads[0] || t in threads[1..]
    ensures forall t :: t in threads[1..] ==> t in threads && t.updatedAt < threads[0].updatedAt
  {
    forall t | t in threads[1..]
      ensures t in threads && t.updatedAt < threads[0].updatedAt
    {
      var i :| 0 <= i < |threads[1..]| && threads[1..][i] == t;
      assert threads[i + 1] == t;
    }
  }

  lemma {:induction false} FirstShownIsNewestShown(threads: seq<Thread>, src: Sources, f: string)
    requires NewestFirst(threads)
    ensures FirstShown(threads, src, f).Some? <==> exists t :: t in threads && t.fingerprint == f && Shows(t, src)
    ensures FirstShown(threads, src, f).Some? ==>
              forall t :: t in threads && t.fingerprint == f && Shows(t, src)
                ==> t == FirstShown(threads, src, f).value || t.updatedAt < FirstShown(threads, src, f).value.updatedAt
  {
    if threads != [] {
      var (front, last) := (threads[..|threads| - 1], threads[|threads| - 1]);
      FirstShownIsNewestShown(front, src, f);
      assert last in threads;
      assert forall t :: t in threads ==> t == last || t in front;
      forall t | t in front
        ensures t in threads && last.updatedAt < t.updatedAt
      {
        var i :| 0 <= i < |front| && front[i] == t;
        assert threads[i] == t;
      }
    }
  }

  /** The backlog shows a fingerprint through its newest live thread exactly when that thread itself
      belongs in the backlog. */
  lemma {:induction false} BacklogKeepsTheNewestExactlyWhenItShows(src: Sources, f: string)
    requires NewestFirst(src.threads) && FirstShown(src.threads, src, f).Some?
    ensures var newest := FindExistingThread(src.threads, f);
            newest.Some? && (FirstShown(src.threads, src, f) == newest <==> Shows(newest.value, src))
  {
    FindExistingIsNewest(src.threads, f);
    FirstShownIsNewestShown(src.threads, src, f);
    var shown := FirstShown(src.threads, src, f).value;
    assert shown in src.threads && Live(shown);
  }

  /** Otherwise an older thread stands in for it: a finding whose thread was reopened is listed as
      resolved, because an older thread of the same finding is. */
  lemma {:induction false} OlderThreadStandsIn(src: Sources, f: string, newer: Thread, older: Thread)
    requires src.threads == [newer, older] && f != "" && f !in src.later && !src.settings.resurfaceResolved
    requires newer.fingerprint == f && newer.status == Open && newer.reason == RemoteReopened
    requires older.fingerprint == f && older.status == Resolved
    ensures FindExistingThread(src.threads, f) == Some(newer)
    ensures FirstShown(src.threads, src, f) == Some(older)
    ensures Home([], src, f) == Some(BacklogResolvedUnchanged)
  {
    assert src.threads[..1] == [newer] && [newer][..0] == [];
    assert FirstShown([newer], src, f) == None;
  }

  lemma {:induction false} OwnHome(decisions: seq<Decision>, src: Sources, i: nat)
    requires i < |decisions| && DistinctFingerprints(decisions)
    ensures RunHome(decisions, src, decisions[i].fingerprint) == RunSection(decisions[i], src)
  {
    var f := decisions[i].fingerprint;
    RunHomeIs(decisions, src, f);
    if RunSection(decisions[i], src).Some? {
      assert decisions[i] in decisions;
      assert f in RunFingerprints(decisions, src);
    }
    if RunHome(decisions, src, f).Some? {
      var d :| d in decisions && d.fingerprint == f && RunSection(d, src) == RunHome(decisions, src, f);
      var j :| 0 <= j < |decisions| && decisions[j] == d;
      assert i == j;
    }
  }

  /** Neither suppressed by feedback, nor failed, nor posted: the run says nothing of its own about it. */
  predicate Unannounced(d: Decision, src: Sources)
  {
    && d.suppression != FeedbackIgnore && d.suppression != FeedbackFalsePositive && d.state != FailedPublication
    && (d.id in src.publications ==> src.publications[d.id] != Created && src.publications[d.id] != Updated)
  }

  /** The newest live thread of the decision is resolved and already says what the decision says. */
  predicate ResolvedAsItIs(d: Decision, src: Sources)
  {
    var t := FindExistingThread(src.threads, d.fingerprint);
    && t.Some? && t.value.status == Resolved && !src.settings.resurfaceResolved
    && t.value.anchor == d.anchor && t.value.bodyHash == src.bodyHash(d)
  }

  /** The run leaves a decision to the backlog exactly when it has nothing of its own to say and the
      decision is deferred, or resolved as it is. */
  lemma LeftToTheBacklog(d: Decision, src: Sources)
    ensures RunSection(d, src) == None <==>
            Unannounced(d, src) && (d.fingerprint in src.later || ResolvedAsItIs(d, src))
    ensures RunSection(d, src).Some? ==> !InBacklog(RunSection(d, src).value)
  {
  }

  /** A fingerprint the run leaves alone stands in the backlog if it has a live thread. */
  lemma {:induction false} BacklogTakes(d: Decision, src: Sources)
    requires NewestFirst(src.threads) && RunSection(d, src) == None && d.fingerprint != ""
    ensures FirstShown(src.threads, src, d.fingerprint).Some? <==> SomeLive(src.threads, d.fingerprint)
  {
    var f := d.fingerprint;
    LeftToTheBacklog(d, src);
    FindExistingIsNewest(src.threads, f);
    FirstShownIsNewestShown(src.threads, src, f);
    if SomeLive(src.threads, f) {
      var newest := FindExistingThread(src.threads, f).value;
      assert newest in src.threads && Shows(newest, src);
    }
  }

  /** What the backlog shows of it, it shows as deferred or as resolved and unchanged. */
  lemma {:induction false} BacklogSays(d: Decision, src: Sources)
    requires RunSection(d, src) == None && FirstShown(src.threads, src, d.fingerprint).Some?
    requires NewestFirst(src.threads)
    ensures BacklogSection(FirstShown(src.threads, src, d.fingerprint).value, src) ==
            Some(if d.fingerprint in src.later then BacklogFeedbackLater else BacklogResolvedUnchanged)
  {
    var f := d.fingerprint;
    LeftToTheBacklog(d, src);
    FindExistingIsNewest(src.threads, f);
    FirstShownIsNewestShown(src.threads, src, f);
    if f !in src.later {
      var newest := FindExistingThread(src.threads, f).value;
      assert newest in src.threads && Shows(newest, src);
    }
  }

  /** Every decision of the run is in the report exactly once, in the run's own section if it has one,
      else in the backlog, as deferred or as resolved and unchanged. Missing are exactly the decisions
      the run says nothing about that are deferred and have no live thread to stand in the backlog. One
      with the empty fingerprint, which the backlog skips, is missing whenever it is left to it. */
  lemma {:induction false} EveryDecisionAccountedFor(decisions: seq<Decision>, src: Sources, i: nat)
    requires i < |decisions| && DistinctFingerprints(decisions) && NewestFirst(src.threads)
    ensures var d := decisions[i];
            var f := d.fingerprint;
            var home := Home(decisions, src, f);
            && (f != "" ==> (home == None <==> Unannounced(d, src) && f in src.later && !SomeLive(src.threads, f)))
            && (f == "" ==> (home == None <==> Unannounced(d, src) && (f in src.later || ResolvedAsItIs(d, src))))
            && (RunSection(d, src).Some? ==> home == RunSection(d, src))
            && (RunSection(d, src) == None && home.Some? ==>
                  home == Some(if f in src.later then BacklogFeedbackLater else BacklogResolvedUnchanged))
  {
    var d := decisions[i];
    OwnHome(decisions, src, i);
    LeftToTheBacklog(d, src);
    if RunSection(d, src) == None {
      FindExistingIsNewest(src.threads, d.fingerprint);
      if d.fingerprint != "" {
        BacklogTakes(d, src);
      }
      if FirstShown(src.threads, src, d.fingerprint).Some? {
        BacklogSays(d, src);
      }
    }
  }

  // ----- the ten sections, in the rows' own terms --------------------------------------------

  /** The open or resolved thread of the fingerprint that was updated last. */
  ghost predicate NewestLive(threads: seq<Thread>, f: string, t: Thread)
  {
    && t in threads && t.fingerprint == f && (t.status == Open || t.status == Resolved)
    && forall u :: u in threads && u.fingerprint == f && (u.status == Open || u.status == Resolved) ==>
         u == t || u.updatedAt < t.updatedAt
  }

  /** That thread has this status, stands at the decision's anchor and says what the decision would say. */
  ghost predicate SaysTheSame(d: Decision, src: Sources, status: Status, t: Thread)
  {
    && NewestLive(src.threads, d.fingerprint, t) && t.status == status
    && t.anchor == d.anchor && t.bodyHash == src.bodyHash(d)
  }

  /** The comment is there, nobody reopened it, and the run does not remind of it. */
  ghost predicate StillOpen(d: Decision, src: Sources)
  {
    && (exists t :: SaysTheSame(d, src, Open, t) && t.reason != RemoteReopened)
    && (src.incremental || !src.settings.repeatReminder)
  }

  /** The comment was resolved and is not to be brought up again. */
  ghost predicate StillResolved(d: Decision, src: Sources)
  {
    (exists t :: SaysTheSame(d, src, Resolved, t)) && !src.settings.resurfaceResolved
  }

  predicate SilencedByFeedback(d: Decision)
  {
    d.suppression == FeedbackIgnore || d.suppression == FeedbackFalsePositive
  }

  predicate WentOut(d: Decision, src: Sources)
  {
    d.id in src.publications && (src.publications[d.id] == Created || src.publications[d.id] == Updated)
  }

  /** Only its state is left to tell where the decision stands. */
  ghost predicate OnlyStateTells(d: Decision, src: Sources)
  {
    && !SilencedByFeedback(d) && d.state != FailedPublication && !WentOut(d, src) && d.fingerprint !in src.later
    && !StillOpen(d, src) && !StillResolved(d, src)
  }

  /** The section a decision of the run stands in. */
  ghost predicate BelongsIn(d: Decision, src: Sources, s: Section)
  {
    match s
    case SuppressedFeedbackIgnore => d.suppression == FeedbackIgnore
    case SuppressedFeedbackFalsePositive => d.suppression == FeedbackFalsePositive
    case FailedSection => !SilencedByFeedback(d) && d.state == FailedPublication
    case PublishedInline => !SilencedByFeedback(d) && d.state != FailedPublication && WentOut(d, src)
    case AlreadyOpen =>
      || (OnlyStateTells(d, src) && d.state == Published)
      || (!SilencedByFeedback(d) && d.state != FailedPublication && !WentOut(d, src) && d.fingerprint !in src.later
          && StillOpen(d, src))
    case PendingBatch => OnlyStateTells(d, src) && d.state == Eligible
    case SuppressedOther => OnlyStateTells(d, src) && (d.state == Suppressed || d.state == ResolvedFinding)
    case BacklogFeedbackLater =>
      && !SilencedByFeedback(d) && d.state != FailedPublication && !WentOut(d, src) && d.fingerprint in src.later
      && d.fingerprint != "" && exists t :: NewestLive(src.threads, d.fingerprint, t)
    case BacklogResolvedUnchanged =>
      && !SilencedByFeedback(d) && d.state != FailedPublication && !WentOut(d, src) && d.fingerprint !in src.later
      && d.fingerprint != "" && StillResolved(d, src)
    case BacklogExistingOpen => false
  }

  /** The lookup finds the newest live thread. */
  lemma {:induction false} FoundIsNewestLive(threads: seq<Thread>, f: string, t: Thread)
    requires NewestFirst(threads)
    ensures FindExistingThread(threads, f) == Some(t) <==> NewestLive(threads, f, t)
  {
    FindExistingIsNewest(threads, f);
    if NewestLive(threads, f, t) {
      assert SomeLive(threads, f);
    }
  }

  lemma {:induction false} StillThere(d: Decision, src: Sources)
    requires NewestFirst(src.threads)
    ensures StillOpen(d, src) <==>
            var t := FindExistingThread(src.threads, d.fingerprint);
            && t.Some? && t.value.status == Open && t.value.anchor == d.anchor && t.value.bodyHash == src.bodyHash(d)
            && t.value.reason != RemoteReopened && (src.incremental || !src.settings.repeatReminder)
    ensures StillResolved(d, src) <==> ResolvedAsItIs(d, src)
    ensures (exists t :: NewestLive(src.threads, d.fingerprint, t)) <==> SomeLive(src.threads, d.fingerprint)
    ensures StillResolved(d, src) ==> SomeLive(src.threads, d.fingerprint)
  {
    var found := FindExistingThread(src.threads, d.fingerprint);
    forall t
      ensures NewestLive(src.threads, d.fingerprint, t) <==> found == Some(t)
    {
      FoundIsNewestLive(src.threads, d.fingerprint, t);
    }
    FindExistingIsNewest(src.threads, d.fingerprint);
    if found.Some? {
      var t := found.value;
      assert NewestLive(src.threads, d.fingerprint, t);
      assert SaysTheSame(d, src, t.status, t) <==> t.anchor == d.anchor && t.bodyHash == src.bodyHash(d);
    }
  }

  lemma {:induction false} BacklogTells(d: Decision, src: Sources)
    requires NewestFirst(src.threads)
    ensures BacklogOf(d, src) ==
            if d.fingerprint in src.later then FeedbackLater
            else if StillOpen(d, src) then ExistingOpenThread
            else if StillResolved(d, src) then ResolvedUnchanged else NotBacklog
  {
    StillThere(d, src);
  }

  lemma {:induction false} RunSectionExactlyWhen(d: Decision, src: Sources, s: Section)
    requires NewestFirst(src.threads) && !InBacklog(s)
    ensures RunSection(d, src) == Some(s) <==> BelongsIn(d, src, s)
  {
    BacklogTells(d, src);
    ClassifiedExactlyWhen(d, src, BacklogOf(d, src), s);
  }

  lemma ClassifiedExactlyWhen(d: Decision, src: Sources, backlog: BacklogReason, s: Section)
    requires !InBacklog(s)
    requires backlog == if d.fingerprint in src.later then FeedbackLater
                        else if StillOpen(d, src) then ExistingOpenThread
                        else if StillResolved(d, src) then ResolvedUnchanged else NotBacklog
    ensures var publication := if d.id in src.publications then Some(src.publications[d.id]) else None;
            ClassifyFullReportSection(d, publication, backlog) == Some(s) <==> BelongsIn(d, src, s)
  {
  }

  lemma {:induction false} AnnouncedMeans(d: Decision, src: Sources)
    requires NewestFirst(src.threads) && RunSection(d, src).Some?
    ensures || SilencedByFeedback(d) || d.state == FailedPublication || WentOut(d, src)
            || (d.fingerprint !in src.later && !StillResolved(d, src))
    ensures !InBacklog(RunSection(d, src).value)
  {
    LeftToTheBacklog(d, src);
    StillThere(d, src);
  }

  lemma {:induction false} AnnouncedExactlyWhen(d: Decision, src: Sources, s: Section)
    requires NewestFirst(src.threads) && RunSection(d, src).Some?
    ensures RunSection(d, src) == Some(s) <==> BelongsIn(d, src, s)
  {
    if InBacklog(s) {
      AnnouncedMeans(d, src);
    } else {
      RunSectionExactlyWhen(d, src, s);
    }
  }

  lemma {:induction false} LeftMeans(d: Decision, src: Sources)
    requires NewestFirst(src.threads) && RunSection(d, src) == None
    ensures !SilencedByFeedback(d) && d.state != FailedPublication && !WentOut(d, src)
    ensures d.fingerprint in src.later || StillResolved(d, src)
    ensures StillResolved(d, src) ==> SomeLive(src.threads, d.fingerprint)
    ensures (exists t :: NewestLive(src.threads, d.fingerprint, t)) <==> SomeLive(src.threads, d.fingerprint)
  {
    LeftToTheBacklog(d, src);
    StillThere(d, src);
  }

  lemma {:induction false} LeftExactlyWhen(d: Decision, src: Sources, s: Section)
    requires NewestFirst(src.threads) && RunSection(d, src) == None
    ensures BelongsIn(d, src, s) <==>
            && d.fingerprint != "" && SomeLive(src.threads, d.fingerprint)
            && s == if d.fingerprint in src.later then BacklogFeedbackLater else BacklogResolvedUnchanged
  {
    if InBacklog(s) {
      LeftMeans(d, src);
    } else {
      RunSectionExactlyWhen(d, src, s);
    }
  }

  /** Where each decision of the run is listed: in every section exactly when it belongs there, once. */
  lemma {:induction false} ListedExactlyWhereItBelongs(decisions: seq<Decision>, src: Sources, i: nat, s: Section)
    requires i < |decisions| && DistinctFingerprints(decisions) && NewestFirst(src.threads)
    ensures Occurrences(Listed(decisions, src, s), decisions[i].fingerprint) ==
            if BelongsIn(decisions[i], src, s) then 1 else 0
  {
    var d := decisions[i];
    EachFingerprintAtHome(decisions, src, s, d.fingerprint);
    OwnHome(decisions, src, i);
    if RunSection(d, src).Some? {
      AnnouncedExactlyWhen(d, src, s);
    } else {
      LeftExactlyWhen(d, src, s);
      ShownExactlyWhenLive(d, src);
    }
  }

  lemma {:induction false} ShownExactlyWhenLive(d: Decision, src: Sources)
    requires NewestFirst(src.threads) && RunSection(d, src) == None
    ensures FirstShown(src.threads, src, d.fingerprint).Some? <==>
            d.fingerprint != "" && SomeLive(src.threads, d.fingerprint)
    ensures FirstShown(src.threads, src, d.fingerprint).Some? ==>
              BacklogSection(FirstShown(src.threads, src, d.fingerprint).value, src) ==
              Some(if d.fingerprint in src.later then BacklogFeedbackLater else BacklogResolvedUnchanged)
  {
    if d.fingerprint != "" {
      BacklogTakes(d, src);
    }
    if FirstShown(src.threads, src, d.fingerprint).Some? {
      BacklogSays(d, src);
    }
  }

  /** The backlog view lists the three backlog sections as the full one does, and nothing else. */
  lemma {:induction false} BacklogViewListsExactly(decisions: seq<Decision>, src: Sources, i: nat, s: Section)
    requires i < |decisions| && DistinctFingerprints(decisions) && NewestFirst(src.threads)
    ensures Occurrences(Shown(decisions, src, Backlog, s), decisions[i].fingerprint) ==
            if (s == BacklogFeedbackLater || s == BacklogResolvedUnchanged) && BelongsIn(decisions[i], src, s)
            then 1 else 0
    ensures Shown(decisions, src, Backlog, BacklogExistingOpen) == Listed(decisions, src, BacklogExistingOpen)
    ensures Shown(decisions, src, Full, s) == Listed(decisions, src, s)
  {
    ListedExactlyWhereItBelongs(decisions, src, i, s);
  }

  /** The thread may stand in the backlog: somebody deferred its finding, or it is open and nobody reopened
      it, or it is resolved and resolved findings are not brought up again. */
  predicate Fits(t: Thread, src: Sources)
  {
    || ((t.status == Open || t.status == Resolved) && t.fingerprint in src.later)
    || (t.status == Open && t.reason != RemoteReopened)
    || (t.status == Resolved && !src.settings.resurfaceResolved)
  }

  /** The last updated of the fingerprint's threads that fit. */
  ghost predicate NewestFitting(src: Sources, f: string, t: Thread)
  {
    && t in src.threads && t.fingerprint == f && Fits(t, src)
    && forall u :: u in src.threads && u.fingerprint == f && Fits(u, src) ==> u == t || u.updatedAt < t.updatedAt
  }

  /** A finding the run says nothing of stands in the backlog exactly if a thread of it fits, and there as the
      last updated of these says. */
  lemma {:induction false} BacklogListsExactly(decisions: seq<Decision>, src: Sources, f: string, s: Section)
    requires DistinctFingerprints(decisions) && NewestFirst(src.threads)
    requires forall d :: d in decisions ==> d.fingerprint != f
    ensures Occurrences(Listed(decisions, src, s), f) <= 1
    ensures Occurrences(Listed(decisions, src, s), f) == 1 <==>
            f != "" && exists t :: NewestFitting(src, f, t)
                                   && s == if f in src.later then BacklogFeedbackLater
                                           else if t.status == Open then BacklogExistingOpen
                                           else BacklogResolvedUnchanged
  {
    EachFingerprintAtHome(decisions, src, s, f);
    RunHomeIs(decisions, src, f);
    FirstShownIsNewestShown(src.threads, src, f);
    var shown := FirstShown(src.threads, src, f);
    if f != "" {
      forall t | t in src.threads && t.fingerprint == f
        ensures Shows(t, src) <==> Fits(t, src)
      {
      }
      assert shown.Some? ==> NewestFitting(src, f, shown.value);
      assert forall t :: NewestFitting(src, f, t) ==> shown == Some(t);
    }
  }

  lemma {:induction false} RunItemsAre(decisions: seq<Decision>, src: Sources, s: Section, item: Item)
    requires item in RunItems(decisions, src, s)
    ensures exists d :: d in decisions && RunSection(d, src) == Some(s) && item == RunItem(d, src, s)
  {
    var (front, last) := (decisions[..|decisions| - 1], decisions[|decisions| - 1]);
    if item in RunItems(front, src, s) {
      RunItemsAre(front, src, s, item);
      var d :| d in front && RunSection(d, src) == Some(s) && item == RunItem(d, src, s);
      assert d in decisions;
    } else {
      assert last in decisions;
    }
  }

  /** A run section's entry shows a decision of the run that belongs there, under that section's name and
      with the finding's newest live thread. */
  lemma {:induction false} RunEntryShows(decisions: seq<Decision>, src: Sources, s: Section, item: Item)
    requires NewestFirst(src.threads) && item in RunItems(decisions, src, s)
    ensures exists d :: d in decisions && BelongsIn(d, src, s) && item.fingerprint == d.fingerprint
    ensures item.disposition == s && !InBacklog(s)
    ensures forall t :: NewestLive(src.threads, item.fingerprint, t) ==> item.threadRef == Some(t.ref)
    ensures (forall t :: !NewestLive(src.threads, item.fingerprint, t)) ==> item.threadRef == None
  {
    RunItemsAre(decisions, src, s, item);
    var d :| d in decisions && RunSection(d, src) == Some(s) && item == RunItem(d, src, s);
    LeftToTheBacklog(d, src);
    RunSectionExactlyWhen(d, src, s);
    var found := FindExistingThread(src.threads, item.fingerprint);
    forall t
      ensures NewestLive(src.threads, item.fingerprint, t) <==> found == Some(t)
    {
      FoundIsNewestLive(src.threads, item.fingerprint, t);
    }
  }

  /** Such a decision: deferred, and its only thread is stale. */
  lemma {:induction false} DeferredDecisionIsMissing(d: Decision, src: Sources, stale: Thread)
    requires d.state == Eligible && d.suppression == NotSuppressed && d.fingerprint == "f" && src.later == {"f"}
    requires src.publications == map[] && src.threads == [stale] && stale.fingerprint == "f" && stale.status == Stale
    ensures Home([d], src, "f") == None
  {
    EveryDecisionAccountedFor([d], src, 0);
    assert [d][0].fingerprint == "f";
  }
}
