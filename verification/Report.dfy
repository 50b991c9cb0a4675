/** The full report of a review request: the latest run's decisions, each in one section, and the
    backlog read from the current threads. */
module Report {
  import opened Text
  import opened Records
  import Publication

  datatype Section =
    | PublishedInline
    | AlreadyOpen
    | PendingBatch
    | BacklogExistingOpen
    | BacklogResolvedUnchanged
    | BacklogFeedbackLater
    | SuppressedFeedbackIgnore
    | SuppressedFeedbackFalsePositive
    | SuppressedOther
    | FailedSection

  const SECTION_ORDER: seq<Section> :=
    [PublishedInline, AlreadyOpen, PendingBatch, BacklogExistingOpen, BacklogResolvedUnchanged, BacklogFeedbackLater,
     SuppressedFeedbackIgnore, SuppressedFeedbackFalsePositive, SuppressedOther, FailedSection]

  lemma {:induction false} EverySectionIsListed(s: Section)
    ensures s in SECTION_ORDER
  {
    assert SECTION_ORDER[0] == PublishedInline && SECTION_ORDER[1] == AlreadyOpen && SECTION_ORDER[2] == PendingBatch;
    assert SECTION_ORDER[3] == BacklogExistingOpen && SECTION_ORDER[4] == BacklogResolvedUnchanged;
    assert SECTION_ORDER[5] == BacklogFeedbackLater && SECTION_ORDER[6] == SuppressedFeedbackIgnore;
    assert SECTION_ORDER[7] == SuppressedFeedbackFalsePositive && SECTION_ORDER[8] == SuppressedOther;
    assert SECTION_ORDER[9] == FailedSection;
  }

  predicate InBacklog(s: Section)
  {
    s == BacklogExistingOpen || s == BacklogResolvedUnchanged || s == BacklogFeedbackLater
  }

  datatype PublishState = Created | Updated | OtherState

  /** What the report reads: the request's threads, newest update first; the fingerprints somebody
      asked to defer; the latest publication of each decision; how a decision's comment hashes. */
  datatype Sources = Sources(
    threads: seq<Thread>,
    later: set<string>,
    publications: map<int, PublishState>,
    bodyHash: Decision -> string,
    settings: Publication.Settings,
    incremental: bool)

  /** An entry of a section. */
  datatype Item = Item(fingerprint: string, disposition: Section, threadRef: Option<string>)

  /** The rows come newest first, and no two threads were updated at the same moment. */
  ghost predicate NewestFirst(threads: seq<Thread>)
  {
    forall i, j :: 0 <= i < j < |threads| ==> threads[i].updatedAt > threads[j].updatedAt
  }

  predicate Live(t: Thread)
  {
    t.status == Open || t.status == Resolved
  }

  // ----- the run's part ----------------------------------------------------------------------

  /** The newest live thread of the fingerprint. */
  function FindExistingThread(threads: seq<Thread>, fingerprint: string): (t: Option<Thread>)
    ensures t.Some? ==> t.value in threads && t.value.fingerprint == fingerprint && Live(t.value)
  {
    if threads == [] then None
    else if threads[0].fingerprint == fingerprint && Live(threads[0]) then Some(threads[0])
    else FindExistingThread(threads[1..], fingerprint)
  }

  function BacklogOf(d: Decision, src: Sources): BacklogReason
  {
    var draft := Publication.Draft(d, FindExistingThread(src.threads, d.fingerprint), src.bodyHash(d), "", "", None,
                                   d.fingerprint in src.later);
    Publication.ClassifyBacklog(draft, Publication.ShouldResurfaceOpenThread(draft, src.settings, src.incremental),
                                src.settings)
  }

  function ClassifyFullReportSection(d: Decision, publication: Option<PublishState>,
                                     backlog: BacklogReason): Option<Section>
  {
    if d.suppression == FeedbackIgnore then Some(SuppressedFeedbackIgnore)
    else if d.suppression == FeedbackFalsePositive then Some(SuppressedFeedbackFalsePositive)
    else if d.state == FailedPublication then Some(FailedSection)
    else if publication == Some(Created) || publication == Some(Updated) then Some(PublishedInline)
    else if backlog != NotBacklog then if backlog == ExistingOpenThread then Some(AlreadyOpen) else None
    else if d.state == Suppressed then Some(SuppressedOther)
    else if d.state == Published then Some(AlreadyOpen)
    else if d.state == Eligible then Some(PendingBatch)
    else Some(SuppressedOther)
  }

  /** The section a decision of the run is listed in; none leaves it to the backlog. */
  function RunSection(d: Decision, src: Sources): Option<Section>
  {
    ClassifyFullReportSection(d, if d.id in src.publications then Some(src.publications[d.id]) else None,
                              BacklogOf(d, src))
  }

  function RefOf(t: Option<Thread>): Option<string>
  {
    if t.Some? then Some(t.value.ref) else None
  }

  function RunItem(d: Decision, src: Sources, s: Section): Item
  {
    Item(d.fingerprint, s, RefOf(FindExistingThread(src.threads, d.fingerprint)))
  }

  /** The run's entries of a section. */
  function RunItems(decisions: seq<Decision>, src: Sources, s: Section): seq<Item>
  {
    if decisions == [] then []
    else
      var d := decisions[|decisions| - 1];
      RunItems(decisions[..|decisions| - 1], src, s)
      + if RunSection(d, src) == Some(s) then [RunItem(d, src, s)] else []
  }

  /** The fingerprints the run's sections mention. */
  function RunFingerprints(decisions: seq<Decision>, src: Sources): set<string>
  {
    set d | d in decisions && RunSection(d, src).Some? :: d.fingerprint
  }

  lemma {:induction false} RunFingerprintsPush(decisions: seq<Decision>, d: Decision, src: Sources)
    ensures RunFingerprints(decisions + [d], src) ==
            RunFingerprints(decisions, src) + if RunSection(d, src).Some? then {d.fingerprint} else {}
  {
    assert d in decisions + [d];
  }

  // ----- the backlog's part ------------------------------------------------------------------

  datatype Entry = Entry(section: Section, thread: Thread)

  /** The backlog section of a live thread, if it has one. */
  function BacklogSection(t: Thread, src: Sources): Option<Section>
  {
    if t.fingerprint in src.later then Some(BacklogFeedbackLater)
    else if t.status == Open then if t.reason == RemoteReopened then None else Some(BacklogExistingOpen)
    else if src.settings.resurfaceResolved then None
    else Some(BacklogResolvedUnchanged)
  }

  /** The thread could stand in the backlog. */
  predicate Shows(t: Thread, src: Sources)
  {
    t.fingerprint != "" && Live(t) && BacklogSection(t, src).Some?
  }

  predicate Mentions(entries: seq<Entry>, fingerprint: string)
  {
    exists i :: 0 <= i < |entries| && entries[i].thread.fingerprint == fingerprint
  }

  function Entries(threads: seq<Thread>, src: Sources): seq<Entry>
  {
    if threads == [] then []
    else
      var front := Entries(threads[..|threads| - 1], src);
      var t := threads[|threads| - 1];
      if Shows(t, src) && !Mentions(front, t.fingerprint)
      then front + [Entry(BacklogSection(t, src).value, t)]
      else front
  }

  method CurrentBacklogEntries(src: Sources) returns (entries: seq<Entry>)
    ensures entries == Entries(src.threads, src)
  {
    entries := [];
    var seen: set<string> := {};
    for i := 0 to |src.threads|
      invariant entries == Entries(src.threads[..i], src)
      invariant forall f :: f in seen <==> Mentions(entries, f)
    {
      var t := src.threads[i];
      assert src.threads[..i + 1][..i] == src.threads[..i];
      if t.fingerprint == "" || t.fingerprint in seen || !(t.status == Open || t.status == Resolved) {
        continue;
      }
      var section;
      if t.fingerprint in src.later {
        section := BacklogFeedbackLater;
      } else if t.status == Open {
        if t.reason == RemoteReopened {
          continue;
        }
        section := BacklogExistingOpen;
      } else {
        if src.settings.resurfaceResolved {
          continue;
        }
        section := BacklogResolvedUnchanged;
      }
      MentionsPush(entries, Entry(section, t));
      seen := seen + {t.fingerprint};
      entries := entries + [Entry(section, t)];
    }
    assert src.threads[..|src.threads|] == src.threads;
  }

  lemma {:induction false} MentionsPush(entries: seq<Entry>, e: Entry)
    ensures forall f :: Mentions(entries + [e], f) <==> Mentions(entries, f) || f == e.thread.fingerprint
  {
    forall f
      ensures Mentions(entries + [e], f) <==> Mentions(entries, f) || f == e.thread.fingerprint
    {
      if Mentions(entries, f) {
        var i :| 0 <= i < |entries| && entries[i].thread.fingerprint == f;
        assert (entries + [e])[i].thread.fingerprint == f;
      }
      assert (entries + [e])[|entries|] == e;
    }
  }

  /** The backlog's entries of a section, without the fingerprints the run mentions. */
  function BacklogItems(entries: seq<Entry>, mentioned: set<string>, s: Section): seq<Item>
  {
    if entries == [] then []
    else
      var e := entries[|entries| - 1];
      BacklogItems(entries[..|entries| - 1], mentioned, s)
      + if e.section == s && e.thread.fingerprint !in mentioned
        then [Item(e.thread.fingerprint, s, Some(e.thread.ref))] else []
  }

  // ----- the report --------------------------------------------------------------------------

  datatype View = Full | Backlog

  datatype FullReport = FullReport(sections: map<Section, seq<Item>>, counts: map<Section, nat>)

  /** What the full view lists under a section. */
  function Listed(decisions: seq<Decision>, src: Sources, s: Section): seq<Item>
  {
    RunItems(decisions, src, s) + BacklogItems(Entries(src.threads, src), RunFingerprints(decisions, src), s)
  }

  function Shown(decisions: seq<Decision>, src: Sources, view: View, s: Section): seq<Item>
  {
    if view == Full || InBacklog(s) then Listed(decisions, src, s) else []
  }

  ghost predicate Lists(report: FullReport, s: Section, items: seq<Item>)
  {
    s in report.sections && s in report.counts && report.sections[s] == items && report.counts[s] == |items|
  }

  function Append(report: FullReport, s: Section, item: Item): FullReport
    requires s in report.sections && s in report.counts
  {
    FullReport(report.sections[s := report.sections[s] + [item]], report.counts[s := report.counts[s] + 1])
  }

  lemma AppendGrows(report: FullReport, to: Section, item: Item, s: Section, items: seq<Item>)
    requires to in report.sections && to in report.counts && Lists(report, s, items)
    ensures Lists(Append(report, to, item), s, items + if s == to then [item] else [])
  {
  }

  method EmptyFullReport() returns (report: FullReport)
    ensures forall s :: Lists(report, s, [])
  {
    forall s: Section
      ensures s in SECTION_ORDER
    {
      EverySectionIsListed(s);
    }
    report := FullReport(map s | s in SECTION_ORDER :: [], map s | s in SECTION_ORDER :: 0);
  }

  method AddRunItems(decisions: seq<Decision>, src: Sources, empty: FullReport)
    returns (report: FullReport, mentioned: set<string>)
    requires forall s :: Lists(empty, s, [])
    ensures forall s :: Lists(report, s, RunItems(decisions, src, s))
    ensures mentioned == RunFingerprints(decisions, src)
  {
    report, mentioned := empty, {};
    for i := 0 to |decisions|
      invariant forall s :: Lists(report, s, RunItems(decisions[..i], src, s))
      invariant mentioned == RunFingerprints(decisions[..i], src)
    {
      var d := decisions[i];
      assert decisions[..i + 1][..i] == decisions[..i];
      assert decisions[..i + 1] == decisions[..i] + [d];
      RunFingerprintsPush(decisions[..i], d, src);
      var section := RunSection(d, src);
      if section.None? {
        continue;
      }
      assert Lists(report, section.value, RunItems(decisions[..i], src, section.value));
      mentioned := mentioned + {d.fingerprint};
      ghost var before := report;
      report := Append(report, section.value, RunItem(d, src, section.value));
      ghost var done := decisions[..i + 1];
      forall s: Section
        ensures Lists(report, s, RunItems(done, src, s))
      {
        assert Lists(before, s, RunItems(decisions[..i], src, s));
        AppendGrows(before, section.value, RunItem(d, src, section.value), s, RunItems(decisions[..i], src, s));
      }
    }
    assert decisions[..|decisions|] == decisions;
  }

  method AddBacklogItems(entries: seq<Entry>, mentioned: set<string>, run: FullReport,
                         ghost listed: Section -> seq<Item>)
    returns (report: FullReport)
    requires forall s :: Lists(run, s, listed(s))
    ensures forall s :: Lists(report, s, listed(s) + BacklogItems(entries, mentioned, s))
  {
    report := run;
    assert forall s :: listed(s) + [] == listed(s);
    for i := 0 to |entries|
      invariant forall s :: Lists(report, s, listed(s) + BacklogItems(entries[..i], mentioned, s))
    {
      var e := entries[i];
      assert entries[..i + 1][..i] == entries[..i];
      if e.thread.fingerprint in mentioned {
        continue;
      }
      assert Lists(report, e.section, listed(e.section) + BacklogItems(entries[..i], mentioned, e.section));
      ghost var before := report;
      report := Append(report, e.section, Item(e.thread.fingerprint, e.section, Some(e.thread.ref)));
      forall s
        ensures Lists(report, s, listed(s) + BacklogItems(entries[..i + 1], mentioned, s))
      {
        assert Lists(before, s, listed(s) + BacklogItems(entries[..i], mentioned, s));
        var item := Item(e.thread.fingerprint, s, Some(e.thread.ref));
        Associates(listed(s), BacklogItems(entries[..i], mentioned, s), [item]);
      }
    }
    assert entries[..|entries|] == entries;
  }

  method FilterFullReportView(report: FullReport, view: View, ghost listed: Section -> seq<Item>)
    returns (r: FullReport)
    requires forall s :: Lists(report, s, listed(s))
    ensures forall s :: Lists(r, s, if view == Full || InBacklog(s) then listed(s) else [])
  {
    r := report;
    if view == Full {
      return;
    }
    for i := 0 to |SECTION_ORDER|
      invariant forall s :: Lists(r, s, if InBacklog(s) || s !in SECTION_ORDER[..i] then listed(s) else [])
    {
      var section := SECTION_ORDER[i];
      assert SECTION_ORDER[..i + 1] == SECTION_ORDER[..i] + [section];
      if !InBacklog(section) {
        ghost var before := r;
        r := FullReport(r.sections[section := []], r.counts[section := 0]);
        forall s
          ensures Lists(r, s, if InBacklog(s) || s !in SECTION_ORDER[..i + 1] then listed(s) else [])
        {
          assert Lists(before, s, if InBacklog(s) || s !in SECTION_ORDER[..i] then listed(s) else []);
        }
      }
    }
    assert SECTION_ORDER[..|SECTION_ORDER|] == SECTION_ORDER;
    forall s
      ensures Lists(r, s, if InBacklog(s) then listed(s) else [])
    {
      EverySectionIsListed(s);
    }
  }

  /** Every section lists what it should, and every count is the length of its list. */
  method BuildFullReport(decisions: seq<Decision>, src: Sources, view: View) returns (report: FullReport)
    ensures forall s :: Lists(report, s, Shown(decisions, src, view, s))
  {
    report := EmptyFullReport();
    var mentioned;
    report, mentioned := AddRunItems(decisions, src, report);
    var entries := CurrentBacklogEntries(src);
    ghost var runItems := (s: Section) => RunItems(decisions, src, s);
    report := AddBacklogItems(entries, mentioned, report, runItems);
    ghost var listed := (s: Section) => Listed(decisions, src, s);
    forall s
      ensures Lists(report, s, listed(s))
    {
      assert Lists(report, s, runItems(s) + BacklogItems(entries, mentioned, s));
    }
    report := FilterFullReportView(report, view, listed);
    forall s
      ensures Lists(report, s, Shown(decisions, src, view, s))
    {
      assert Lists(report, s, if view == Full || InBacklog(s) then listed(s) else []);
    }
  }
}
