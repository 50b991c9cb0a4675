/** What holds over every run of detect, publish and sync phases, whatever the remote side does. */
module ThreadTheorems {
  import opened Text
  import opened Records
  import opened Threads

  // ----- runs --------------------------------------------------------------------------------

  datatype Phase =
    | Detect(remote: Remote, found: seq<Decision>)
    | Publish(settled: map<nat, DecisionState>, postings: seq<Posting>, head: Option<string>)
    | Synchronize(sync: Sync)

  ghost predicate Possible(w: World, p: Phase)
  {
    p.Publish? ==> ValidPostings(w, p.postings)
  }

  ghost function Step(w: World, p: Phase): World
    requires Possible(w, p)
  {
    match p
    case Detect(remote, found) => DetectPhase(w, remote, found)
    case Publish(settled, postings, head) => PublishPhase(w, settled, postings, head)
    case Synchronize(sync) => SyncPhase(w, sync)
  }

  const EMPTY: World := World([], [], [])

  /** worlds is a run from the empty store, one phase at a time. */
  ghost predicate Run(worlds: seq<World>, phases: seq<Phase>)
  {
    && |worlds| == |phases| + 1
    && worlds[0] == EMPTY
    && forall k :: 0 <= k < |phases| ==> Possible(worlds[k], phases[k]) && worlds[k + 1] == Step(worlds[k], phases[k])
  }

  // ----- reconciling -------------------------------------------------------------------------

  /** Reconciling again with the same snapshots changes no status and logs nothing, whatever head is
      then observed. */
  lemma ReconcileTwice(t: Thread, remote: Remote, again: Remote)
    requires again.snapshots == remote.snapshots
    ensures var once := ReconcileThread(t, remote);
            && ReconcileThread(once, again).status == once.status
            && ReconcileThread(once, again).reason == once.reason
            && ReconcileEvents(once, again) == []
  {
  }

  lemma {:induction false} QuietLog(threads: seq<Thread>, remote: Remote)
    requires forall i :: 0 <= i < |threads| ==> ReconcileEvents(threads[i], remote) == []
    ensures ReconcileLog(threads, remote) == []
  {
    if threads != [] {
      QuietLog(threads[..|threads| - 1], remote);
    }
  }

  /** A second detect phase on the same snapshots is silent and moves no thread. */
  lemma {:induction false} DetectTwiceIsQuiet(w: World, remote: Remote, again: Remote, found: seq<Decision>,
                                              more: seq<Decision>)
    requires again.snapshots == remote.snapshots
    ensures var once := DetectPhase(w, remote, found);
            var twice := DetectPhase(once, again, more);
            && twice.events == once.events
            && |twice.threads| == |once.threads|
            && forall i :: 0 <= i < |once.threads| ==>
                 twice.threads[i].status == once.threads[i].status && twice.threads[i].reason == once.threads[i].reason
  {
    var once := DetectPhase(w, remote, found);
    forall i | 0 <= i < |once.threads|
      ensures ReconcileEvents(once.threads[i], again) == []
    {
      ReconcileTwice(w.threads[i], remote, again);
    }
    QuietLog(once.threads, again);
    forall i | 0 <= i < |once.threads|
      ensures ReconcileThread(once.threads[i], again).status == once.threads[i].status
      ensures ReconcileThread(once.threads[i], again).reason == once.threads[i].reason
    {
      ReconcileTwice(w.threads[i], remote, again);
    }
  }

  // ----- why a thread counts as resolved -----------------------------------------------------

  /** A thread newly reported as resolved counts as fixed exactly when the head it was last seen at and the
      head now observed are known and differ, and the diff between them touches its anchor; otherwise
      somebody just closed it. The log says the same. */
  lemma {:induction false} FixedExactlyWhenTouched(w: World, remote: Remote, found: seq<Decision>, i: nat)
    requires i < |w.threads| && w.threads[i].status != Resolved && ResolvedThere(w.threads[i], remote)
    ensures var (row, after) := (w.threads[i], DetectPhase(w, remote, found).threads[i]);
            && after.status == Resolved
            && after.reason == (if row.headSha.Some? && remote.head.Some? && row.headSha.value != remote.head.value
                                   && row.ref in remote.touched
                                then FixedInFollowup else RemoteManualOnly)
            && Event(row.ref, ResolvedEvent, after.reason) in DetectPhase(w, remote, found).events[|w.events|..]
  {
    var events := ReconcileLog(w.threads, remote);
    assert DetectPhase(w, remote, found).events[|w.events|..] == events;
    OwnEventsLogged(w.threads, remote, i);
    assert ReconcileEvents(w.threads[i], remote)[0] in ReconcileEvents(w.threads[i], remote);
  }

  lemma {:induction false} OwnEventsLogged(threads: seq<Thread>, remote: Remote, i: nat)
    requires i < |threads|
    ensures forall e :: e in ReconcileEvents(threads[i], remote) ==> e in ReconcileLog(threads, remote)
  {
    if i < |threads| - 1 {
      OwnEventsLogged(threads[..|threads| - 1], remote, i);
    }
  }

  /** A closed thread that is reported as unresolved is open again, unless its anchor has moved on: as
      reopened if it was resolved, and that is logged; as if nothing had been if it only counted as stale. */
  lemma {:induction false} OpenAgainExactlyWhen(w: World, remote: Remote, found: seq<Decision>, i: nat)
    requires i < |w.threads| && w.threads[i].status != Open
    ensures var (row, after) := (w.threads[i], DetectPhase(w, remote, found).threads[i]);
            && (after.status == Open <==> OpensAgain(row, remote))
            && (after.status == Open ==>
                  after.reason == (if row.status == Resolved then RemoteReopened else NoReason))
            && (after.status == Stale ==> (after.status, after.reason) == (row.status, row.reason))
            && (after.status == Open && row.status == Resolved ==>
                  Event(row.ref, ReopenedEvent, RemoteReopened)
                  in DetectPhase(w, remote, found).events[|w.events|..])
  {
    var events := ReconcileLog(w.threads, remote);
    assert DetectPhase(w, remote, found).events[|w.events|..] == events;
    OwnEventsLogged(w.threads, remote, i);
    if OpensAgain(w.threads[i], remote) && w.threads[i].status == Resolved {
      assert ReconcileEvents(w.threads[i], remote)[0] in ReconcileEvents(w.threads[i], remote);
    }
  }

  /** What somebody reopens is answered: the very comment that was resolved is posted again. */
  lemma {:induction false} ReopenedIsAnswered(w: World, remote: Remote, found: seq<Decision>, i: nat, p: Posting)
    requires i < |w.threads| && w.threads[i].status == Resolved && w.threads[i].ref in remote.snapshots
    requires !ResolvedThere(w.threads[i], remote) && p.existing == Some(i) && p.bodyHash == w.threads[i].bodyHash
    requires ValidPosting(DetectPhase(w, remote, found), p)
    ensures DetectPhase(w, remote, found).threads[i].bodyHash == p.bodyHash
    ensures !AlreadyPosted(DetectPhase(w, remote, found), p)
  {
    OpenAgainExactlyWhen(w, remote, found, i);
  }

  /** Reconciling remembers the last head it observed: a thread seen open at one head and found resolved at
      another counts as fixed if the diff between them touches it, even if no head was observed in between. */
  lemma FixedSinceLastSeen(t: Thread, seen: Remote, blind: Remote, now: Remote)
    requires t.ref in seen.snapshots && seen.head.Some? && !ResolvedThere(t, seen)
    requires t.ref in blind.snapshots && blind.head.None? && !ResolvedThere(t, blind)
    requires ResolvedThere(t, now) && now.head.Some?
    ensures var after := ReconcileThread(ReconcileThread(ReconcileThread(t, seen), blind), now);
            && after.status == Resolved && after.headSha == now.head
            && (after.reason == FixedInFollowup <==> seen.head != now.head && t.ref in now.touched)
            && (after.reason == RemoteManualOnly <==> seen.head == now.head || t.ref !in now.touched)
  {
  }

  // ----- sync --------------------------------------------------------------------------------

  /** The loop's unlogged assignment of "resolved" never moves a thread: reconciling got there first. */
  lemma UnloggedResolveIsNoTransition(row: Thread, sync: Sync)
    requires row.status == Open && row.ref in sync.remote.snapshots && sync.remote.snapshots[row.ref].resolved
    ensures ReconcileThread(row, sync.remote).status == Resolved
    ensures ReconcileEvents(row, sync.remote) != []
  {
  }

  /** Some decision of the run with this fingerprint is eligible or published. */
  ghost predicate StoodBy(decisions: seq<Decision>, runId: int, f: string)
  {
    exists k :: 0 <= k < |decisions| && decisions[k].runId == runId && decisions[k].fingerprint == f
                && (decisions[k].state == Eligible || decisions[k].state == Published)
  }

  /** The run has evidence in the file of the thread's decision. */
  ghost predicate HasEvidence(t: Thread, decisions: seq<Decision>, files: set<string>)
  {
    exists k :: 0 <= k < |decisions| && t.decisionId == Some(decisions[k].id) && decisions[k].filePath in files
  }

  /** The remote side reports the thread as resolved. */
  predicate ResolvedThere(t: Thread, remote: Remote)
  {
    t.ref in remote.snapshots && remote.snapshots[t.ref].resolved
  }

  /** Read as open, not resolved remotely, with no finding of the run behind it, and in reach of the run. */
  ghost predicate Orphaned(t: Thread, decisions: seq<Decision>, sync: Sync)
  {
    && t.status == Open && !ResolvedThere(t, sync.remote) && !StoodBy(decisions, sync.runId, t.fingerprint)
    && (!sync.incremental || HasEvidence(t, decisions, sync.files))
  }

  lemma OrphanedExactlyWhen(t: Thread, decisions: seq<Decision>, sync: Sync)
    ensures GetsAutoResolved(t, decisions, sync, CurrentFingerprints(decisions, sync.runId)) <==>
            Orphaned(t, decisions, sync)
  {
  }

  /** What a sync makes of each row: an orphaned one is resolved as no longer eligible, or is stale because
      the remote side failed to resolve it; every other one has the status and reason reconciling gave it. */
  lemma {:induction false} SyncMovesExactlyTheOrphaned(w: World, sync: Sync, i: nat)
    requires i < |w.threads|
    ensures var (row, after) := (w.threads[i], SyncPhase(w, sync).threads[i]);
            var reconciled := ReconcileThread(row, sync.remote);
            (after.status, after.reason) ==
            if !Orphaned(row, w.decisions, sync) then (reconciled.status, reconciled.reason)
            else if row.ref in sync.failing then (Stale, ResolveFailed)
            else (Resolved, NoLongerEligible)
  {
    OrphanedExactlyWhen(w.threads[i], w.decisions, sync);
    if ResolvedThere(w.threads[i], sync.remote) && w.threads[i].status == Open {
      UnloggedResolveIsNoTransition(w.threads[i], sync);
    }
  }

  predicate NoLongerEligibleOn(e: Event, ref: string)
  {
    e.ref == ref && e.reason == NoLongerEligible
  }

  lemma {:induction false} ReconcileNeverSaysNoLongerEligible(threads: seq<Thread>, remote: Remote, e: Event)
    requires e in ReconcileLog(threads, remote)
    ensures e.reason != NoLongerEligible
  {
    var (front, last) := (threads[..|threads| - 1], threads[|threads| - 1]);
    if e in ReconcileLog(front, remote) {
      ReconcileNeverSaysNoLongerEligible(front, remote, e);
    }
  }

  /** Some orphaned row has this reference, and the remote side resolves it. */
  ghost predicate SomeOrphaned(threads: seq<Thread>, decisions: seq<Decision>, sync: Sync, ref: string)
  {
    exists t :: t in threads && t.ref == ref && t.ref !in sync.failing && Orphaned(t, decisions, sync)
  }

  lemma {:induction false} SomeOrphanedPush(threads: seq<Thread>, t: Thread, decisions: seq<Decision>, sync: Sync,
                                            ref: string)
    ensures SomeOrphaned(threads + [t], decisions, sync, ref) <==>
            || SomeOrphaned(threads, decisions, sync, ref)
            || (t.ref == ref && t.ref !in sync.failing && Orphaned(t, decisions, sync))
  {
    assert t in threads + [t];
    assert forall u :: u in threads ==> u in threads + [t];
  }

  lemma {:induction false} SyncLogIs(threads: seq<Thread>, decisions: seq<Decision>, sync: Sync, e: Event)
    ensures e in SyncLog(threads, decisions, sync) <==>
            e.kind == ResolvedEvent && e.reason == NoLongerEligible && SomeOrphaned(threads, decisions, sync, e.ref)
  {
    if threads != [] {
      var (front, last) := (threads[..|threads| - 1], threads[|threads| - 1]);
      SyncLogIs(front, decisions, sync, e);
      OrphanedExactlyWhen(last, decisions, sync);
      SomeOrphanedPush(front, last, decisions, sync, e.ref);
      assert threads == front + [last];
    }
  }

  ghost predicate SayNoLongerEligible(events: seq<Event>, ref: string)
  {
    exists e :: e in events && NoLongerEligibleOn(e, ref)
  }

  lemma {:induction false} SaidOfTheOrphaned(threads: seq<Thread>, decisions: seq<Decision>, sync: Sync, ref: string)
    ensures SayNoLongerEligible(ReconcileLog(threads, sync.remote) + SyncLog(threads, decisions, sync), ref) <==>
            SomeOrphaned(threads, decisions, sync, ref)
  {
    var (reconciled, synced) := (ReconcileLog(threads, sync.remote), SyncLog(threads, decisions, sync));
    var event := Event(ref, ResolvedEvent, NoLongerEligible);
    SyncLogIs(threads, decisions, sync, event);
    assert NoLongerEligibleOn(event, ref);
    if SayNoLongerEligible(reconciled + synced, ref) {
      var e :| e in reconciled + synced && NoLongerEligibleOn(e, ref);
      if e in reconciled {
        ReconcileNeverSaysNoLongerEligible(threads, sync.remote, e);
      }
      SyncLogIs(threads, decisions, sync, e);
    }
  }

  lemma {:induction false} OnlyOneOrphaned(threads: seq<Thread>, decisions: seq<Decision>, sync: Sync, i: nat)
    requires i < |threads| && UniqueRefs(threads)
    ensures SomeOrphaned(threads, decisions, sync, threads[i].ref) <==>
            Orphaned(threads[i], decisions, sync) && threads[i].ref !in sync.failing
  {
    assert threads[i] in threads;
    if SomeOrphaned(threads, decisions, sync, threads[i].ref) {
      var t :| t in threads && t.ref == threads[i].ref && t.ref !in sync.failing && Orphaned(t, decisions, sync);
      var j :| 0 <= j < |threads| && threads[j] == t;
      assert i == j;
    }
  }

  /** And what it logs: "no longer eligible" for exactly the orphaned rows the remote side resolves. */
  lemma {:induction false} SyncLogsExactlyTheOrphaned(w: World, sync: Sync, i: nat)
    requires i < |w.threads| && UniqueRefs(w.threads)
    ensures SayNoLongerEligible(SyncPhase(w, sync).events[|w.events|..], w.threads[i].ref) <==>
            Orphaned(w.threads[i], w.decisions, sync) && w.threads[i].ref !in sync.failing
  {
    var added := ReconcileLog(w.threads, sync.remote) + SyncLog(w.threads, w.decisions, sync);
    assert SyncPhase(w, sync).events[|w.events|..] == added;
    SaidOfTheOrphaned(w.threads, w.decisions, sync, w.threads[i].ref);
    OnlyOneOrphaned(w.threads, w.decisions, sync, i);
  }

  /** Sync kills nothing live: a thread with an eligible or published decision of the run behind it is left
      as reconciling left it, and no auto-resolve is logged for it. */
  lemma {:induction false} SyncSparesCurrentFindings(w: World, sync: Sync, i: nat, k: nat)
    requires i < |w.threads| && k < |w.decisions| && w.decisions[k].runId == sync.runId
    requires w.decisions[k].fingerprint == w.threads[i].fingerprint
    requires w.decisions[k].state == Eligible || w.decisions[k].state == Published
    ensures SyncPhase(w, sync).threads[i].status == ReconcileThread(w.threads[i], sync.remote).status
    ensures SyncPhase(w, sync).threads[i].reason == ReconcileThread(w.threads[i], sync.remote).reason
    ensures UniqueRefs(w.threads) ==>
              !SayNoLongerEligible(SyncPhase(w, sync).events[|w.events|..], w.threads[i].ref)
  {
    assert StoodBy(w.decisions, sync.runId, w.threads[i].fingerprint);
    SyncMovesExactlyTheOrphaned(w, sync, i);
    if UniqueRefs(w.threads) {
      SyncLogsExactlyTheOrphaned(w, sync, i);
    }
  }

  /** Sync leaves no orphan: after a full sync, a thread read as open is resolved, is stale because
      the remote side failed to resolve it, or has a finding the run stands by behind it. */
  lemma {:induction false} SyncLeavesNoOrphan(w: World, sync: Sync, i: nat)
    requires i < |w.threads| && w.threads[i].status == Open && !sync.incremental
    ensures var t := SyncPhase(w, sync).threads[i];
            || t.status == Resolved
            || (t.status == Stale && t.reason == ResolveFailed && t.ref in sync.failing)
            || StoodBy(w.decisions, sync.runId, w.threads[i].fingerprint)
  {
    SyncMovesExactlyTheOrphaned(w, sync, i);
    SyncKeepsRow(w.threads[i], w.decisions, sync, CurrentFingerprints(w.decisions, sync.runId));
  }

  /** The thread is open, and no finding the run stands by is behind it. */
  ghost predicate Orphan(t: Thread, decisions: seq<Decision>, runId: int)
  {
    t.status == Open && !StoodBy(decisions, runId, t.fingerprint)
  }

  /** Reconciling opens a row that was not open. */
  predicate OpensAgain(t: Thread, remote: Remote)
  {
    && t.ref in remote.snapshots && !remote.snapshots[t.ref].resolved
    && (t.status == Resolved || (t.status == Stale && t.reason != AnchorChanged))
  }

  /** Which threads a sync leaves as orphans. One read as open: exactly if the run is incremental, has no
      evidence in the thread's file, and the remote side has not resolved it. Another: exactly if
      reconciling in the same phase opens it, because the query behind the loop does not see that. */
  lemma {:induction false} SyncLeavesOrphanExactlyWhen(w: World, sync: Sync, i: nat)
    requires i < |w.threads|
    ensures var row := w.threads[i];
            Orphan(SyncPhase(w, sync).threads[i], w.decisions, sync.runId) <==>
            && !StoodBy(w.decisions, sync.runId, row.fingerprint)
            && if row.status == Open then
                 sync.incremental && !HasEvidence(row, w.decisions, sync.files) && !ResolvedThere(row, sync.remote)
               else OpensAgain(row, sync.remote)
  {
    SyncKeepsRow(w.threads[i], w.decisions, sync, CurrentFingerprints(w.decisions, sync.runId));
    SyncMovesExactlyTheOrphaned(w, sync, i);
  }

  /** Such a thread: stored as resolved, unresolved again on the remote side. */
  lemma {:induction false} FullSyncLeavesReopenedOrphan(w: World, sync: Sync, t: Thread)
    requires w == World([t], [], []) && t.status == Resolved && t.ref in sync.remote.snapshots
    requires !sync.remote.snapshots[t.ref].resolved && !sync.incremental
    ensures Orphan(SyncPhase(w, sync).threads[0], w.decisions, sync.runId)
  {
    SyncLeavesOrphanExactlyWhen(w, sync, 0);
  }

  /** A sync that observes no head forgets the one a thread was seen at: resolved after that, the thread never
      counts as fixed. */
  lemma {:induction false} BlindSyncForgetsTheHead(w: World, sync: Sync, i: nat, now: Remote, found: seq<Decision>)
    requires i < |w.threads| && w.threads[i].status == Open && w.threads[i].ref in sync.remote.snapshots
    requires !ResolvedThere(w.threads[i], sync.remote) && sync.remote.head.None?
    requires StoodBy(w.decisions, sync.runId, w.threads[i].fingerprint) && ResolvedThere(w.threads[i], now)
    ensures DetectPhase(SyncPhase(w, sync), now, found).threads[i].reason == RemoteManualOnly
  {
    var current := CurrentFingerprints(w.decisions, sync.runId);
    var once := SyncPhase(w, sync);
    SyncKeepsRow(w.threads[i], w.decisions, sync, current);
    SyncMovesExactlyTheOrphaned(w, sync, i);
    assert once.threads[i] ==
           SyncThread(w.threads[i], ReconcileThread(w.threads[i], sync.remote), w.decisions, sync, current);
    FixedExactlyWhenTouched(once, now, found, i);
  }

  /** Reconciling with the same snapshots opens no thread that it left closed. */
  predicate StaysClosed(t: Thread, remote: Remote)
  {
    t.status != Open ==> ReconcileThread(t, remote).status != Open
  }

  lemma ReconciledStaysClosed(t: Thread, remote: Remote, again: Remote)
    requires again.snapshots == remote.snapshots
    ensures StaysClosed(ReconcileThread(t, remote), again)
  {
  }

  lemma PostingStaysClosed(w: World, p: Posting, head: Option<string>, remote: Remote, i: nat)
    requires ValidPosting(w, p) && i < |PostOne(w, p, head).threads|
    requires i < |w.threads| ==> StaysClosed(w.threads[i], remote)
    ensures StaysClosed(PostOne(w, p, head).threads[i], remote)
  {
  }

  lemma {:induction false} PostingsStayClosed(w: World, postings: seq<Posting>, head: Option<string>, remote: Remote,
                                              i: nat)
    requires ValidPostings(w, postings) && i < |PostAll(w, postings, head).threads|
    requires forall j :: 0 <= j < |w.threads| ==> StaysClosed(w.threads[j], remote)
    ensures StaysClosed(PostAll(w, postings, head).threads[i], remote)
  {
    if postings != [] {
      var before := PostAll(w, postings[..|postings| - 1], head);
      if i < |before.threads| {
        PostingsStayClosed(w, postings[..|postings| - 1], head, remote, i);
      }
      PostingStaysClosed(before, postings[|postings| - 1], head, remote, i);
    }
  }

  /** Detect, publish and a full sync that see the same snapshots leave no orphan, be it a new thread or an
      old one. */
  lemma {:induction false} WholeRunLeavesNoOrphan(w: World, remote: Remote, found: seq<Decision>,
                                                  settled: map<nat, DecisionState>, postings: seq<Posting>,
                                                  head: Option<string>, sync: Sync, i: nat)
    requires sync.remote.snapshots == remote.snapshots && !sync.incremental
    requires ValidPostings(DetectPhase(w, remote, found), postings)
    requires i < |PublishPhase(DetectPhase(w, remote, found), settled, postings, head).threads|
    ensures var published := PublishPhase(DetectPhase(w, remote, found), settled, postings, head);
            !Orphan(SyncPhase(published, sync).threads[i], published.decisions, sync.runId)
  {
    var detected := DetectPhase(w, remote, found);
    forall j | 0 <= j < |detected.threads|
      ensures StaysClosed(detected.threads[j], sync.remote)
    {
      ReconciledStaysClosed(w.threads[j], remote, sync.remote);
    }
    var published := PublishPhase(detected, settled, postings, head);
    if published != detected {
      PostingsStayClosed(detected.(decisions := Settle(detected.decisions, settled)), postings, head, sync.remote, i);
    }
    SyncLeavesOrphanExactlyWhen(published, sync, i);
  }

  // ----- status and reason -------------------------------------------------------------------

  /** The pairs of status and reason a thread row can have. */
  predicate Coherent(t: Thread)
  {
    match t.status
    case Open => t.reason == NoReason || t.reason == RemoteReopened
    case Stale => t.reason == AnchorChanged || t.reason == ResolveFailed
    case Resolved => t.reason == FixedInFollowup || t.reason == RemoteManualOnly || t.reason == NoLongerEligible
  }

  ghost predicate AllCoherent(threads: seq<Thread>)
  {
    forall i :: 0 <= i < |threads| ==> Coherent(threads[i])
  }

  lemma {:induction false} PostingKeepsCoherent(w: World, postings: seq<Posting>, head: Option<string>)
    requires AllCoherent(w.threads) && ValidPostings(w, postings)
    ensures AllCoherent(PostAll(w, postings, head).threads)
  {
    if postings != [] {
      PostingKeepsCoherent(w, postings[..|postings| - 1], head);
    }
  }

  lemma {:induction false} StepKeepsCoherent(w: World, p: Phase)
    requires Possible(w, p) && AllCoherent(w.threads)
    ensures AllCoherent(Step(w, p).threads)
  {
    match p
    case Detect(remote, found) =>
    case Publish(settled, postings, head) =>
      PostingKeepsCoherent(w.(decisions := Settle(w.decisions, settled)), postings, head);
    case Synchronize(sync) =>
      forall i | 0 <= i < |w.threads|
        ensures Coherent(SyncPhase(w, sync).threads[i])
      {
        SyncKeepsCoherent(w.threads[i], w.decisions, sync, CurrentFingerprints(w.decisions, sync.runId));
      }
  }

  lemma SyncKeepsCoherent(row: Thread, decisions: seq<Decision>, sync: Sync, current: set<string>)
    requires Coherent(row)
    ensures Coherent(SyncThread(row, ReconcileThread(row, sync.remote), decisions, sync, current))
  {
  }

  /** Over every run, every thread row keeps one of the seven status and reason pairs. */
  lemma {:induction false} RunsStayCoherent(worlds: seq<World>, phases: seq<Phase>)
    requires Run(worlds, phases)
    ensures forall k :: 0 <= k < |worlds| ==> AllCoherent(worlds[k].threads)
  {
    if phases != [] {
      var n := |phases| - 1;
      RunsStayCoherent(worlds[..n + 1], phases[..n]);
      assert worlds[..n + 1][n] == worlds[n];
      StepKeepsCoherent(worlds[n], phases[n]);
      assert forall k :: 0 <= k < n + 1 ==> worlds[k] == worlds[..n + 1][k];
    }
  }

  // ----- references --------------------------------------------------------------------------

  /** The row is still the same finding's, under the same reference. */
  predicate SameRow(t: Thread, t': Thread)
  {
    t'.ref == t.ref && t'.fingerprint == t.fingerprint
  }

  /** Rows keep their place, and no row is created resolved or reopened. */
  ghost predicate RowsStay(threads: seq<Thread>, threads': seq<Thread>)
  {
    && |threads| <= |threads'|
    && (forall i :: 0 <= i < |threads| ==> SameRow(threads[i], threads'[i]))
    && (forall i :: |threads| <= i < |threads'| ==>
          threads'[i].status != Resolved && threads'[i].reason != RemoteReopened)
  }

  /** A row that is resolved or counts as reopened was not touched. */
  ghost predicate ResolvedUntouched(threads: seq<Thread>, threads': seq<Thread>)
  {
    && |threads| <= |threads'|
    && forall i :: 0 <= i < |threads| && (threads'[i].status == Resolved || threads'[i].reason == RemoteReopened) ==>
         threads'[i] == threads[i]
  }

  lemma PostOneKeepsRows(w: World, p: Posting, head: Option<string>)
    requires ValidPosting(w, p)
    ensures var w' := PostOne(w, p, head);
            w'.events == w.events && RowsStay(w.threads, w'.threads) && ResolvedUntouched(w.threads, w'.threads)
  {
  }

  lemma {:induction false} RowsStayOn(a: seq<Thread>, b: seq<Thread>, c: seq<Thread>)
    requires RowsStay(a, b) && RowsStay(b, c) && ResolvedUntouched(a, b) && ResolvedUntouched(b, c)
    ensures RowsStay(a, c) && ResolvedUntouched(a, c)
  {
    forall i | 0 <= i < |a|
      ensures SameRow(a[i], c[i])
    {
      assert SameRow(a[i], b[i]) && SameRow(b[i], c[i]);
    }
  }

  lemma {:induction false} PostingKeepsRows(w: World, postings: seq<Posting>, head: Option<string>)
    requires ValidPostings(w, postings)
    ensures var w' := PostAll(w, postings, head);
            w'.events == w.events && RowsStay(w.threads, w'.threads) && ResolvedUntouched(w.threads, w'.threads)
  {
    if postings != [] {
      var (front, last) := (postings[..|postings| - 1], postings[|postings| - 1]);
      var before := PostAll(w, front, head);
      PostingKeepsRows(w, front, head);
      PostOneKeepsRows(before, last, head);
      RowsStayOn(w.threads, before.threads, PostOne(before, last, head).threads);
    }
  }

  /** Rows keep their place, reference and fingerprint, references stay unique, and no row is created
      resolved. */
  ghost predicate RowsKept(w: World, w': World)
  {
    UniqueRefs(w'.threads) && RowsStay(w.threads, w'.threads)
  }

  lemma {:induction false} DetectKeepsRows(w: World, remote: Remote, found: seq<Decision>)
    requires UniqueRefs(w.threads)
    ensures RowsKept(w, DetectPhase(w, remote, found))
  {
    var threads := ReconcileThreads(w.threads, remote);
    assert forall i :: 0 <= i < |threads| ==> SameRow(w.threads[i], threads[i]);
    SameRefsUnique(w.threads, threads);
  }

  lemma {:induction false} SyncKeepsRows(w: World, sync: Sync)
    requires UniqueRefs(w.threads)
    ensures RowsKept(w, SyncPhase(w, sync))
  {
    forall i | 0 <= i < |w.threads|
      ensures SameRow(w.threads[i], SyncPhase(w, sync).threads[i])
    {
      SyncKeepsRow(w.threads[i], w.decisions, sync, CurrentFingerprints(w.decisions, sync.runId));
    }
    SameRefsUnique(w.threads, SyncPhase(w, sync).threads);
  }

  lemma {:induction false} SameRefsUnique(threads: seq<Thread>, threads': seq<Thread>)
    requires UniqueRefs(threads) && |threads'| == |threads|
    requires forall i :: 0 <= i < |threads| ==> SameRow(threads[i], threads'[i])
    ensures UniqueRefs(threads')
  {
    forall i, j | 0 <= i < j < |threads|
      ensures threads'[i].ref != threads'[j].ref
    {
      assert SameRow(threads[i], threads'[i]) && SameRow(threads[j], threads'[j]);
    }
  }

  lemma SyncKeepsRow(row: Thread, decisions: seq<Decision>, sync: Sync, current: set<string>)
    ensures SameRow(row, SyncThread(row, ReconcileThread(row, sync.remote), decisions, sync, current))
  {
  }

  lemma {:induction false} PublishKeepsRows(w: World, settled: map<nat, DecisionState>, postings: seq<Posting>,
                                            head: Option<string>)
    requires UniqueRefs(w.threads) && ValidPostings(w, postings)
    ensures RowsKept(w, PublishPhase(w, settled, postings, head))
    ensures PublishPhase(w, settled, postings, head).events == w.events
    ensures ResolvedUntouched(w.threads, PublishPhase(w, settled, postings, head).threads)
  {
    var start := w.(decisions := Settle(w.decisions, settled));
    PostingKeepsRows(start, postings, head);
  }

  lemma {:induction false} StepKeepsRows(w: World, p: Phase)
    requires Possible(w, p) && UniqueRefs(w.threads)
    ensures RowsKept(w, Step(w, p))
  {
    match p
    case Detect(remote, found) => DetectKeepsRows(w, remote, found);
    case Publish(settled, postings, head) => PublishKeepsRows(w, settled, postings, head);
    case Synchronize(sync) => SyncKeepsRows(w, sync);
  }

  // ----- the event log counts transitions ----------------------------------------------------

  function CountEvents(events: seq<Event>, ref: string, kind: EventKind): nat
  {
    if events == [] then 0
    else
      CountEvents(events[..|events| - 1], ref, kind)
      + if events[|events| - 1].ref == ref && events[|events| - 1].kind == kind then 1 else 0
  }

  lemma {:induction false} CountAppend(a: seq<Event>, b: seq<Event>, ref: string, kind: EventKind)
    ensures CountEvents(a + b, ref, kind) == CountEvents(a, ref, kind) + CountEvents(b, ref, kind)
  {
    if b == [] {
      assert a + b == a;
    } else {
      var front := b[..|b| - 1];
      assert (a + b)[..|a + b| - 1] == a + front;
      CountAppend(a, front, ref, kind);
    }
  }

  /** ref is the reference of row i, or of no row when there is no row i. */
  ghost predicate Refers(threads: seq<Thread>, ref: string, i: nat)
  {
    && (i < |threads| ==> threads[i].ref == ref)
    && (i >= |threads| ==> forall j :: 0 <= j < |threads| ==> threads[j].ref != ref)
  }

  lemma OnlyOneRefers(threads: seq<Thread>, ref: string, i: nat, j: nat)
    requires UniqueRefs(threads) && Refers(threads, ref, i) && j < |threads|
    ensures threads[j].ref == ref <==> i == j
  {
  }

  lemma {:induction false} ReconcileLogPush(threads: seq<Thread>, remote: Remote, last: nat)
    requires last < |threads|
    ensures ReconcileLog(threads[..last + 1], remote) ==
            ReconcileLog(threads[..last], remote) + ReconcileEvents(threads[last], remote)
  {
    assert threads[..last + 1][..last] == threads[..last] && threads[..last + 1][last] == threads[last];
  }

  lemma {:induction false} ReconcileLogCounts(threads: seq<Thread>, remote: Remote, n: nat, ref: string,
                                              kind: EventKind, i: nat)
    requires UniqueRefs(threads) && n <= |threads| && Refers(threads, ref, i)
    ensures CountEvents(ReconcileLog(threads[..n], remote), ref, kind) ==
            if i < n then CountEvents(ReconcileEvents(threads[i], remote), ref, kind) else 0
  {
    if n > 0 {
      var last: nat := n - 1;
      ReconcileLogCounts(threads, remote, last, ref, kind, i);
      ReconcileLogPush(threads, remote, last);
      var events := ReconcileEvents(threads[last], remote);
      CountAppend(ReconcileLog(threads[..last], remote), events, ref, kind);
      AtMostOne(threads, remote, last);
      OneEvent(events, threads[last].ref, ref, kind);
      OnlyOneRefers(threads, ref, i, last);
    }
  }

  lemma AtMostOne(threads: seq<Thread>, remote: Remote, i: nat)
    requires i < |threads|
    ensures var events := ReconcileEvents(threads[i], remote);
            |events| <= 1 && (events != [] ==> events[0].ref == threads[i].ref)
  {
  }

  lemma AtMostOneSync(t: Thread, decisions: seq<Decision>, sync: Sync, current: set<string>)
    ensures var events := SyncEvents(t, decisions, sync, current);
            |events| <= 1 && (events != [] ==> events[0].ref == t.ref && events[0].kind == ResolvedEvent)
  {
  }

  lemma {:induction false} SyncLogPush(threads: seq<Thread>, decisions: seq<Decision>, sync: Sync, last: nat)
    requires last < |threads|
    ensures SyncLog(threads[..last + 1], decisions, sync) ==
            SyncLog(threads[..last], decisions, sync)
            + SyncEvents(threads[last], decisions, sync, CurrentFingerprints(decisions, sync.runId))
  {
    assert threads[..last + 1][..last] == threads[..last] && threads[..last + 1][last] == threads[last];
  }

  lemma {:induction false} SyncLogCounts(threads: seq<Thread>, decisions: seq<Decision>, sync: Sync, n: nat,
                                         ref: string,
                                         kind: EventKind, i: nat)
    requires UniqueRefs(threads) && n <= |threads| && Refers(threads, ref, i)
    ensures CountEvents(SyncLog(threads[..n], decisions, sync), ref, kind) ==
            if i < n then
              CountEvents(SyncEvents(threads[i], decisions, sync, CurrentFingerprints(decisions, sync.runId)),
                          ref, kind)
            else 0
  {
    if n > 0 {
      var last: nat := n - 1;
      SyncLogCounts(threads, decisions, sync, last, ref, kind, i);
      SyncLogPush(threads, decisions, sync, last);
      var events := SyncEvents(threads[last], decisions, sync, CurrentFingerprints(decisions, sync.runId));
      CountAppend(SyncLog(threads[..last], decisions, sync), events, ref, kind);
      AtMostOneSync(threads[last], decisions, sync, CurrentFingerprints(decisions, sync.runId));
      OneEvent(events, threads[last].ref, ref, kind);
      OnlyOneRefers(threads, ref, i, last);
    }
  }

  lemma {:induction false} OneEvent(events: seq<Event>, own: string, ref: string, kind: EventKind)
    requires |events| <= 1 && (events != [] ==> events[0].ref == own)
    ensures CountEvents(events, ref, kind) == if events != [] && own == ref && events[0].kind == kind then 1 else 0
  {
    if events != [] {
      assert events[..0] == [];
      assert CountEvents([], ref, kind) == 0;
    }
  }

  /** Row i enters "resolved" between two worlds. */
  predicate Enters(w: World, w': World, i: nat)
  {
    i < |w'.threads| && w'.threads[i].status == Resolved && (i >= |w.threads| || w.threads[i].status != Resolved)
  }

  /** Row i leaves "resolved" for "open". */
  predicate Reopens(w: World, w': World, i: nat)
  {
    i < |w.threads| && i < |w'.threads| && w.threads[i].status == Resolved && w'.threads[i].status == Open
  }

  predicate Leaves(w: World, w': World, i: nat)
  {
    i < |w.threads| && i < |w'.threads| && w.threads[i].status == Resolved && w'.threads[i].status != Resolved
  }

  /** What moving one row from t to t' adds to its log. */
  predicate RowLogged(t: Thread, t': Thread, events: seq<Event>)
  {
    && CountEvents(events, t.ref, ResolvedEvent) == (if t.status != Resolved && t'.status == Resolved then 1 else 0)
    && CountEvents(events, t.ref, ReopenedEvent) == (if t.status == Resolved && t'.status == Open then 1 else 0)
    && (t.status == Resolved && t'.status != Resolved ==> t'.status == Open)
  }

  lemma {:induction false} ReconcileRowLogged(t: Thread, remote: Remote)
    ensures RowLogged(t, ReconcileThread(t, remote), ReconcileEvents(t, remote))
  {
    AtMostOne([t], remote, 0);
    OneEvent(ReconcileEvents(t, remote), t.ref, t.ref, ResolvedEvent);
    OneEvent(ReconcileEvents(t, remote), t.ref, t.ref, ReopenedEvent);
  }

  lemma {:induction false} SyncRowLogged(t: Thread, decisions: seq<Decision>, sync: Sync, current: set<string>)
    ensures RowLogged(t, SyncThread(t, ReconcileThread(t, sync.remote), decisions, sync, current),
                      ReconcileEvents(t, sync.remote) + SyncEvents(t, decisions, sync, current))
  {
    var own, more := ReconcileEvents(t, sync.remote), SyncEvents(t, decisions, sync, current);
    ReconcileRowLogged(t, sync.remote);
    CountAppend(own, more, t.ref, ResolvedEvent);
    CountAppend(own, more, t.ref, ReopenedEvent);
    AtMostOneSync(t, decisions, sync, current);
    OneEvent(more, t.ref, t.ref, ResolvedEvent);
    OneEvent(more, t.ref, t.ref, ReopenedEvent);
  }

  /** What a phase that only reconciles and syncs adds to the log of row i is how it moves the row. */
  ghost predicate Counted(w: World, w': World, ref: string, i: nat)
  {
    && CountEvents(w'.events, ref, ResolvedEvent) ==
       CountEvents(w.events, ref, ResolvedEvent) + (if Enters(w, w', i) then 1 else 0)
    && CountEvents(w'.events, ref, ReopenedEvent) ==
       CountEvents(w.events, ref, ReopenedEvent) + (if Reopens(w, w', i) then 1 else 0)
    && (Leaves(w, w', i) <==> Reopens(w, w', i))
  }

  lemma {:induction false} DetectLogCounts(w: World, remote: Remote, ref: string, kind: EventKind, i: nat)
    requires UniqueRefs(w.threads) && Refers(w.threads, ref, i)
    ensures CountEvents(w.events + ReconcileLog(w.threads, remote), ref, kind) ==
            CountEvents(w.events, ref, kind)
            + if i < |w.threads| then CountEvents(ReconcileEvents(w.threads[i], remote), ref, kind) else 0
  {
    var n := |w.threads|;
    assert w.threads[..n] == w.threads;
    CountAppend(w.events, ReconcileLog(w.threads, remote), ref, kind);
    ReconcileLogCounts(w.threads, remote, n, ref, kind, i);
  }

  /** A phase counts right if it adds to the log of row i the events of moving it. */
  lemma CountedFrom(w: World, w': World, ref: string, i: nat, events: seq<Event>)
    requires |w'.threads| >= |w.threads| && (i < |w.threads| ==> w.threads[i].ref == ref)
    requires forall j :: |w.threads| <= j < |w'.threads| ==> w'.threads[j].status != Resolved
    requires if i < |w.threads| then RowLogged(w.threads[i], w'.threads[i], events) else events == []
    requires CountEvents(w'.events, ref, ResolvedEvent) ==
             CountEvents(w.events, ref, ResolvedEvent) + CountEvents(events, ref, ResolvedEvent)
    requires CountEvents(w'.events, ref, ReopenedEvent) ==
             CountEvents(w.events, ref, ReopenedEvent) + CountEvents(events, ref, ReopenedEvent)
    ensures Counted(w, w', ref, i)
  {
  }

  lemma {:induction false} DetectCounts(w: World, remote: Remote, found: seq<Decision>, ref: string, i: nat)
    requires UniqueRefs(w.threads) && Refers(w.threads, ref, i)
    ensures Counted(w, DetectPhase(w, remote, found), ref, i)
  {
    DetectLogCounts(w, remote, ref, ResolvedEvent, i);
    DetectLogCounts(w, remote, ref, ReopenedEvent, i);
    if i < |w.threads| {
      ReconcileRowLogged(w.threads[i], remote);
      CountedFrom(w, DetectPhase(w, remote, found), ref, i, ReconcileEvents(w.threads[i], remote));
    } else {
      CountedFrom(w, DetectPhase(w, remote, found), ref, i, []);
    }
  }

  lemma {:induction false} SyncPhaseLogCounts(w: World, sync: Sync, ref: string, kind: EventKind, i: nat)
    requires UniqueRefs(w.threads) && Refers(w.threads, ref, i)
    ensures CountEvents(SyncPhase(w, sync).events, ref, kind) ==
            CountEvents(w.events, ref, kind)
            + if i < |w.threads| then
                CountEvents(ReconcileEvents(w.threads[i], sync.remote)
                            + SyncEvents(w.threads[i], w.decisions, sync, CurrentFingerprints(w.decisions, sync.runId)),
                            ref, kind)
              else 0
  {
    var n := |w.threads|;
    assert w.threads[..n] == w.threads;
    DetectLogCounts(w, sync.remote, ref, kind, i);
    CountAppend(w.events + ReconcileLog(w.threads, sync.remote), SyncLog(w.threads, w.decisions, sync), ref, kind);
    SyncLogCounts(w.threads, w.decisions, sync, n, ref, kind, i);
    if i < n {
      CountAppend(ReconcileEvents(w.threads[i], sync.remote),
                  SyncEvents(w.threads[i], w.decisions, sync, CurrentFingerprints(w.decisions, sync.runId)), ref, kind);
    }
  }

  lemma {:induction false} SyncCounts(w: World, sync: Sync, ref: string, i: nat)
    requires UniqueRefs(w.threads) && Refers(w.threads, ref, i)
    ensures Counted(w, SyncPhase(w, sync), ref, i)
  {
    SyncPhaseLogCounts(w, sync, ref, ResolvedEvent, i);
    SyncPhaseLogCounts(w, sync, ref, ReopenedEvent, i);
    if i < |w.threads| {
      var current := CurrentFingerprints(w.decisions, sync.runId);
      SyncRowLogged(w.threads[i], w.decisions, sync, current);
      CountedFrom(w, SyncPhase(w, sync), ref, i,
                  ReconcileEvents(w.threads[i], sync.remote) + SyncEvents(w.threads[i], w.decisions, sync, current));
    } else {
      CountedFrom(w, SyncPhase(w, sync), ref, i, []);
    }
  }

  // ----- the log over whole runs -------------------------------------------------------------

  lemma {:induction false} RunsKeepRefsUnique(worlds: seq<World>, phases: seq<Phase>)
    requires Run(worlds, phases)
    ensures forall k :: 0 <= k < |worlds| ==> UniqueRefs(worlds[k].threads)
  {
    if phases != [] {
      var n := |phases| - 1;
      PrefixRun(worlds, phases);
      RunsKeepRefsUnique(worlds[..n + 1], phases[..n]);
      assert worlds[..n + 1][n] == worlds[n];
      StepKeepsRows(worlds[n], phases[n]);
      assert forall k :: 0 <= k < n + 1 ==> worlds[k] == worlds[..n + 1][k];
    }
  }

  lemma PrefixRun(worlds: seq<World>, phases: seq<Phase>)
    requires Run(worlds, phases) && phases != []
    ensures Run(worlds[..|phases|], phases[..|phases| - 1])
  {
  }

  /** How often row i enters "resolved" over a run. */
  function Entries(worlds: seq<World>, i: nat): nat
  {
    if |worlds| < 2 then 0
    else
      Entries(worlds[..|worlds| - 1], i) + if Enters(worlds[|worlds| - 2], worlds[|worlds| - 1], i) then 1 else 0
  }

  /** How often a detect or sync phase takes row i from "resolved" to "open". */
  function Reopenings(worlds: seq<World>, phases: seq<Phase>, i: nat): nat
    requires |worlds| == |phases| + 1
  {
    if phases == [] then 0
    else
      var n := |phases| - 1;
      Reopenings(worlds[..n + 1], phases[..n], i)
      + if !phases[n].Publish? && Reopens(worlds[n], worlds[n + 1], i) then 1 else 0
  }

  /** How often a publish phase takes row i out of "resolved"; nothing is logged then. */
  function SilentExits(worlds: seq<World>, phases: seq<Phase>, i: nat): nat
    requires |worlds| == |phases| + 1
  {
    if phases == [] then 0
    else
      var n := |phases| - 1;
      SilentExits(worlds[..n + 1], phases[..n], i)
      + if phases[n].Publish? && Leaves(worlds[n], worlds[n + 1], i) then 1 else 0
  }

  lemma {:induction false} RefersBefore(w: World, p: Phase, ref: string, i: nat)
    requires Possible(w, p) && UniqueRefs(w.threads) && Refers(Step(w, p).threads, ref, i)
    ensures Refers(w.threads, ref, i)
  {
    StepKeepsRows(w, p);
    var w' := Step(w, p);
    if i >= |w.threads| {
      forall j | 0 <= j < |w.threads|
        ensures w.threads[j].ref != ref
      {
        assert SameRow(w.threads[j], w'.threads[j]);
      }
    } else {
      assert SameRow(w.threads[i], w'.threads[i]);
    }
  }

  /** What one phase adds to the log for a row, and how it moves the row. */
  lemma {:induction false} StepCounts(w: World, p: Phase, ref: string, i: nat)
    requires Possible(w, p) && UniqueRefs(w.threads) && Refers(w.threads, ref, i)
    ensures var w' := Step(w, p);
            && (!p.Publish? ==> Counted(w, w', ref, i))
            && (p.Publish? ==> w'.events == w.events && !Enters(w, w', i))
  {
    match p
    case Detect(remote, found) => DetectCounts(w, remote, found, ref, i);
    case Publish(settled, postings, head) => PublishKeepsRows(w, settled, postings, head);
    case Synchronize(sync) => SyncCounts(w, sync, ref, i);
  }

  /** The event log counts transitions exactly: over every run, a thread's "resolved" events are its
      entries into resolved, and its "reopened" events are its moves from resolved to open outside
      publish phases. */
  lemma {:induction false} LogCountsTransitions(worlds: seq<World>, phases: seq<Phase>, ref: string, i: nat)
    requires Run(worlds, phases) && Refers(worlds[|phases|].threads, ref, i)
    ensures CountEvents(worlds[|phases|].events, ref, ResolvedEvent) == Entries(worlds, i)
    ensures CountEvents(worlds[|phases|].events, ref, ReopenedEvent) == Reopenings(worlds, phases, i)
  {
    if phases != [] {
      var n := |phases| - 1;
      PrefixRun(worlds, phases);
      RunsKeepRefsUnique(worlds, phases);
      assert worlds[..n + 1][n] == worlds[n];
      RefersBefore(worlds[n], phases[n], ref, i);
      LogCountsTransitions(worlds[..n + 1], phases[..n], ref, i);
      StepCounts(worlds[n], phases[n], ref, i);
      assert worlds[..|worlds| - 1] == worlds[..n + 1];
    }
  }

  /** Entries and exits balance: what was logged as resolved and neither logged as reopened nor
      silently taken out by publishing is resolved now. */
  lemma {:induction false} TransitionsBalance(worlds: seq<World>, phases: seq<Phase>, i: nat)
    requires Run(worlds, phases)
    ensures var last := worlds[|phases|];
            Entries(worlds, i) ==
            Reopenings(worlds, phases, i) + SilentExits(worlds, phases, i)
            + if i < |last.threads| && last.threads[i].status == Resolved then 1 else 0
  {
    if phases != [] {
      var n := |phases| - 1;
      PrefixRun(worlds, phases);
      RunsKeepRefsUnique(worlds, phases);
      assert worlds[..n + 1][n] == worlds[n];
      TransitionsBalance(worlds[..n + 1], phases[..n], i);
      StepKeepsRows(worlds[n], phases[n]);
      var ref := if i < |worlds[n].threads| then worlds[n].threads[i].ref else UnusedRef(worlds[n].threads);
      if i >= |worlds[n].threads| {
        UnusedIsUnused(worlds[n].threads);
      }
      StepCounts(worlds[n], phases[n], ref, i);
      assert worlds[..|worlds| - 1] == worlds[..n + 1];
    }
  }

  /** Such an exit: a resolved thread whose comment is posted again is open, and nothing is logged. */
  lemma {:induction false} PostingReopensSilently(w: World, t: Thread, d: Decision, p: Posting)
    requires t.status == Resolved && t.anchor == d.anchor
    requires w.threads == [t] && w.decisions == [d] && p == Posting(0, Some(0), t.bodyHash, Posted(t.ref, None))
    ensures var w' := Step(w, Publish(map[], [p], None));
            Leaves(w, w', 0) && w'.threads[0].status == Open && w'.events == w.events
  {
    var start := w.(decisions := Settle(w.decisions, map[]));
    assert [p][..0] == [];
    assert PostAll(start, [p], None) == PostOne(start, p, None);
  }

  ghost predicate PostedTo(postings: seq<Posting>, i: nat)
  {
    exists k :: 0 <= k < |postings| && postings[k].existing == Some(i) && postings[k].outcome.Posted?
  }

  lemma {:induction false} PostedToPush(postings: seq<Posting>, i: nat)
    requires postings != []
    ensures PostedTo(postings, i) <==>
            PostedTo(postings[..|postings| - 1], i)
            || (postings[|postings| - 1].existing == Some(i) && postings[|postings| - 1].outcome.Posted?)
  {
    var front := postings[..|postings| - 1];
    if PostedTo(front, i) {
      var k :| 0 <= k < |front| && front[k].existing == Some(i) && front[k].outcome.Posted?;
      assert postings[k] == front[k];
    }
    if PostedTo(postings, i) {
      var k :| 0 <= k < |postings| && postings[k].existing == Some(i) && postings[k].outcome.Posted?;
      assert k < |front| ==> front[k] == postings[k];
    }
  }

  lemma OnePostingLeaves(w: World, p: Posting, head: Option<string>, i: nat)
    requires ValidPosting(w, p) && i < |w.threads|
    ensures PostOne(w, p, head).threads[i].status == Resolved <==>
            w.threads[i].status == Resolved && !(p.existing == Some(i) && p.outcome.Posted?)
  {
  }

  /** A resolved row leaves resolved, silently, exactly when some posting names it and goes out. */
  lemma {:induction false} StaysResolvedExactlyWhenNotPostedTo(w: World, postings: seq<Posting>, head: Option<string>,
                                                               i: nat)
    requires ValidPostings(w, postings) && i < |w.threads|
    ensures PostAll(w, postings, head).threads[i].status == Resolved <==>
            w.threads[i].status == Resolved && !PostedTo(postings, i)
  {
    if postings != [] {
      StaysResolvedExactlyWhenNotPostedTo(w, postings[..|postings| - 1], head, i);
      OnePostingLeaves(PostAll(w, postings[..|postings| - 1], head), postings[|postings| - 1], head, i);
      PostedToPush(postings, i);
    }
  }

  /** A reference longer than every other. */
  function UnusedRef(threads: seq<Thread>): string
  {
    if threads == [] then "x" else UnusedRef(threads[1..]) + threads[0].ref
  }

  lemma {:induction false} UnusedIsUnused(threads: seq<Thread>)
    ensures UnusedRef(threads) != []
    ensures forall j :: 0 <= j < |threads| ==> |threads[j].ref| < |UnusedRef(threads)|
  {
    if threads != [] {
      UnusedIsUnused(threads[1..]);
      assert forall j :: 1 <= j < |threads| ==> threads[j] == threads[1..][j - 1];
    }
  }

  /** The row that shows a posted comment: the thread it was found under if that still is at the decision's
      anchor, else a new one at the end. */
  function PostedRow(w: World, p: Posting): nat
    requires ValidPosting(w, p)
  {
    if p.existing.Some? && w.threads[p.existing.value].anchor == w.decisions[p.decision].anchor then p.existing.value
    else |w.threads|
  }

  /** The row is open and current, and says what was posted. */
  predicate ShowsPosting(t: Thread, d: Decision, p: Posting, head: Option<string>)
    requires p.outcome.Posted?
  {
    && t.status == Open && t.reason == NoReason && t.anchor == d.anchor && t.bodyHash == p.bodyHash
    && t.decisionId == Some(d.id) && t.commentRef == p.outcome.commentRef && t.headSha == head
  }

  /** What one posting that goes out does: its row shows it, a thread left behind at another anchor goes stale,
      every other row stays, and the decision is published. */
  lemma PostingShows(w: World, p: Posting, head: Option<string>)
    requires ValidPosting(w, p) && p.outcome.Posted? && !AlreadyPosted(w, p)
    ensures var (w', d, k) := (PostOne(w, p, head), w.decisions[p.decision], PostedRow(w, p));
            && k < |w'.threads| && ShowsPosting(w'.threads[k], d, p, head)
            && (k == |w.threads| ==>
                  w'.threads[k].ref == p.outcome.threadRef && w'.threads[k].fingerprint == d.fingerprint)
            && (p.existing.Some? && p.existing.value != k ==>
                  w'.threads[p.existing.value] ==
                  w.threads[p.existing.value].(status := Stale, reason := AnchorChanged))
            && (forall j: nat :: j < |w.threads| && j != k && p.existing != Some(j) ==> w'.threads[j] == w.threads[j])
            && w'.decisions == w.decisions[p.decision := d.(state := Published)]
  {
  }

  /** A comment is posted once: whatever became of the first posting, the same comment for the same decision,
      looked up again, is found to be there. */
  lemma {:induction false} PostedIsThere(w: World, p: Posting, head: Option<string>, again: Posting)
    requires ValidPosting(w, p) && p.outcome.Posted? && !AlreadyPosted(w, p)
    requires again.decision == p.decision && again.bodyHash == p.bodyHash && again.existing == Some(PostedRow(w, p))
    ensures var once := PostOne(w, p, head);
            ValidPosting(once, again) && AlreadyPosted(once, again) && PostOne(once, again, head) == once
  {
    PostingShows(w, p, head);
    var once := PostOne(w, p, head);
    assert once.decisions[p.decision := once.decisions[p.decision].(state := Published)] == once.decisions;
  }

  /** What one posting that fails does: the decision is suppressed if there was nothing to anchor to, else failed,
      and no thread changes. */
  lemma FailedPosting(w: World, p: Posting, head: Option<string>)
    requires ValidPosting(w, p) && p.outcome.NotPosted? && !AlreadyPosted(w, p)
    ensures var (w', d) := (PostOne(w, p, head), w.decisions[p.decision]);
            w'.threads == w.threads && w'.events == w.events
            && |w'.decisions| == |w.decisions|
            && w'.decisions[p.decision] ==
               d.(state := if p.outcome.anchorUnavailable then Suppressed else FailedPublication)
            && forall j :: 0 <= j < |w.decisions| && j != p.decision ==> w'.decisions[j] == w.decisions[j]
  {
  }

  // ----- the log of one thread alternates ----------------------------------------------------

  /** The reference's latest event. */
  function LastEvent(events: seq<Event>, ref: string): Option<Event>
  {
    if events == [] then None
    else if events[|events| - 1].ref == ref then Some(events[|events| - 1])
    else LastEvent(events[..|events| - 1], ref)
  }

  predicate SaysResolved(e: Option<Event>)
  {
    e.Some? && e.value.kind == ResolvedEvent
  }

  /** Every "reopened" event answers a "resolved" event of the same thread, nothing in between. */
  ghost predicate Alternates(events: seq<Event>)
  {
    forall k :: 0 <= k < |events| && events[k].kind == ReopenedEvent ==>
      SaysResolved(LastEvent(events[..k], events[k].ref))
  }

  /** A thread that is resolved was last logged as resolved, for the reason it carries; one that counts as
      reopened was last logged as reopened. */
  predicate Logged(t: Thread, last: Option<Event>)
  {
    && (t.status == Resolved ==> last == Some(Event(t.ref, ResolvedEvent, t.reason)))
    && (t.reason == RemoteReopened ==> last == Some(Event(t.ref, ReopenedEvent, RemoteReopened)))
  }

  ghost predicate AllLogged(threads: seq<Thread>, events: seq<Event>)
  {
    forall i :: 0 <= i < |threads| ==> Logged(threads[i], LastEvent(events, threads[i].ref))
  }

  /** The event a reference was last logged with, once these are added. */
  function EventAfter(more: seq<Event>, ref: string, before: Option<Event>): Option<Event>
  {
    if more != [] && more[0].ref == ref then Some(more[0]) else before
  }

  lemma {:induction false} LastEventPush(events: seq<Event>, more: seq<Event>, ref: string)
    requires |more| <= 1
    ensures LastEvent(events + more, ref) == EventAfter(more, ref, LastEvent(events, ref))
  {
    if more == [] {
      assert events + more == events;
    } else {
      assert (events + more)[..|events|] == events;
    }
  }

  lemma {:induction false} AlternatesPush(events: seq<Event>, more: seq<Event>)
    requires Alternates(events) && |more| <= 1
    requires more != [] && more[0].kind == ReopenedEvent ==> SaysResolved(LastEvent(events, more[0].ref))
    ensures Alternates(events + more)
  {
    var all := events + more;
    forall k | 0 <= k < |all| && all[k].kind == ReopenedEvent
      ensures SaysResolved(LastEvent(all[..k], all[k].ref))
    {
      assert all[..k] == events[..k];
    }
  }

  lemma {:induction false} ReconcileLastEvent(threads: seq<Thread>, events: seq<Event>, remote: Remote, n: nat, i: nat)
    requires UniqueRefs(threads) && n <= |threads| && i < |threads|
    ensures LastEvent(events + ReconcileLog(threads[..n], remote), threads[i].ref) ==
            if i < n
            then EventAfter(ReconcileEvents(threads[i], remote), threads[i].ref, LastEvent(events, threads[i].ref))
            else LastEvent(events, threads[i].ref)
  {
    if n == 0 {
      assert events + ReconcileLog(threads[..0], remote) == events;
    } else {
      var last: nat := n - 1;
      ReconcileLastEvent(threads, events, remote, last, i);
      ReconcileLogPush(threads, remote, last);
      var before, more := ReconcileLog(threads[..last], remote), ReconcileEvents(threads[last], remote);
      Associates(events, before, more);
      AtMostOne(threads, remote, last);
      LastEventPush(events + before, more, threads[i].ref);
      OnlyOneRefers(threads, threads[i].ref, i, last);
    }
  }

  lemma {:induction false} ReconcileAlternates(threads: seq<Thread>, events: seq<Event>, remote: Remote, n: nat)
    requires UniqueRefs(threads) && n <= |threads|
    requires Alternates(events) && AllLogged(threads, events)
    ensures Alternates(events + ReconcileLog(threads[..n], remote))
  {
    if n == 0 {
      assert events + ReconcileLog(threads[..0], remote) == events;
    } else {
      var last: nat := n - 1;
      ReconcileAlternates(threads, events, remote, last);
      ReconcileLogPush(threads, remote, last);
      var before, more := ReconcileLog(threads[..last], remote), ReconcileEvents(threads[last], remote);
      Associates(events, before, more);
      AtMostOne(threads, remote, last);
      ReconcileLastEvent(threads, events, remote, last, last);
      AlternatesPush(events + before, more);
    }
  }

  lemma {:induction false} SyncLastEvent(threads: seq<Thread>, decisions: seq<Decision>, events: seq<Event>, sync: Sync,
                                        current: set<string>, n: nat, i: nat)
    requires UniqueRefs(threads) && n <= |threads| && i < |threads|
    requires current == CurrentFingerprints(decisions, sync.runId)
    ensures LastEvent(events + SyncLog(threads[..n], decisions, sync), threads[i].ref) ==
            if i < n
            then EventAfter(SyncEvents(threads[i], decisions, sync, current), threads[i].ref,
                           LastEvent(events, threads[i].ref))
            else LastEvent(events, threads[i].ref)
  {
    if n == 0 {
      assert events + SyncLog(threads[..0], decisions, sync) == events;
    } else {
      var last: nat := n - 1;
      SyncLastEvent(threads, decisions, events, sync, current, last, i);
      SyncLogPush(threads, decisions, sync, last);
      var before, more :=
        SyncLog(threads[..last], decisions, sync), SyncEvents(threads[last], decisions, sync, current);
      Associates(events, before, more);
      AtMostOneSync(threads[last], decisions, sync, current);
      LastEventPush(events + before, more, threads[i].ref);
      OnlyOneRefers(threads, threads[i].ref, i, last);
    }
  }

  lemma {:induction false} SyncAlternates(threads: seq<Thread>, decisions: seq<Decision>, events: seq<Event>,
                                          sync: Sync, n: nat)
    requires n <= |threads| && Alternates(events)
    ensures Alternates(events + SyncLog(threads[..n], decisions, sync))
  {
    if n == 0 {
      assert events + SyncLog(threads[..0], decisions, sync) == events;
    } else {
      var last: nat := n - 1;
      SyncAlternates(threads, decisions, events, sync, last);
      SyncLogPush(threads, decisions, sync, last);
      var before := SyncLog(threads[..last], decisions, sync);
      var more := SyncEvents(threads[last], decisions, sync, CurrentFingerprints(decisions, sync.runId));
      Associates(events, before, more);
      AtMostOneSync(threads[last], decisions, sync, CurrentFingerprints(decisions, sync.runId));
      AlternatesPush(events + before, more);
    }
  }

  ghost predicate WellLogged(w: World)
  {
    UniqueRefs(w.threads) && Alternates(w.events) && AllLogged(w.threads, w.events)
  }

  /** Reconciling logs what it does to a row. */
  lemma LoggedAfterReconcile(t: Thread, remote: Remote, before: Option<Event>)
    requires Logged(t, before)
    ensures Logged(ReconcileThread(t, remote), EventAfter(ReconcileEvents(t, remote), t.ref, before))
  {
  }

  lemma {:induction false} DetectKeepsLog(w: World, remote: Remote, found: seq<Decision>)
    requires WellLogged(w)
    ensures WellLogged(DetectPhase(w, remote, found))
  {
    var n := |w.threads|;
    DetectKeepsRows(w, remote, found);
    assert w.threads[..n] == w.threads;
    ReconcileAlternates(w.threads, w.events, remote, n);
    var w' := DetectPhase(w, remote, found);
    forall i: nat | i < n
      ensures Logged(w'.threads[i], LastEvent(w'.events, w'.threads[i].ref))
    {
      ReconcileLastEvent(w.threads, w.events, remote, n, i);
      LoggedAfterReconcile(w.threads[i], remote, LastEvent(w.events, w.threads[i].ref));
    }
  }

  lemma {:induction false} SyncKeepsLog(w: World, sync: Sync)
    requires WellLogged(w)
    ensures WellLogged(SyncPhase(w, sync))
  {
    var n, current := |w.threads|, CurrentFingerprints(w.decisions, sync.runId);
    SyncKeepsRows(w, sync);
    assert w.threads[..n] == w.threads;
    var events := w.events + ReconcileLog(w.threads, sync.remote);
    ReconcileAlternates(w.threads, w.events, sync.remote, n);
    SyncAlternates(w.threads, w.decisions, events, sync, n);
    var w' := SyncPhase(w, sync);
    forall i: nat | i < n
      ensures Logged(w'.threads[i], LastEvent(w'.events, w'.threads[i].ref))
    {
      var t := w.threads[i];
      ReconcileLastEvent(w.threads, w.events, sync.remote, n, i);
      SyncLastEvent(w.threads, w.decisions, events, sync, current, n, i);
      SyncKeepsRow(t, w.decisions, sync, current);
      LoggedAfterSync(t, w.decisions, sync, current, LastEvent(w.events, t.ref));
    }
  }

  /** And so does a sync. */
  lemma LoggedAfterSync(t: Thread, decisions: seq<Decision>, sync: Sync, current: set<string>, before: Option<Event>)
    requires Logged(t, before)
    ensures Logged(SyncThread(t, ReconcileThread(t, sync.remote), decisions, sync, current),
                   EventAfter(SyncEvents(t, decisions, sync, current), t.ref,
                              EventAfter(ReconcileEvents(t, sync.remote), t.ref, before)))
  {
  }

  lemma {:induction false} StepKeepsLog(w: World, p: Phase)
    requires Possible(w, p) && WellLogged(w)
    ensures WellLogged(Step(w, p))
  {
    match p
    case Detect(remote, found) => DetectKeepsLog(w, remote, found);
    case Publish(settled, postings, head) =>
      PublishKeepsRows(w, settled, postings, head);
      var w' := PublishPhase(w, settled, postings, head);
      forall i | 0 <= i < |w'.threads|
        ensures Logged(w'.threads[i], LastEvent(w'.events, w'.threads[i].ref))
      {
        assert i < |w.threads| ==> Logged(w.threads[i], LastEvent(w.events, w.threads[i].ref));
      }
    case Synchronize(sync) => SyncKeepsLog(w, sync);
  }

  /** Over every run, in every thread's log each "reopened" is directly preceded by a "resolved"; a resolved
      thread's last event is "resolved", for the reason the thread carries, and the last event of one that
      counts as reopened is "reopened". */
  lemma {:induction false} RunsAlternate(worlds: seq<World>, phases: seq<Phase>)
    requires Run(worlds, phases)
    ensures WellLogged(worlds[|phases|])
  {
    if phases != [] {
      var n := |phases| - 1;
      PrefixRun(worlds, phases);
      RunsAlternate(worlds[..n + 1], phases[..n]);
      assert worlds[..n + 1][n] == worlds[n];
      StepKeepsLog(worlds[n], phases[n]);
    }
  }
}
