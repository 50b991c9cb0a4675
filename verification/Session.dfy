/** The phases as a session runs them: assignments to in-memory rows, queries that still see the
    committed ones, a log that only grows, and a commit at the end of each phase. */
module Session {
  import opened Text
  import opened Records
  import opened Threads

  lemma {:induction false} ReconcilePush(threads: seq<Thread>, committed: seq<Decision>, remote: Remote, i: nat)
    requires i < |threads|
    ensures ReconcileLog(threads[..i + 1], remote) ==
            ReconcileLog(threads[..i], remote) + ReconcileEvents(threads[i], remote)
    ensures ReconcileDecisions(committed, threads[..i + 1], remote) ==
            ReconcileMark(committed, ReconcileDecisions(committed, threads[..i], remote), threads[i], remote)
  {
    assert threads[..i + 1][..i] == threads[..i] && threads[..i + 1][i] == threads[i];
  }

  lemma {:induction false} SyncPush(threads: seq<Thread>, committed: seq<Decision>, current: seq<Decision>,
                                    sync: Sync, i: nat)
    requires i < |threads| && |committed| == |current|
    ensures var fingerprints := CurrentFingerprints(committed, sync.runId);
            && SyncLog(threads[..i + 1], committed, sync) ==
               SyncLog(threads[..i], committed, sync) + SyncEvents(threads[i], committed, sync, fingerprints)
            && SyncDecisions(committed, threads[..i + 1], current, sync) ==
               SyncMark(committed, SyncDecisions(committed, threads[..i], current, sync), threads[i], sync,
                        fingerprints)
  {
    assert threads[..i + 1][..i] == threads[..i] && threads[..i + 1][i] == threads[i];
  }

  /** The first i rows are reconciled, the others as they were. */
  ghost predicate ReconciledUpTo(threads: seq<Thread>, before: seq<Thread>, remote: Remote, i: nat)
  {
    && |threads| == |before|
    && (forall j :: 0 <= j < i && j < |before| ==> threads[j] == ReconcileThread(before[j], remote))
    && (forall j :: i <= j < |before| ==> threads[j] == before[j])
  }

  lemma ReconciledStep(threads: seq<Thread>, before: seq<Thread>, remote: Remote, i: nat)
    requires ReconciledUpTo(threads, before, remote, i) && i < |before|
    ensures threads[i] == before[i]
    ensures ReconciledUpTo(threads[i := ReconcileThread(before[i], remote)], before, remote, i + 1)
  {
  }

  lemma ReconciledAll(threads: seq<Thread>, before: seq<Thread>, remote: Remote)
    requires ReconciledUpTo(threads, before, remote, |before|)
    ensures threads == ReconcileThreads(before, remote)
  {
  }

  /** The first i rows are synced, the others as reconciling left them. */
  ghost predicate SyncedUpTo(threads: seq<Thread>, rows: seq<Thread>, decisions: seq<Decision>, sync: Sync,
                             current: set<string>, i: nat)
  {
    && |threads| == |rows|
    && (forall j :: 0 <= j < i && j < |rows| ==>
          threads[j] == SyncThread(rows[j], ReconcileThread(rows[j], sync.remote), decisions, sync, current))
    && (forall j :: i <= j < |rows| ==> threads[j] == ReconcileThread(rows[j], sync.remote))
  }

  lemma SyncedStep(threads: seq<Thread>, rows: seq<Thread>, decisions: seq<Decision>, sync: Sync, current: set<string>,
                   i: nat)
    requires SyncedUpTo(threads, rows, decisions, sync, current, i) && i < |rows|
    ensures threads[i] == ReconcileThread(rows[i], sync.remote)
    ensures SyncedUpTo(threads[i := SyncThread(rows[i], threads[i], decisions, sync, current)], rows, decisions, sync,
                       current, i + 1)
  {
  }

  lemma SyncedAll(threads: seq<Thread>, rows: seq<Thread>, decisions: seq<Decision>, sync: Sync, current: set<string>)
    requires SyncedUpTo(threads, rows, decisions, sync, current, |rows|)
    requires current == CurrentFingerprints(decisions, sync.runId)
    ensures threads == SyncThreads(rows, decisions, sync)
  {
  }

  class ReviewSession {
    var threads: seq<Thread>
    var decisions: seq<Decision>
    var events: seq<Event>
    var committedThreads: seq<Thread>
    var committedDecisions: seq<Decision>

    /** Nothing is pending: what the objects say is what a query sees. */
    ghost predicate Settled()
      reads this
    {
      threads == committedThreads && decisions == committedDecisions
    }

    ghost function Now(): World
      reads this
    {
      World(threads, decisions, events)
    }

    /** A session opens on the rows that are stored. */
    constructor (stored: World)
      ensures Settled() && Now() == stored
    {
      threads, decisions, events := stored.threads, stored.decisions, stored.events;
      committedThreads, committedDecisions := stored.threads, stored.decisions;
    }

    method Commit()
      modifies this`committedThreads, this`committedDecisions
      ensures Settled()
    {
      committedThreads, committedDecisions := threads, decisions;
    }

    /** Queries the committed rows for the fingerprint's active decisions and resolves the objects. */
    method MarkFingerprintResolved(fingerprint: string)
      requires |decisions| == |committedDecisions|
      modifies this`decisions
      ensures decisions == MarkResolved(committedDecisions, old(decisions), fingerprint)
    {
      ghost var target := MarkResolved(committedDecisions, decisions, fingerprint);
      for i := 0 to |decisions|
        invariant |decisions| == |committedDecisions| == |old(decisions)|
        invariant forall j :: 0 <= j < i ==> decisions[j] == target[j]
        invariant forall j :: i <= j < |decisions| ==> decisions[j] == old(decisions)[j]
      {
        if committedDecisions[i].fingerprint == fingerprint && Active(committedDecisions[i]) {
          decisions := decisions[i := decisions[i].(state := ResolvedFinding)];
        }
      }
    }

    method MarkFingerprintReopened(fingerprint: string)
      requires |decisions| == |committedDecisions|
      modifies this`decisions
      ensures decisions == MarkReopened(committedDecisions, old(decisions), fingerprint)
    {
      if SomeActive(committedDecisions, fingerprint) {
        return;
      }
      var latest := LatestResolved(committedDecisions, fingerprint);
      if latest.Some? {
        decisions := decisions[latest.value := decisions[latest.value].(state := Published)];
      }
    }

    /** One tracked thread against its snapshot, if it has one. */
    method ReconcileOne(i: nat, remote: Remote)
      requires i < |threads| && |decisions| == |committedDecisions|
      modifies this`threads, this`decisions, this`events
      ensures threads == old(threads)[i := ReconcileThread(old(threads)[i], remote)]
      ensures decisions == ReconcileMark(committedDecisions, old(decisions), old(threads)[i], remote)
      ensures events == old(events) + ReconcileEvents(old(threads)[i], remote)
    {
      var t := threads[i];
      if t.ref !in remote.snapshots {
        return;
      }
      var snapshot := remote.snapshots[t.ref];
      var seen := t.(commentRef := Or(snapshot.commentRef, t.commentRef), headSha := Or(remote.head, t.headSha));
      threads := threads[i := seen];
      if snapshot.resolved {
        if t.status != Resolved {
          var reason := ClassifyResolution(t, remote);
          threads := threads[i := seen.(status := Resolved, reason := reason)];
          events := events + [Event(t.ref, ResolvedEvent, reason)];
          MarkFingerprintResolved(t.fingerprint);
        }
        return;
      }
      if t.status == Resolved {
        threads := threads[i := seen.(status := Open, reason := RemoteReopened)];
        events := events + [Event(t.ref, ReopenedEvent, RemoteReopened)];
        MarkFingerprintReopened(t.fingerprint);
        return;
      }
      if t.status == Stale && t.reason != AnchorChanged {
        threads := threads[i := seen.(status := Open, reason := NoReason)];
      }
    }

    /** One pass over the tracked threads. The rows are not committed. */
    method ReconcileThreadSnapshots(remote: Remote)
      requires Settled()
      modifies this`threads, this`decisions, this`events
      ensures threads == ReconcileThreads(old(threads), remote)
      ensures decisions == ReconcileDecisions(committedDecisions, old(threads), remote)
      ensures events == old(events) + ReconcileLog(old(threads), remote)
    {
      ghost var before := threads;
      for i := 0 to |threads|
        invariant |decisions| == |committedDecisions|
        invariant ReconciledUpTo(threads, before, remote, i)
        invariant decisions == ReconcileDecisions(committedDecisions, before[..i], remote)
        invariant events == old(events) + ReconcileLog(before[..i], remote)
      {
        ReconcilePush(before, committedDecisions, remote, i);
        ReconciledStep(threads, before, remote, i);
        ReconcileOne(i, remote);
      }
      ReconciledAll(threads, before, remote);
      assert before[..|before|] == before;
    }

    method ExecuteDetect(remote: Remote, found: seq<Decision>)
      requires Settled()
      modifies this
      ensures Settled() && Now() == DetectPhase(old(Now()), remote, found)
    {
      ReconcileThreadSnapshots(remote);
      decisions := decisions + found;
      Commit();
    }

    /** Auto-resolves one thread that is open in the committed rows, or notes that it cannot. */
    method CloseThread(i: nat, sync: Sync)
      requires i < |threads| && |decisions| == |committedDecisions|
      modifies this`threads, this`decisions, this`events
      ensures threads == old(threads)[i := if old(threads)[i].ref in sync.failing
                then old(threads)[i].(status := Stale, reason := ResolveFailed)
                else old(threads)[i].(status := Resolved, reason := NoLongerEligible, headSha := sync.remote.head)]
      ensures events == old(events) + if old(threads)[i].ref in sync.failing then []
                                      else [Event(old(threads)[i].ref, ResolvedEvent, NoLongerEligible)]
      ensures decisions == if old(threads)[i].ref in sync.failing then old(decisions)
                           else MarkResolved(committedDecisions, old(decisions), old(threads)[i].fingerprint)
    {
      var t := threads[i];
      if t.ref !in sync.failing {
        threads := threads[i := t.(status := Resolved, reason := NoLongerEligible, headSha := sync.remote.head)];
        events := events + [Event(t.ref, ResolvedEvent, NoLongerEligible)];
        MarkFingerprintResolved(t.fingerprint);
      } else {
        threads := threads[i := t.(status := Stale, reason := ResolveFailed)];
      }
    }

    /** One thread of the committed rows. Only those open there are looked at. */
    method SyncOne(i: nat, sync: Sync, current: set<string>)
      requires i < |threads| == |committedThreads| && |decisions| == |committedDecisions|
      requires threads[i] == ReconcileThread(committedThreads[i], sync.remote)
      requires current == CurrentFingerprints(committedDecisions, sync.runId)
      modifies this`threads, this`decisions, this`events
      ensures threads ==
              old(threads)[i := SyncThread(committedThreads[i], old(threads)[i], committedDecisions, sync, current)]
      ensures decisions == SyncMark(committedDecisions, old(decisions), committedThreads[i], sync, current)
      ensures events == old(events) + SyncEvents(committedThreads[i], committedDecisions, sync, current)
    {
      if committedThreads[i].status != Open {
        return;
      }
      var t := threads[i];
      if t.ref in sync.remote.snapshots {
        if sync.remote.snapshots[t.ref].resolved {
          threads := threads[i := t.(status := Resolved)];
          MarkFingerprintResolved(t.fingerprint);
          return;
        }
        threads := threads[i := t.(headSha := sync.remote.head)];
      }
      if t.fingerprint !in current {
        if sync.incremental && !TargetsFiles(t, committedDecisions, sync.files) {
          return;
        }
        CloseThread(i, sync);
      }
    }

    /** The loop over the threads a query finds open. It sees the rows committed before this phase,
        and assigns to the objects reconciling has just changed. */
    method ResolveOrphans(sync: Sync)
      requires |threads| == |committedThreads| && |decisions| == |committedDecisions|
      requires forall i :: 0 <= i < |threads| ==> threads[i] == ReconcileThread(committedThreads[i], sync.remote)
      modifies this`threads, this`decisions, this`events
      ensures threads == SyncThreads(committedThreads, committedDecisions, sync)
      ensures decisions == SyncDecisions(committedDecisions, committedThreads, old(decisions), sync)
      ensures events == old(events) + SyncLog(committedThreads, committedDecisions, sync)
    {
      var current := CurrentFingerprints(committedDecisions, sync.runId);
      ghost var rows := committedThreads;
      for i := 0 to |threads|
        invariant |decisions| == |committedDecisions|
        invariant SyncedUpTo(threads, rows, committedDecisions, sync, current, i)
        invariant decisions == SyncDecisions(committedDecisions, rows[..i], old(decisions), sync)
        invariant events == old(events) + SyncLog(rows[..i], committedDecisions, sync)
      {
        SyncPush(rows, committedDecisions, old(decisions), sync, i);
        SyncedStep(threads, rows, committedDecisions, sync, current, i);
        SyncOne(i, sync, current);
      }
      SyncedAll(threads, rows, committedDecisions, sync, current);
      assert rows[..|rows|] == rows;
    }

    method ExecuteSync(sync: Sync)
      requires Settled()
      modifies this
      ensures Settled() && Now() == SyncPhase(old(Now()), sync)
    {
      ReconcileThreadSnapshots(sync.remote);
      ResolveOrphans(sync);
      Commit();
    }

    /** Posts one selected candidate and updates its thread and decision. */
    method PostCandidate(p: Posting, head: Option<string>)
      requires ValidPosting(Now(), p)
      modifies this`threads, this`decisions
      ensures Now() == PostOne(old(Now()), p, head)
    {
      var d := decisions[p.decision];
      if p.existing.Some? {
        var t := threads[p.existing.value];
        if t.status == Open && t.bodyHash == p.bodyHash && t.reason != RemoteReopened {
          decisions := decisions[p.decision := d.(state := Published)];
          return;
        }
      }
      if p.outcome.NotPosted? {
        var failed := if p.outcome.anchorUnavailable then Suppressed else FailedPublication;
        decisions := decisions[p.decision := d.(state := failed)];
        return;
      }
      decisions := decisions[p.decision := d.(state := Published)];
      var moved := false;
      if p.existing.Some? && threads[p.existing.value].anchor != d.anchor {
        var t := threads[p.existing.value];
        threads := threads[p.existing.value := t.(status := Stale, reason := AnchorChanged)];
        moved := true;
      }
      if p.existing.None? || moved {
        threads := threads + [Thread(p.outcome.threadRef, p.outcome.commentRef, d.fingerprint, d.anchor, p.bodyHash,
                                     Some(d.id), Open, NoReason, head, 0)];
      } else {
        var t := threads[p.existing.value];
        threads := threads[p.existing.value := t.(decisionId := Some(d.id), bodyHash := p.bodyHash,
                                                  commentRef := p.outcome.commentRef, status := Open,
                                                  reason := NoReason, headSha := head)];
      }
    }

    /** Posts the selected candidates; the references of the new threads must be new. */
    method ExecutePublish(settled: map<nat, DecisionState>, postings: seq<Posting>, head: Option<string>)
      returns (ok: bool)
      requires Settled() && ValidPostings(Now(), postings)
      modifies this
      ensures Settled() && Now() == PublishPhase(old(Now()), settled, postings, head)
    {
      decisions := Settle(decisions, settled);
      ghost var start := Now();
      for i := 0 to |postings|
        invariant Now() == PostAll(start, postings[..i], head)
        invariant events == old(events)
        invariant committedThreads == old(threads) && committedDecisions == old(decisions)
      {
        assert postings[..i + 1][..i] == postings[..i] && postings[..i + 1][i] == postings[i];
        PostCandidate(postings[i], head);
      }
      assert postings[..|postings|] == postings;
      ok := DistinctRefs(threads);
      if ok {
        Commit();
      } else {
        threads, decisions := committedThreads, committedDecisions;
      }
    }
  }

  /** The uniqueness constraint on thread references. */
  method DistinctRefs(threads: seq<Thread>) returns (ok: bool)
    ensures ok <==> UniqueRefs(threads)
  {
    for i := 0 to |threads|
      invariant UniqueRefs(threads[..i])
    {
      for j := 0 to i
        invariant forall k :: 0 <= k < j ==> threads[k].ref != threads[i].ref
      {
        if threads[j].ref == threads[i].ref {
          return false;
        }
      }
    }
    return true;
  }
}
