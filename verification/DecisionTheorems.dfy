/** What reconciling does to the finding decisions, said of one decision at a time: the passes over the
    thread rows, each of which rewrites many decisions, come to the same in any order. */
module DecisionTheorems {
  import opened Text
  import opened Records
  import opened Sorting
  import opened Threads
  import opened ThreadTheorems

  /** The remote side has resolved some thread of the fingerprint that is not resolved here. */
  ghost predicate SomeResolved(threads: seq<Thread>, remote: Remote, f: string)
  {
    exists t :: t in threads && t.fingerprint == f && t.status != Resolved && ResolvedThere(t, remote)
  }

  /** Some thread of the fingerprint that is resolved here is unresolved there. */
  ghost predicate SomeReopened(threads: seq<Thread>, remote: Remote, f: string)
  {
    exists t :: t in threads && t.fingerprint == f && t.status == Resolved && t.ref in remote.snapshots
                && !ResolvedThere(t, remote)
  }

  /** Neither suppressed nor resolved. */
  predicate Pending(d: Decision)
  {
    d.state != Suppressed && d.state != ResolvedFinding
  }

  ghost predicate SomePending(committed: seq<Decision>, f: string)
  {
    exists k :: 0 <= k < |committed| && committed[k].fingerprint == f && Pending(committed[k])
  }

  predicate ResolvedFor(d: Decision, f: string)
  {
    d.fingerprint == f && d.state == ResolvedFinding
  }

  /** Updated last, created last of those, and first in the table of those. */
  predicate OutlastsBoth(a: Decision, i: nat, b: Decision, j: nat)
  {
    || a.updatedAt > b.updatedAt
    || (a.updatedAt == b.updatedAt && (a.createdAt > b.createdAt || (a.createdAt == b.createdAt && i <= j)))
  }

  /** Decision i is the one of its finding that was resolved last. */
  ghost predicate ResolvedLast(committed: seq<Decision>, i: nat)
  {
    && i < |committed| && committed[i].state == ResolvedFinding
    && forall j: nat :: j < |committed| && ResolvedFor(committed[j], committed[i].fingerprint) ==>
         OutlastsBoth(committed[i], i, committed[j], j)
  }

  /** A decision that is pending is resolved if a thread of its finding is. A resolved one is published again
      if a thread of its finding was reopened, no decision of the finding is pending, and it is the one
      resolved last. Every other decision stays. */
  ghost function Settled(committed: seq<Decision>, threads: seq<Thread>, remote: Remote, i: nat): DecisionState
    requires i < |committed|
  {
    var d := committed[i];
    if Pending(d) && SomeResolved(threads, remote, d.fingerprint) then ResolvedFinding
    else if && !SomePending(committed, d.fingerprint) && ResolvedLast(committed, i)
            && SomeReopened(threads, remote, d.fingerprint) then Published
    else d.state
  }

  lemma SomeActiveIsSomePending(committed: seq<Decision>, f: string)
    ensures SomeActive(committed, f) <==> SomePending(committed, f)
  {
  }

  /** The decision that is published again is the one resolved last: no other resolved decision of the
      finding was updated later, or created later at the same update time. */
  lemma {:induction false} LatestResolvedIsLatest(committed: seq<Decision>, f: string)
    ensures var latest := LatestResolved(committed, f);
            forall j: nat :: j < |committed| && ResolvedFor(committed[j], f) ==>
              latest.Some? && OutlastsBoth(committed[latest.value], latest.value, committed[j], j)
  {
    if committed != [] {
      var front := committed[..|committed| - 1];
      LatestResolvedIsLatest(front, f);
      assert forall j :: 0 <= j < |front| ==> front[j] == committed[j];
    }
  }

  lemma {:induction false} LatestExactlyWhen(committed: seq<Decision>, i: nat)
    requires i < |committed|
    ensures LatestResolved(committed, committed[i].fingerprint) == Some(i) <==> ResolvedLast(committed, i)
  {
    LatestResolvedIsLatest(committed, committed[i].fingerprint);
  }

  lemma {:induction false} SomePush(threads: seq<Thread>, t: Thread, remote: Remote, f: string)
    ensures SomeResolved(threads + [t], remote, f) <==>
            SomeResolved(threads, remote, f)
            || (t.fingerprint == f && t.status != Resolved && ResolvedThere(t, remote))
    ensures SomeReopened(threads + [t], remote, f) <==>
            SomeReopened(threads, remote, f)
            || (t.fingerprint == f && t.status == Resolved && t.ref in remote.snapshots && !ResolvedThere(t, remote))
  {
    assert t in threads + [t];
    assert forall u :: u in threads ==> u in threads + [t];
  }

  /** What one thread row makes of a decision in state before. */
  ghost function Moved(committed: seq<Decision>, t: Thread, remote: Remote, i: nat,
                       before: DecisionState): DecisionState
    requires i < |committed|
  {
    var d := committed[i];
    if t.fingerprint != d.fingerprint then before
    else if t.status != Resolved && ResolvedThere(t, remote) && Pending(d) then ResolvedFinding
    else if && t.status == Resolved && t.ref in remote.snapshots && !ResolvedThere(t, remote)
            && !SomePending(committed, d.fingerprint) && ResolvedLast(committed, i) then Published
    else before
  }

  lemma {:induction false} MarkMoves(committed: seq<Decision>, current: seq<Decision>, t: Thread, remote: Remote,
                                     i: nat)
    requires i < |committed| == |current|
    ensures ReconcileMark(committed, current, t, remote)[i] ==
            current[i].(state := Moved(committed, t, remote, i, current[i].state))
  {
    SomeActiveIsSomePending(committed, t.fingerprint);
    LatestExactlyWhen(committed, i);
  }

  lemma {:induction false} SettledPush(committed: seq<Decision>, front: seq<Thread>, t: Thread, remote: Remote, i: nat)
    requires i < |committed|
    ensures Settled(committed, front + [t], remote, i) ==
            Moved(committed, t, remote, i, Settled(committed, front, remote, i))
  {
    SomePush(front, t, remote, committed[i].fingerprint);
    assert Pending(committed[i]) ==> SomePending(committed, committed[i].fingerprint);
  }

  /** The fold over the thread rows has this closed form. */
  lemma {:induction false} ReconcileSettles(committed: seq<Decision>, threads: seq<Thread>, remote: Remote, i: nat)
    requires i < |committed|
    ensures ReconcileDecisions(committed, threads, remote)[i] ==
            committed[i].(state := Settled(committed, threads, remote, i))
  {
    if threads != [] {
      var (front, t) := (threads[..|threads| - 1], threads[|threads| - 1]);
      ReconcileSettles(committed, front, remote, i);
      assert threads == front + [t];
      MarkMoves(committed, ReconcileDecisions(committed, front, remote), t, remote, i);
      SettledPush(committed, front, t, remote, i);
    }
  }

  /** The order of the thread rows does not matter to the decisions. */
  lemma {:induction false} ReconcileIgnoresRowOrder(committed: seq<Decision>, threads: seq<Thread>,
                                                    others: seq<Thread>, remote: Remote)
    requires multiset(threads) == multiset(others)
    ensures ReconcileDecisions(committed, threads, remote) == ReconcileDecisions(committed, others, remote)
  {
    SameElements(threads, others);
    forall i: nat | i < |committed|
      ensures ReconcileDecisions(committed, threads, remote)[i] == ReconcileDecisions(committed, others, remote)[i]
    {
      ReconcileSettles(committed, threads, remote, i);
      ReconcileSettles(committed, others, remote, i);
    }
  }

  /** A finding is either reopened or resolved by a reconcile, never some of its decisions the one and
      some the other. */
  lemma {:induction false} OneWayPerFinding(committed: seq<Decision>, threads: seq<Thread>, remote: Remote, i: nat,
                                            j: nat)
    requires i < |committed| && j < |committed| && committed[i].fingerprint == committed[j].fingerprint
    requires committed[i].state != Settled(committed, threads, remote, i) == ResolvedFinding
    ensures committed[j].state != Settled(committed, threads, remote, j) ==>
              Settled(committed, threads, remote, j) == ResolvedFinding
  {
    assert SomePending(committed, committed[i].fingerprint);
  }

  // ----- the marks of a sync -----------------------------------------------------------------

  /** The sync loop marks the decisions of this thread's finding. */
  ghost predicate Marks(t: Thread, committed: seq<Decision>, sync: Sync)
  {
    (t.status == Open && ResolvedThere(t, sync.remote)) || (Orphaned(t, committed, sync) && t.ref !in sync.failing)
  }

  ghost predicate SomeMarks(threads: seq<Thread>, committed: seq<Decision>, sync: Sync, f: string)
  {
    exists t :: t in threads && t.fingerprint == f && Marks(t, committed, sync)
  }

  lemma {:induction false} SomeMarksPush(threads: seq<Thread>, t: Thread, committed: seq<Decision>, sync: Sync,
                                         f: string)
    ensures SomeMarks(threads + [t], committed, sync, f) <==>
            SomeMarks(threads, committed, sync, f) || (t.fingerprint == f && Marks(t, committed, sync))
  {
    assert t in threads + [t];
    assert forall u :: u in threads ==> u in threads + [t];
  }

  lemma {:induction false} SyncMarkMoves(committed: seq<Decision>, current: seq<Decision>, t: Thread, sync: Sync,
                                         i: nat)
    requires i < |committed| == |current|
    ensures SyncMark(committed, current, t, sync, CurrentFingerprints(committed, sync.runId))[i] ==
            if Pending(committed[i]) && t.fingerprint == committed[i].fingerprint && Marks(t, committed, sync)
            then current[i].(state := ResolvedFinding) else current[i]
  {
    OrphanedExactlyWhen(t, committed, sync);
  }

  /** The sync loop: what it is given, and resolved if it marks the finding. */
  lemma {:induction false} SyncSettles(committed: seq<Decision>, threads: seq<Thread>, current: seq<Decision>,
                                       sync: Sync, i: nat)
    requires i < |committed| == |current|
    ensures SyncDecisions(committed, threads, current, sync)[i] ==
            if Pending(committed[i]) && SomeMarks(threads, committed, sync, committed[i].fingerprint)
            then current[i].(state := ResolvedFinding) else current[i]
  {
    if threads != [] {
      var (front, t) := (threads[..|threads| - 1], threads[|threads| - 1]);
      SyncSettles(committed, front, current, sync, i);
      SyncMarkMoves(committed, SyncDecisions(committed, front, current, sync), t, sync, i);
      SomeMarksPush(front, t, committed, sync, committed[i].fingerprint);
      assert threads == front + [t];
    }
  }

  /** A whole sync phase, in the rows it starts from: a pending decision is resolved if the loop marks its
      finding; else it is as reconciling settles it. Nothing but its state changes. */
  lemma {:induction false} SyncPhaseSettles(w: World, sync: Sync, i: nat)
    requires i < |w.decisions|
    ensures var d := w.decisions[i];
            SyncPhase(w, sync).decisions[i] ==
            d.(state := if Pending(d) && SomeMarks(w.threads, w.decisions, sync, d.fingerprint) then ResolvedFinding
                        else Settled(w.decisions, w.threads, sync.remote, i))
  {
    SyncSettles(w.decisions, w.threads, ReconcileDecisions(w.decisions, w.threads, sync.remote), sync, i);
    ReconcileSettles(w.decisions, w.threads, sync.remote, i);
  }

  ghost predicate NoneResolvedRemotely(threads: seq<Thread>, f: string, remote: Remote)
  {
    forall t :: t in threads && t.fingerprint == f ==> !ResolvedThere(t, remote)
  }

  /** Sync never resolves a decision the run stands by, unless the remote side resolved its thread. */
  lemma {:induction false} SyncKeepsCurrentDecisions(w: World, sync: Sync, i: nat)
    requires i < |w.decisions| && Pending(w.decisions[i])
    requires StoodBy(w.decisions, sync.runId, w.decisions[i].fingerprint)
    requires NoneResolvedRemotely(w.threads, w.decisions[i].fingerprint, sync.remote)
    ensures SyncPhase(w, sync).decisions[i] == w.decisions[i]
  {
    SyncPhaseSettles(w, sync, i);
    assert SomePending(w.decisions, w.decisions[i].fingerprint);
  }
}
