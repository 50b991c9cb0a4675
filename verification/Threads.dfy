/** The life of a review thread: what each phase of a run does to the thread rows, the decision
    rows and the append-only event log. Sessions do not flush before a query, so a query sees the
    rows as they were committed while the objects it returns carry what was assigned since. */
module Threads {
  import opened Text
  import opened Records

  datatype EventKind = ResolvedEvent | ReopenedEvent

  datatype Event = Event(ref: string, kind: EventKind, reason: Reason)

  /** The committed rows and the log. */
  datatype World = World(threads: seq<Thread>, decisions: seq<Decision>, events: seq<Event>)

  // ----- what the remote side reports --------------------------------------------------------

  datatype Snapshot = Snapshot(resolved: bool, commentRef: Option<string>)

  /** The remote threads by reference, the head now observed, and the threads whose anchor the diff
      since their last seen head touches. */
  datatype Remote = Remote(snapshots: map<string, Snapshot>, head: Option<string>, touched: set<string>)

  /** Why a thread was resolved remotely: fixed, if its anchor changed since it was last seen. */
  function ClassifyResolution(t: Thread, remote: Remote): Reason
  {
    if t.headSha.None? || remote.head.None? || t.headSha == remote.head then RemoteManualOnly
    else if t.ref in remote.touched then FixedInFollowup
    else RemoteManualOnly
  }

  function Or<T>(a: Option<T>, b: Option<T>): Option<T>
  {
    if a.Some? then a else b
  }

  // ----- reconciling with the snapshots ------------------------------------------------------

  function ReconcileThread(t: Thread, remote: Remote): Thread
  {
    if t.ref !in remote.snapshots then t
    else
      var s := remote.snapshots[t.ref];
      var seen := t.(commentRef := Or(s.commentRef, t.commentRef), headSha := Or(remote.head, t.headSha));
      if s.resolved then
        if t.status != Resolved then seen.(status := Resolved, reason := ClassifyResolution(t, remote)) else seen
      else if t.status == Resolved then seen.(status := Open, reason := RemoteReopened)
      else if t.status == Stale && t.reason != AnchorChanged then seen.(status := Open, reason := NoReason)
      else seen
  }

  /** Reconciling resolves this thread. */
  predicate GetsResolved(t: Thread, remote: Remote)
  {
    t.ref in remote.snapshots && remote.snapshots[t.ref].resolved && t.status != Resolved
  }

  /** Reconciling reopens this thread. */
  predicate GetsReopened(t: Thread, remote: Remote)
  {
    t.ref in remote.snapshots && !remote.snapshots[t.ref].resolved && t.status == Resolved
  }

  function ReconcileEvents(t: Thread, remote: Remote): seq<Event>
  {
    if GetsResolved(t, remote) then [Event(t.ref, ResolvedEvent, ClassifyResolution(t, remote))]
    else if GetsReopened(t, remote) then [Event(t.ref, ReopenedEvent, RemoteReopened)]
    else []
  }

  predicate Active(d: Decision)
  {
    d.state == Eligible || d.state == Published || d.state == FailedPublication
  }

  /** Every active decision of the fingerprint, as committed, becomes resolved. */
  function MarkResolved(committed: seq<Decision>, current: seq<Decision>, fingerprint: string): (r: seq<Decision>)
    requires |committed| == |current|
    ensures |r| == |committed|
  {
    seq(|current|, i requires 0 <= i < |current| =>
      if committed[i].fingerprint == fingerprint && Active(committed[i]) then current[i].(state := ResolvedFinding)
      else current[i])
  }

  predicate Later(a: Decision, b: Decision)
  {
    a.updatedAt > b.updatedAt || (a.updatedAt == b.updatedAt && a.createdAt > b.createdAt)
  }

  /** The resolved decision of the fingerprint updated last, then created last. */
  function LatestResolved(committed: seq<Decision>, fingerprint: string): (r: Option<nat>)
    ensures r.Some? ==> r.value < |committed|
                        && committed[r.value].fingerprint == fingerprint && committed[r.value].state == ResolvedFinding
  {
    if committed == [] then None
    else
      var n := |committed| - 1;
      var best := LatestResolved(committed[..n], fingerprint);
      if committed[n].fingerprint == fingerprint && committed[n].state == ResolvedFinding
         && (best.None? || Later(committed[n], committed[best.value]))
      then Some(n) else best
  }

  predicate SomeActive(committed: seq<Decision>, fingerprint: string)
  {
    exists i :: 0 <= i < |committed| && committed[i].fingerprint == fingerprint && Active(committed[i])
  }

  /** The fingerprint's latest resolved decision is published again, unless one is still active. */
  function MarkReopened(committed: seq<Decision>, current: seq<Decision>, fingerprint: string): (r: seq<Decision>)
    requires |committed| == |current|
    ensures |r| == |committed|
  {
    if SomeActive(committed, fingerprint) then current
    else
      match LatestResolved(committed, fingerprint)
      case None => current
      case Some(i) => current[i := current[i].(state := Published)]
  }

  function ReconcileMark(committed: seq<Decision>, current: seq<Decision>, t: Thread,
                         remote: Remote): (r: seq<Decision>)
    requires |committed| == |current|
    ensures |r| == |committed|
  {
    if GetsResolved(t, remote) then MarkResolved(committed, current, t.fingerprint)
    else if GetsReopened(t, remote) then MarkReopened(committed, current, t.fingerprint)
    else current
  }

  function ReconcileThreads(threads: seq<Thread>, remote: Remote): (r: seq<Thread>)
    ensures |r| == |threads|
  {
    seq(|threads|, i requires 0 <= i < |threads| => ReconcileThread(threads[i], remote))
  }

  function ReconcileLog(threads: seq<Thread>, remote: Remote): seq<Event>
  {
    if threads == [] then []
    else ReconcileLog(threads[..|threads| - 1], remote) + ReconcileEvents(threads[|threads| - 1], remote)
  }

  function ReconcileDecisions(committed: seq<Decision>, threads: seq<Thread>, remote: Remote): (r: seq<Decision>)
    ensures |r| == |committed|
  {
    if threads == [] then committed
    else
      ReconcileMark(committed, ReconcileDecisions(committed, threads[..|threads| - 1], remote),
                    threads[|threads| - 1], remote)
  }

  // ----- detect ------------------------------------------------------------------------------

  /** Reconcile, then store what was found. */
  function DetectPhase(w: World, remote: Remote, found: seq<Decision>): World
  {
    World(ReconcileThreads(w.threads, remote),
          ReconcileDecisions(w.decisions, w.threads, remote) + found,
          w.events + ReconcileLog(w.threads, remote))
  }

  // ----- publish -----------------------------------------------------------------------------

  datatype Outcome =
    | Posted(threadRef: string, commentRef: Option<string>)
    | NotPosted(anchorUnavailable: bool)

  /** One selected candidate: its decision, the thread found for it, and how posting goes. */
  datatype Posting = Posting(decision: nat, existing: Option<nat>, bodyHash: string, outcome: Outcome)

  predicate ValidPosting(w: World, p: Posting)
  {
    p.decision < |w.decisions| && (p.existing.Some? ==> p.existing.value < |w.threads|)
  }

  /** The comment is already there: the thread is open with this very body, and nobody reopened it. */
  predicate AlreadyPosted(w: World, p: Posting)
    requires ValidPosting(w, p)
  {
    && p.existing.Some?
    && var t := w.threads[p.existing.value];
       t.status == Open && t.bodyHash == p.bodyHash && t.reason != RemoteReopened
  }

  function PostOne(w: World, p: Posting, head: Option<string>): (r: World)
    requires ValidPosting(w, p)
    ensures |w.threads| <= |r.threads| && |r.decisions| == |w.decisions|
  {
    var d := w.decisions[p.decision];
    if AlreadyPosted(w, p) then w.(decisions := w.decisions[p.decision := d.(state := Published)])
    else
      match p.outcome
      case NotPosted(anchorUnavailable) =>
        var failed := if anchorUnavailable then Suppressed else FailedPublication;
        w.(decisions := w.decisions[p.decision := d.(state := failed)])
      case Posted(threadRef, commentRef) =>
        var created :=
          Thread(threadRef, commentRef, d.fingerprint, d.anchor, p.bodyHash, Some(d.id), Open, NoReason, head, 0);
        var threads :=
          match p.existing
          case None => w.threads + [created]
          case Some(i) =>
            var t := w.threads[i];
            if t.anchor != d.anchor then w.threads[i := t.(status := Stale, reason := AnchorChanged)] + [created]
            else
              w.threads[i := t.(decisionId := Some(d.id), bodyHash := p.bodyHash, commentRef := commentRef,
                                status := Open, reason := NoReason, headSha := head)];
        w.(threads := threads, decisions := w.decisions[p.decision := d.(state := Published)])
  }

  predicate ValidPostings(w: World, postings: seq<Posting>)
  {
    forall i :: 0 <= i < |postings| ==> ValidPosting(w, postings[i])
  }

  function PostAll(w: World, postings: seq<Posting>, head: Option<string>): (r: World)
    requires ValidPostings(w, postings)
    ensures |w.threads| <= |r.threads| && |r.decisions| == |w.decisions|
  {
    if postings == [] then w
    else PostOne(PostAll(w, postings[..|postings| - 1], head), postings[|postings| - 1], head)
  }

  /** Thread references are unique in the table. */
  ghost predicate UniqueRefs(threads: seq<Thread>)
  {
    forall i, j :: 0 <= i < j < |threads| ==> threads[i].ref != threads[j].ref
  }

  /** Post everything and commit; a clash of thread references fails the commit and leaves the rows
      as they were. Decisions settled without posting are given their states beforehand. */
  ghost function PublishPhase(w: World, settled: map<nat, DecisionState>, postings: seq<Posting>,
                              head: Option<string>): World
    requires ValidPostings(w, postings)
  {
    var w' := PostAll(w.(decisions := Settle(w.decisions, settled)), postings, head);
    if UniqueRefs(w'.threads) then w' else w
  }

  function Settle(decisions: seq<Decision>, settled: map<nat, DecisionState>): (r: seq<Decision>)
    ensures |r| == |decisions|
  {
    seq(|decisions|, i requires 0 <= i < |decisions| =>
      if i in settled then decisions[i].(state := settled[i]) else decisions[i])
  }

  // ----- sync --------------------------------------------------------------------------------

  /** A sync run: its mode, the files it has evidence in, and the threads the remote side will fail
      to resolve. */
  datatype Sync = Sync(remote: Remote, runId: int, incremental: bool, files: set<string>, failing: set<string>)

  /** The fingerprints the run still stands by, read from the committed rows. */
  function CurrentFingerprints(committed: seq<Decision>, runId: int): set<string>
  {
    set i | 0 <= i < |committed| && committed[i].runId == runId
            && (committed[i].state == Eligible || committed[i].state == Published) :: committed[i].fingerprint
  }

  predicate TargetsFiles(t: Thread, decisions: seq<Decision>, files: set<string>)
  {
    && t.decisionId.Some?
    && exists i :: 0 <= i < |decisions| && decisions[i].id == t.decisionId.value && decisions[i].filePath in files
  }

  /** The thread is resolved on the remote side because no current finding stands behind it. */
  predicate GetsAutoResolved(committed: Thread, decisions: seq<Decision>, sync: Sync, current: set<string>)
  {
    && committed.status == Open
    && !(committed.ref in sync.remote.snapshots && sync.remote.snapshots[committed.ref].resolved)
    && committed.fingerprint !in current
    && (sync.incremental ==> TargetsFiles(committed, decisions, sync.files))
  }

  /** What the loop over the open threads does to one of them. Which threads are open is read from
      the committed row; t is the object after reconciling. */
  function SyncThread(committed: Thread, t: Thread, decisions: seq<Decision>, sync: Sync, current: set<string>): Thread
  {
    if committed.status != Open then t
    else if t.ref in sync.remote.snapshots && sync.remote.snapshots[t.ref].resolved then t.(status := Resolved)
    else
      var seen := if t.ref in sync.remote.snapshots then t.(headSha := sync.remote.head) else t;
      if !GetsAutoResolved(committed, decisions, sync, current) then seen
      else if t.ref in sync.failing then seen.(status := Stale, reason := ResolveFailed)
      else seen.(status := Resolved, reason := NoLongerEligible, headSha := sync.remote.head)
  }

  function SyncEvents(committed: Thread, decisions: seq<Decision>, sync: Sync, current: set<string>): seq<Event>
  {
    if GetsAutoResolved(committed, decisions, sync, current) && committed.ref !in sync.failing
    then [Event(committed.ref, ResolvedEvent, NoLongerEligible)] else []
  }

  /** The loop marks the fingerprint's decisions when the snapshot is resolved or it resolved the
      thread itself. */
  function SyncMark(committed: seq<Decision>, current: seq<Decision>, thread: Thread, sync: Sync,
                    fingerprints: set<string>): (r: seq<Decision>)
    requires |committed| == |current|
    ensures |r| == |committed|
  {
    if (thread.status == Open && thread.ref in sync.remote.snapshots && sync.remote.snapshots[thread.ref].resolved)
       || SyncEvents(thread, committed, sync, fingerprints) != []
    then MarkResolved(committed, current, thread.fingerprint)
    else current
  }

  function SyncThreads(threads: seq<Thread>, decisions: seq<Decision>, sync: Sync): (r: seq<Thread>)
    ensures |r| == |threads|
  {
    var current := CurrentFingerprints(decisions, sync.runId);
    seq(|threads|, i requires 0 <= i < |threads| =>
      SyncThread(threads[i], ReconcileThread(threads[i], sync.remote), decisions, sync, current))
  }

  function SyncLog(threads: seq<Thread>, decisions: seq<Decision>, sync: Sync): seq<Event>
  {
    if threads == [] then []
    else
      SyncLog(threads[..|threads| - 1], decisions, sync)
      + SyncEvents(threads[|threads| - 1], decisions, sync, CurrentFingerprints(decisions, sync.runId))
  }

  function SyncDecisions(committed: seq<Decision>, threads: seq<Thread>, current: seq<Decision>,
                         sync: Sync): (r: seq<Decision>)
    requires |committed| == |current|
    ensures |r| == |committed|
  {
    if threads == [] then current
    else
      SyncMark(committed, SyncDecisions(committed, threads[..|threads| - 1], current, sync),
               threads[|threads| - 1], sync, CurrentFingerprints(committed, sync.runId))
  }

  function SyncPhase(w: World, sync: Sync): World
  {
    World(SyncThreads(w.threads, w.decisions, sync),
          SyncDecisions(w.decisions, w.threads, ReconcileDecisions(w.decisions, w.threads, sync.remote), sync),
          w.events + ReconcileLog(w.threads, sync.remote) + SyncLog(w.threads, w.decisions, sync))
  }
}
