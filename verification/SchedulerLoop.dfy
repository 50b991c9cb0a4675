/** The batch as the runner computes it: candidates bucketed by priority group and file, queues
    popped round by round, counters and a seen-set shared by all groups. It is the greedy batch. */
module SchedulerLoop {
  import opened Text
  import opened Records
  import opened Sorting
  import opened Scheduler

  /** The picks so far with the counters that shadow them. */
  datatype Ledger = Ledger(
    selected: seq<Candidate>,
    seen: set<(string, string)>,
    ruleCounts: map<string, int>,
    fileCounts: map<string, int>)

  function Get(counts: map<string, int>, key: string): int
  {
    if key in counts then counts[key] else 0
  }

  /** The counters say what the picks say. */
  ghost predicate Agrees(l: Ledger)
  {
    && (forall f: string, r: string :: (f, r) in l.seen <==> Count(l.selected, OnPair(f, r)) >= 1)
    && (forall f: string :: Get(l.fileCounts, f) == Count(l.selected, OnFile(f)))
    && (forall r: string :: Get(l.ruleCounts, r) == Count(l.selected, OnRule(r)))
  }

  function Record(l: Ledger, c: Candidate): Ledger
  {
    var (f, r) := (c.decision.filePath, c.decision.ruleNo);
    Ledger(l.selected + [c], l.seen + {(f, r)},
           l.ruleCounts[r := Get(l.ruleCounts, r) + 1],
           l.fileCounts[f := Get(l.fileCounts, f) + 1])
  }

  lemma {:induction false} CounterAgrees(l: Ledger, c: Candidate, f: string, r: string)
    requires Agrees(l)
    ensures var l' := Record(l, c);
            && ((f, r) in l'.seen <==> Count(l'.selected, OnPair(f, r)) >= 1)
            && Get(l'.fileCounts, f) == Count(l'.selected, OnFile(f))
            && Get(l'.ruleCounts, r) == Count(l'.selected, OnRule(r))
  {
    CountPush(l.selected, c, OnPair(f, r));
    CountPush(l.selected, c, OnFile(f));
    CountPush(l.selected, c, OnRule(r));
  }

  lemma {:induction false} RecordAgrees(l: Ledger, c: Candidate)
    requires Agrees(l)
    ensures Agrees(Record(l, c))
  {
    forall f: string, r: string
      ensures var l' := Record(l, c);
              && ((f, r) in l'.seen <==> Count(l'.selected, OnPair(f, r)) >= 1)
              && Get(l'.fileCounts, f) == Count(l'.selected, OnFile(f))
              && Get(l'.ruleCounts, r) == Count(l'.selected, OnRule(r))
    {
      CounterAgrees(l, c, f, r);
    }
  }

  // ----- buckets -----------------------------------------------------------------------------

  /** A file's candidates within a group, in sort order. */
  function Bucket(ordered: seq<Candidate>, group: int, file: string): seq<Candidate>
  {
    Filter(ordered, OnGroupFile(group, file))
  }

  /** The files of a group, each at its first appearance. */
  ghost predicate FilesInSeatOrder(ordered: seq<Candidate>, group: int, files: seq<string>)
  {
    && (forall a, b :: 0 <= a < b < |files| ==> Seat(ordered, group, files[a]) < Seat(ordered, group, files[b]))
    && (forall a :: 0 <= a < |files| ==> Seat(ordered, group, files[a]) < |ordered|)
  }

  ghost predicate AllFiles(ordered: seq<Candidate>, group: int, files: seq<string>)
  {
    forall i :: 0 <= i < |ordered| && ordered[i].priorityGroup == group ==> ordered[i].decision.filePath in files
  }

  ghost predicate GroupBucketed(ordered: seq<Candidate>, group: int, files: seq<string>, queues: map<string,
                                seq<Candidate>>)
  {
    && FilesInSeatOrder(ordered, group, files)
    && AllFiles(ordered, group, files)
    && (forall f :: f in files <==> f in queues)
    && (forall f :: f in queues ==> queues[f] == Bucket(ordered, group, f))
  }

  datatype Buckets = Buckets(
    groups: seq<int>,
    queues: map<int, map<string, seq<Candidate>>>,
    fileOrder: map<int, seq<string>>)

  /** The groups are listed once each, and both maps have exactly them. */
  ghost predicate GroupsListed(ordered: seq<Candidate>, b: Buckets)
  {
    && (forall i, j :: 0 <= i < j < |b.groups| ==> b.groups[i] != b.groups[j])
    && (forall i :: 0 <= i < |ordered| ==> ordered[i].priorityGroup in b.groups)
    && (forall g :: g in b.groups <==> g in b.queues)
    && (forall g :: g in b.groups <==> g in b.fileOrder)
  }

  ghost predicate Bucketed(ordered: seq<Candidate>, b: Buckets)
  {
    && GroupsListed(ordered, b)
    && (forall g :: g in b.groups ==> GroupBucketed(ordered, g, b.fileOrder[g], b.queues[g]))
  }

  lemma {:induction false} SeatPush(ordered: seq<Candidate>, x: Candidate, group: int, file: string)
    ensures Seat(ordered + [x], group, file) ==
            if Seat(ordered, group, file) < |ordered| then Seat(ordered, group, file)
            else if OnGroupFile(group, file)(x) then |ordered| else |ordered| + 1
  {
    assert (ordered + [x])[..|ordered|] == ordered;
  }

  lemma {:induction false} BucketPush(ordered: seq<Candidate>, x: Candidate, group: int, file: string)
    ensures Bucket(ordered + [x], group, file) ==
            Bucket(ordered, group, file) + if OnGroupFile(group, file)(x) then [x] else []
  {
    FilterAppend(ordered, [x], OnGroupFile(group, file));
  }

  /** What the bucketing loop does with one candidate. */
  function Enqueue(b: Buckets, c: Candidate): Buckets
  {
    var (g, f) := (c.priorityGroup, c.decision.filePath);
    var bucket := if g in b.queues then b.queues[g] else map[];
    var files := if g in b.fileOrder then b.fileOrder[g] else [];
    Buckets(if g in b.groups then b.groups else b.groups + [g],
            b.queues[g := bucket[f := (if f in bucket then bucket[f] else []) + [c]]],
            b.fileOrder[g := if f in bucket then files else files + [f]])
  }

  lemma {:induction false} PushOtherGroup(ordered: seq<Candidate>, group: int, files: seq<string>, queues: map<string,
                                          seq<Candidate>>, x: Candidate)
    requires GroupBucketed(ordered, group, files, queues) && x.priorityGroup != group
    ensures GroupBucketed(ordered + [x], group, files, queues)
  {
    forall f: string
      ensures Bucket(ordered + [x], group, f) == Bucket(ordered, group, f)
      ensures Seat(ordered, group, f) < |ordered| ==> Seat(ordered + [x], group, f) == Seat(ordered, group, f)
    {
      SeatPush(ordered, x, group, f);
      BucketPush(ordered, x, group, f);
    }
  }

  lemma {:induction false} MissingFile(ordered: seq<Candidate>, group: int, files: seq<string>, f: string)
    requires AllFiles(ordered, group, files) && f !in files
    ensures Seat(ordered, group, f) == |ordered| && Bucket(ordered, group, f) == []
  {
    var bucket := Bucket(ordered, group, f);
    assert bucket == [] || bucket[0] in bucket;
    SeatIsFirst(ordered, group, f);
    FilterElements(ordered, OnGroupFile(group, f));
  }

  /** The seats of these files come before position n. */
  ghost predicate SeatedBefore(ordered: seq<Candidate>, group: int, files: seq<string>, n: nat)
  {
    forall a :: 0 <= a < |files| ==> Seat(ordered, group, files[a]) < n
  }

  lemma {:induction false} SeatsStay(ordered: seq<Candidate>, files: seq<string>, x: Candidate, group: int)
    requires FilesInSeatOrder(ordered, group, files)
    ensures FilesInSeatOrder(ordered + [x], group, files) && SeatedBefore(ordered + [x], group, files, |ordered|)
  {
    forall a | 0 <= a < |files|
      ensures Seat(ordered + [x], group, files[a]) == Seat(ordered, group, files[a])
    {
      SeatPush(ordered, x, group, files[a]);
    }
  }

  lemma SeatsAppend(ordered: seq<Candidate>, files: seq<string>, group: int, file: string, n: nat)
    requires FilesInSeatOrder(ordered, group, files) && SeatedBefore(ordered, group, files, n)
    requires Seat(ordered, group, file) == n < |ordered|
    ensures FilesInSeatOrder(ordered, group, files + [file])
  {
  }

  lemma {:induction false} PushSeats(ordered: seq<Candidate>, files: seq<string>, x: Candidate)
    requires FilesInSeatOrder(ordered, x.priorityGroup, files)
    requires AllFiles(ordered, x.priorityGroup, files)
    ensures var f := x.decision.filePath;
            FilesInSeatOrder(ordered + [x], x.priorityGroup, if f in files then files else files + [f])
  {
    var (g, file) := (x.priorityGroup, x.decision.filePath);
    SeatsStay(ordered, files, x, g);
    if file !in files {
      MissingFile(ordered, g, files, file);
      SeatPush(ordered, x, g, file);
      SeatsAppend(ordered + [x], files, g, file, |ordered|);
    }
  }

  lemma {:induction false} PushQueues(ordered: seq<Candidate>, files: seq<string>, queues: map<string,
                                      seq<Candidate>>, x: Candidate,
                   queues': map<string, seq<Candidate>>)
    requires AllFiles(ordered, x.priorityGroup, files) && (forall f :: f in files <==> f in queues)
    requires forall f :: f in queues ==> queues[f] == Bucket(ordered, x.priorityGroup, f)
    requires var f := x.decision.filePath;
             queues' == queues[f := (if f in queues then queues[f] else []) + [x]]
    ensures forall f :: f in queues' ==> queues'[f] == Bucket(ordered + [x], x.priorityGroup, f)
  {
    var (g, file) := (x.priorityGroup, x.decision.filePath);
    if file !in queues {
      MissingFile(ordered, g, files, file);
    }
    forall f | f in queues'
      ensures queues'[f] == Bucket(ordered + [x], g, f)
    {
      BucketPush(ordered, x, g, f);
    }
  }

  lemma {:induction false} PushFiles(ordered: seq<Candidate>, files: seq<string>, queues: map<string, seq<Candidate>>,
                                     x: Candidate,
                  files': seq<string>, queues': map<string, seq<Candidate>>)
    requires AllFiles(ordered, x.priorityGroup, files) && (forall f :: f in files <==> f in queues)
    requires var f := x.decision.filePath;
             files' == (if f in files then files else files + [f]) && queues'.Keys == queues.Keys + {f}
    ensures AllFiles(ordered + [x], x.priorityGroup, files') && (forall f :: f in files' <==> f in queues')
  {
    assert forall f :: f in files' <==> f in files || f == x.decision.filePath;
    assert forall f :: f in queues' <==> f in queues'.Keys;
  }

  lemma {:induction false} PushSameGroup(ordered: seq<Candidate>, files: seq<string>, queues: map<string,
                                         seq<Candidate>>, x: Candidate,
                      files': seq<string>, queues': map<string, seq<Candidate>>)
    requires GroupBucketed(ordered, x.priorityGroup, files, queues)
    requires var f := x.decision.filePath;
             && files' == (if f in files then files else files + [f])
             && queues' == queues[f := (if f in queues then queues[f] else []) + [x]]
    ensures GroupBucketed(ordered + [x], x.priorityGroup, files', queues')
  {
    PushSeats(ordered, files, x);
    PushQueues(ordered, files, queues, x, queues');
    PushFiles(ordered, files, queues, x, files', queues');
  }

  lemma NoFiles(ordered: seq<Candidate>, group: int)
    requires forall i :: 0 <= i < |ordered| ==> ordered[i].priorityGroup != group
    ensures GroupBucketed(ordered, group, [], map[])
  {
  }

  lemma {:induction false} EnqueueGroup(seen: seq<Candidate>, b: Buckets, x: Candidate, g: int)
    requires Bucketed(seen, b) && (g in b.groups || g == x.priorityGroup)
    ensures var b' := Enqueue(b, x); GroupBucketed(seen + [x], g, b'.fileOrder[g], b'.queues[g])
  {
    var b' := Enqueue(b, x);
    if g != x.priorityGroup {
      PushOtherGroup(seen, g, b.fileOrder[g], b.queues[g], x);
    } else if g in b.groups {
      PushSameGroup(seen, b.fileOrder[g], b.queues[g], x, b'.fileOrder[g], b'.queues[g]);
    } else {
      NoFiles(seen, g);
      PushSameGroup(seen, [], map[], x, b'.fileOrder[g], b'.queues[g]);
    }
  }

  lemma EnqueueGroups(seen: seq<Candidate>, b: Buckets, x: Candidate)
    requires GroupsListed(seen, b)
    ensures GroupsListed(seen + [x], Enqueue(b, x))
  {
  }

  lemma {:induction false} EnqueueBuckets(seen: seq<Candidate>, b: Buckets, x: Candidate)
    requires Bucketed(seen, b)
    ensures Bucketed(seen + [x], Enqueue(b, x))
  {
    EnqueueGroups(seen, b, x);
    var b' := Enqueue(b, x);
    forall g | g in b'.groups
      ensures GroupBucketed(seen + [x], g, b'.fileOrder[g], b'.queues[g])
    {
      EnqueueGroup(seen, b, x, g);
    }
  }

  method FillBuckets(ordered: seq<Candidate>) returns (b: Buckets)
    ensures Bucketed(ordered, b)
  {
    b := Buckets([], map[], map[]);
    for i := 0 to |ordered|
      invariant Bucketed(ordered[..i], b)
    {
      assert ordered[..i + 1] == ordered[..i] + [ordered[i]];
      EnqueueBuckets(ordered[..i], b, ordered[i]);
      b := Enqueue(b, ordered[i]);
    }
    assert ordered[..|ordered|] == ordered;
  }

  // ----- one turn ----------------------------------------------------------------------------

  ghost predicate AllBlocked(picks: seq<Candidate>, xs: seq<Candidate>, caps: Caps)
  {
    forall c :: c in xs ==> Blocked(picks, c, caps)
  }

  lemma LedgerDecides(l: Ledger, c: Candidate, caps: Caps)
    requires Agrees(l)
    ensures Blocked(l.selected, c, caps) <==>
            || (c.decision.filePath, c.decision.ruleNo) in l.seen
            || Get(l.fileCounts, c.decision.filePath) >= caps.file
            || Get(l.ruleCounts, c.decision.ruleNo) >= caps.rule
  {
  }

  lemma FullFileBlocks(picks: seq<Candidate>, queue: seq<Candidate>, file: string, caps: Caps)
    requires Count(picks, OnFile(file)) >= caps.file
    requires forall c :: c in queue ==> c.decision.filePath == file
    ensures AllBlocked(picks, queue, caps)
  {
  }

  /** Pops a file's queue until a candidate can be taken; a full file empties its queue. The first
      k candidates of the queue cannot be taken, and candidate k, if there is one, is. */
  method TakeTurn(queue: seq<Candidate>, ledger: Ledger, caps: Caps, ghost file: string)
    returns (rest: seq<Candidate>, ledger': Ledger, progressed: bool, ghost k: nat)
    requires Agrees(ledger)
    requires forall c :: c in queue ==> c.decision.filePath == file
    ensures k <= |queue| && AllBlocked(ledger.selected, queue[..k], caps)
    ensures progressed <==> k < |queue|
    ensures !progressed ==> rest == [] && ledger' == ledger
    ensures progressed ==> rest == queue[k + 1..] && !Blocked(ledger.selected, queue[k], caps)
    ensures progressed ==> ledger' == Record(ledger, queue[k])
  {
    rest, ledger', progressed, k := queue, ledger, false, 0;
    while rest != []
      invariant k <= |queue| && rest == queue[k..]
      invariant AllBlocked(ledger.selected, queue[..k], caps)
      decreases |rest|
    {
      var c := rest[0];
      LedgerDecides(ledger, c, caps);
      assert c == queue[k] && c in queue;
      assert queue[..k + 1] == queue[..k] + [c];
      rest := rest[1..];
      if (c.decision.filePath, c.decision.ruleNo) in ledger.seen {
        k := k + 1;
        continue;
      }
      if Get(ledger.fileCounts, c.decision.filePath) >= caps.file {
        FullFileBlocks(ledger.selected, queue, file, caps);
        rest, k := [], |queue|;
        break;
      }
      if Get(ledger.ruleCounts, c.decision.ruleNo) >= caps.rule {
        k := k + 1;
        continue;
      }
      ledger', progressed := Record(ledger, c), true;
      return;
    }
  }

  // ----- one round ---------------------------------------------------------------------------

  /** A queue is what is left of its bucket, and what was popped is blocked. */
  ghost predicate QueueOk(bucket: seq<Candidate>, queue: seq<Candidate>, picks: seq<Candidate>, caps: Caps)
  {
    && |queue| <= |bucket|
    && queue == bucket[|bucket| - |queue|..]
    && AllBlocked(picks, bucket[..|bucket| - |queue|], caps)
  }

  /** Those who have had their turn sit before those who wait. */
  ghost predicate InSeatOrder(ordered: seq<Candidate>, group: int, nxt: seq<string>, cur: seq<string>)
  {
    && FilesInSeatOrder(ordered, group, nxt)
    && FilesInSeatOrder(ordered, group, cur)
    && (forall a, b :: a in nxt && b in cur ==> Seat(ordered, group, a) < Seat(ordered, group, b))
  }

  ghost predicate QueuesOk(ordered: seq<Candidate>, group: int, queues: map<string, seq<Candidate>>,
                           picks: seq<Candidate>, caps: Caps)
  {
    forall f :: f in queues ==> QueueOk(Bucket(ordered, group, f), queues[f], picks, caps)
  }

  /** These files have had so many picks in this group. */
  ghost predicate InRound(group: int, files: seq<string>, picks: seq<Candidate>, k: nat)
  {
    forall f :: f in files ==> Count(picks, OnGroupFile(group, f)) == k
  }

  ghost predicate OthersBlocked(ordered: seq<Candidate>, group: int, queues: map<string, seq<Candidate>>,
                                nxt: seq<string>, cur: seq<string>, picks: seq<Candidate>, caps: Caps)
  {
    forall f :: f in queues && f !in cur && f !in nxt ==> AllBlocked(picks, Bucket(ordered, group, f), caps)
  }

  ghost predicate FilesKnown(ordered: seq<Candidate>, group: int, queues: map<string, seq<Candidate>>,
                             nxt: seq<string>, cur: seq<string>)
  {
    && (forall i :: 0 <= i < |ordered| && ordered[i].priorityGroup == group ==> ordered[i].decision.filePath in queues)
    && (forall f :: f in cur ==> f in queues)
    && (forall f :: f in nxt ==> f in queues)
  }

  /** In round k of a group: the files of cur still wait for their turn, those of nxt have had it
      and may have another, and every other file has nothing open. */
  ghost predicate MidRound(ordered: seq<Candidate>, group: int, queues: map<string, seq<Candidate>>,
                           nxt: seq<string>, cur: seq<string>, picks: seq<Candidate>, caps: Caps, k: nat)
  {
    && InSeatOrder(ordered, group, nxt, cur)
    && FilesKnown(ordered, group, queues, nxt, cur)
    && QueuesOk(ordered, group, queues, picks, caps)
    && InRound(group, cur, picks, k)
    && InRound(group, nxt, picks, k + 1)
    && OthersBlocked(ordered, group, queues, nxt, cur, picks, caps)
  }

  ghost predicate LowerBlocked(ordered: seq<Candidate>, group: int, picks: seq<Candidate>, caps: Caps)
  {
    forall c :: c in ordered && c.priorityGroup < group ==> Blocked(picks, c, caps)
  }

  /** Where the m-th element that passes a test stands in the whole list. */
  lemma {:induction false} FilterPosition(xs: seq<Candidate>, p: Candidate -> bool, m: nat) returns (i: nat)
    requires m < |Filter(xs, p)|
    ensures i < |xs| && xs[i] == Filter(xs, p)[m]
    ensures Filter(xs[..i], p) == Filter(xs, p)[..m]
  {
    if p(xs[0]) && m == 0 {
      i := 0;
    } else {
      var j := FilterPosition(xs[1..], p, if p(xs[0]) then m - 1 else m);
      i := j + 1;
      assert xs[..i] == [xs[0]] + xs[1..][..j];
      assert xs[..i][1..] == xs[1..][..j];
    }
  }

  lemma {:induction false} FirstOpenOfFile(ordered: seq<Candidate>, group: int, file: string, m: nat,
                                           picks: seq<Candidate>, caps: Caps)
    returns (i: nat)
    requires m < |Bucket(ordered, group, file)|
    requires AllBlocked(picks, Bucket(ordered, group, file)[..m], caps)
    ensures i < |ordered| && ordered[i] == Bucket(ordered, group, file)[m]
    ensures OnGroupFile(group, file)(ordered[i])
    ensures forall j :: 0 <= j < i && OnGroupFile(group, file)(ordered[j]) ==> Blocked(picks, ordered[j], caps)
  {
    var p := OnGroupFile(group, file);
    i := FilterPosition(ordered, p, m);
    FilterElements(ordered, p);
    FilterElements(ordered[..i], p);
    assert ordered[i] in Filter(ordered, p);
    forall j | 0 <= j < i && p(ordered[j])
      ensures Blocked(picks, ordered[j], caps)
    {
      assert ordered[..i][j] in ordered[..i];
    }
  }

  lemma {:induction false} FirstTurnIsNext(ordered: seq<Candidate>, picks: seq<Candidate>, caps: Caps, i: nat)
    requires i < |ordered| && !Blocked(picks, ordered[i], caps)
    requires forall j :: 0 <= j < |ordered| && j != i && !Blocked(picks, ordered[j], caps) ==>
               Before(ordered, picks, i, j)
    ensures Next(ordered, picks, caps, |ordered|) == Some(i)
  {
    var n := Next(ordered, picks, caps, |ordered|).value;
    if n != i {
      assert false;
    }
  }

  /** Within a round the first open candidate of the first waiting file has the next turn. */
  lemma {:induction false} WaitingFileIsNext(ordered: seq<Candidate>, group: int, queues: map<string, seq<Candidate>>,
                                             nxt: seq<string>,
                          cur: seq<string>, picks: seq<Candidate>, caps: Caps, k: nat, m: nat) returns (i: nat)
    requires MidRound(ordered, group, queues, nxt, cur, picks, caps, k) && LowerBlocked(ordered, group, picks, caps)
    requires cur != [] && m < |Bucket(ordered, group, cur[0])|
    requires AllBlocked(picks, Bucket(ordered, group, cur[0])[..m], caps)
    requires !Blocked(picks, Bucket(ordered, group, cur[0])[m], caps)
    ensures Next(ordered, picks, caps, |ordered|) == Some(i)
    ensures i < |ordered| && ordered[i] == Bucket(ordered, group, cur[0])[m]
  {
    var file := cur[0];
    i := FirstOpenOfFile(ordered, group, file, m, picks, caps);
    forall j | 0 <= j < |ordered| && j != i && !Blocked(picks, ordered[j], caps)
      ensures Before(ordered, picks, i, j)
    {
      OpenWaits(ordered, group, queues, nxt, cur, picks, caps, k, j);
    }
    FirstTurnIsNext(ordered, picks, caps, i);
  }

  /** Any other open candidate is of a higher group, has had its turn, sits further on, or is of the
      same file. */
  lemma {:induction false} OpenWaits(ordered: seq<Candidate>, group: int, queues: map<string, seq<Candidate>>,
                                     nxt: seq<string>,
                  cur: seq<string>, picks: seq<Candidate>, caps: Caps, k: nat, j: nat)
    requires MidRound(ordered, group, queues, nxt, cur, picks, caps, k) && LowerBlocked(ordered, group, picks, caps)
    requires cur != [] && j < |ordered| && !Blocked(picks, ordered[j], caps)
    ensures var c := ordered[j];
            || c.priorityGroup > group
            || (c.priorityGroup == group && Round(picks, c) == k + 1)
            || (c.priorityGroup == group && Round(picks, c) == k
                && (c.decision.filePath == cur[0] || Seat(ordered, group, cur[0]) < SeatOf(ordered, j)))
  {
    var c := ordered[j];
    assert c in ordered;
    if c.priorityGroup == group {
      FilterElements(ordered, OnGroupFile(group, c.decision.filePath));
      assert c in Bucket(ordered, group, c.decision.filePath);
      assert c.decision.filePath in cur || c.decision.filePath in nxt;
      if c.decision.filePath in cur {
        var a :| 0 <= a < |cur| && cur[a] == c.decision.filePath;
      }
    }
  }

  lemma {:induction false} HeadAndRest(files: seq<string>)
    requires files != []
    ensures forall f :: f in files <==> f == files[0] || f in files[1..]
  {
    assert files == [files[0]] + files[1..];
  }

  lemma {:induction false} HeadSitsFirst(ordered: seq<Candidate>, group: int, files: seq<string>)
    requires FilesInSeatOrder(ordered, group, files) && files != []
    ensures FilesInSeatOrder(ordered, group, files[1..])
    ensures forall b :: b in files[1..] ==> Seat(ordered, group, files[0]) < Seat(ordered, group, b)
    ensures Seat(ordered, group, files[0]) < |ordered|
  {
    var waiting := files[1..];
    forall b | b in waiting
      ensures Seat(ordered, group, files[0]) < Seat(ordered, group, b)
    {
      var i :| 0 <= i < |waiting| && waiting[i] == b;
      assert files[i + 1] == b;
    }
  }

  lemma {:induction false} SitsLast(ordered: seq<Candidate>, group: int, files: seq<string>, file: string)
    requires FilesInSeatOrder(ordered, group, files) && Seat(ordered, group, file) < |ordered|
    requires forall a :: a in files ==> Seat(ordered, group, a) < Seat(ordered, group, file)
    ensures FilesInSeatOrder(ordered, group, files + [file])
  {
    assert forall a :: 0 <= a < |files| ==> files[a] in files;
  }

  lemma {:induction false} MovingKeepsSeats(ordered: seq<Candidate>, group: int, nxt: seq<string>, cur: seq<string>)
    requires InSeatOrder(ordered, group, nxt, cur) && cur != []
    ensures InSeatOrder(ordered, group, nxt, cur[1..])
    ensures InSeatOrder(ordered, group, nxt + [cur[0]], cur[1..])
    ensures cur[0] !in nxt && cur[0] !in cur[1..]
  {
    HeadAndRest(cur);
    HeadSitsFirst(ordered, group, cur);
    SitsLast(ordered, group, nxt, cur[0]);
  }

  /** The first waiting file had nothing open and drops out. */
  lemma {:induction false} AfterIdleTurn(ordered: seq<Candidate>, group: int, queues: map<string, seq<Candidate>>,
                                         nxt: seq<string>, cur: seq<string>,
                      picks: seq<Candidate>, caps: Caps, k: nat)
    requires MidRound(ordered, group, queues, nxt, cur, picks, caps, k) && cur != []
    requires AllBlocked(picks, Bucket(ordered, group, cur[0]), caps)
    ensures MidRound(ordered, group, queues[cur[0] := []], nxt, cur[1..], picks, caps, k)
  {
    MovingKeepsSeats(ordered, group, nxt, cur);
    TurnKeepsFiles(ordered, group, queues, nxt, cur, [], nxt);
    HeadAndRest(cur);
  }

  /** A pick of one file changes no other file's round, and unblocks nothing. */
  lemma {:induction false} PickKeepsRound(group: int, picks: seq<Candidate>, c: Candidate, files: seq<string>, k: nat)
    requires InRound(group, files, picks, k) && c.decision.filePath !in files
    ensures InRound(group, files, picks + [c], k)
  {
    forall f | f in files
      ensures Count(picks + [c], OnGroupFile(group, f)) == k
    {
      CountPush(picks, c, OnGroupFile(group, f));
    }
  }

  lemma {:induction false} PickKeepsBlocked(picks: seq<Candidate>, c: Candidate, caps: Caps)
    ensures forall x: Candidate :: Blocked(picks, x, caps) ==> Blocked(picks + [c], x, caps)
    ensures forall xs: seq<Candidate> :: AllBlocked(picks, xs, caps) ==> AllBlocked(picks + [c], xs, caps)
  {
    forall x: Candidate
      ensures Blocked(picks, x, caps) ==> Blocked(picks + [c], x, caps)
    {
      BlockedPush(picks, c, x, caps);
    }
  }

  lemma {:induction false} PickKeepsQueues(ordered: seq<Candidate>, group: int, queues: map<string, seq<Candidate>>,
                        picks: seq<Candidate>, caps: Caps, c: Candidate, file: string, rest: seq<Candidate>)
    requires QueuesOk(ordered, group, queues, picks, caps)
    requires QueueOk(Bucket(ordered, group, file), rest, picks + [c], caps)
    ensures QueuesOk(ordered, group, queues[file := rest], picks + [c], caps)
  {
    PickKeepsBlocked(picks, c, caps);
  }

  /** Where the files stand once the first waiting one has had candidate c picked. */
  lemma {:induction false} PickKeepsRounds(group: int, nxt: seq<string>, cur: seq<string>, picks: seq<Candidate>,
                                           k: nat, c: Candidate)
    requires cur != [] && cur[0] !in nxt && cur[0] !in cur[1..] && OnGroupFile(group, cur[0])(c)
    requires InRound(group, cur, picks, k) && InRound(group, nxt, picks, k + 1)
    ensures InRound(group, cur[1..], picks + [c], k)
    ensures InRound(group, nxt, picks + [c], k + 1) && InRound(group, nxt + [cur[0]], picks + [c], k + 1)
  {
    HeadAndRest(cur);
    PickKeepsRound(group, picks, c, cur[1..], k);
    PickKeepsRound(group, picks, c, nxt, k + 1);
    CountPush(picks, c, OnGroupFile(group, cur[0]));
  }

  lemma {:induction false} PickKeepsOthers(ordered: seq<Candidate>, group: int, queues: map<string, seq<Candidate>>,
                                           nxt: seq<string>, cur: seq<string>, picks: seq<Candidate>, caps: Caps,
                                           c: Candidate, rest: seq<Candidate>, nxt': seq<string>)
    requires OthersBlocked(ordered, group, queues, nxt, cur, picks, caps) && cur != []
    requires nxt' == nxt + [cur[0]]
             || (nxt' == nxt && AllBlocked(picks + [c], Bucket(ordered, group, cur[0]), caps))
    ensures OthersBlocked(ordered, group, queues[cur[0] := rest], nxt', cur[1..], picks + [c], caps)
  {
    HeadAndRest(cur);
    PickKeepsBlocked(picks, c, caps);
  }

  lemma {:induction false} TurnKeepsFiles(ordered: seq<Candidate>, group: int, queues: map<string, seq<Candidate>>,
                                          nxt: seq<string>, cur: seq<string>, rest: seq<Candidate>, nxt': seq<string>)
    requires FilesKnown(ordered, group, queues, nxt, cur) && cur != [] && (nxt' == nxt || nxt' == nxt + [cur[0]])
    ensures FilesKnown(ordered, group, queues[cur[0] := rest], nxt', cur[1..])
  {
    HeadAndRest(cur);
  }

  /** The first waiting file had candidate c picked. It waits for the next round, or, when nothing
      is left for it, drops out. */
  lemma {:induction false} AfterPick(ordered: seq<Candidate>, group: int, queues: map<string, seq<Candidate>>,
                                     nxt: seq<string>,
                                     cur: seq<string>, picks: seq<Candidate>, caps: Caps, k: nat, c: Candidate,
                                     rest: seq<Candidate>, nxt': seq<string>)
    requires MidRound(ordered, group, queues, nxt, cur, picks, caps, k) && cur != []
    requires OnGroupFile(group, cur[0])(c)
    requires QueueOk(Bucket(ordered, group, cur[0]), rest, picks + [c], caps)
    requires nxt' == nxt + [cur[0]]
             || (nxt' == nxt && AllBlocked(picks + [c], Bucket(ordered, group, cur[0]), caps))
    ensures MidRound(ordered, group, queues[cur[0] := rest], nxt', cur[1..], picks + [c], caps, k)
  {
    MovingKeepsSeats(ordered, group, nxt, cur);
    TurnKeepsFiles(ordered, group, queues, nxt, cur, rest, nxt');
    PickKeepsQueues(ordered, group, queues, picks, caps, c, cur[0], rest);
    PickKeepsRounds(group, nxt, cur, picks, k, c);
    PickKeepsOthers(ordered, group, queues, nxt, cur, picks, caps, c, rest, nxt');
  }

  lemma {:induction false} SkippedAreBlocked(bucket: seq<Candidate>, queue: seq<Candidate>, m: nat,
                                             picks: seq<Candidate>, caps: Caps)
    requires QueueOk(bucket, queue, picks, caps) && m <= |queue|
    requires AllBlocked(picks, queue[..m], caps)
    ensures var popped := |bucket| - |queue|;
            && AllBlocked(picks, bucket[..popped + m], caps)
            && (m == |queue| ==> AllBlocked(picks, bucket, caps))
            && (m < |queue| ==> popped + m < |bucket| && bucket[popped + m] == queue[m])
  {
    var popped := |bucket| - |queue|;
    assert bucket[..popped + m] == bucket[..popped] + queue[..m];
    if m == |queue| {
      assert bucket[..popped + m] == bucket;
    }
  }

  lemma {:induction false} PickedQueue(bucket: seq<Candidate>, queue: seq<Candidate>, rest: seq<Candidate>, m: nat,
                                       picks: seq<Candidate>, caps: Caps)
    requires QueueOk(bucket, queue, picks, caps) && m < |queue| && rest == queue[m + 1..]
    requires AllBlocked(picks, queue[..m], caps)
    ensures QueueOk(bucket, rest, picks + [queue[m]], caps)
  {
    SkippedAreBlocked(bucket, queue, m, picks, caps);
    PickKeepsBlocked(picks, queue[m], caps);
    BlockedPush(picks, queue[m], queue[m], caps);
    var popped := |bucket| - |queue|;
    assert bucket[..popped + m + 1] == bucket[..popped + m] + [queue[m]];
    assert rest == bucket[popped + m + 1..];
  }

  /** A file that does not wait, though the batch has room, has nothing open left. */
  lemma {:induction false} NothingLeft(ordered: seq<Candidate>, group: int, file: string, rest: seq<Candidate>,
                                       l: Ledger, caps: Caps)
    requires Agrees(l) && QueueOk(Bucket(ordered, group, file), rest, l.selected, caps)
    ensures rest == [] || Get(l.fileCounts, file) >= caps.file ==>
              AllBlocked(l.selected, Bucket(ordered, group, file), caps)
  {
    var bucket := Bucket(ordered, group, file);
    FilterElements(ordered, OnGroupFile(group, file));
    if rest == [] {
      assert bucket[..|bucket|] == bucket;
    }
  }

  /** A group that has no waiting files has nothing open. */
  lemma {:induction false} GroupDone(ordered: seq<Candidate>, group: int, queues: map<string, seq<Candidate>>,
                                     picks: seq<Candidate>, caps: Caps, k: nat)
    requires MidRound(ordered, group, queues, [], [], picks, caps, k)
    ensures forall c :: c in ordered && c.priorityGroup == group ==> Blocked(picks, c, caps)
  {
    forall c | c in ordered && c.priorityGroup == group
      ensures Blocked(picks, c, caps)
    {
      FilterElements(ordered, OnGroupFile(group, c.decision.filePath));
      assert c in Bucket(ordered, group, c.decision.filePath);
    }
  }

  ghost predicate PicksBelow(picks: seq<Candidate>, group: int)
  {
    forall c :: c in picks ==> c.priorityGroup < group
  }

  lemma {:induction false} NoPicksYet(picks: seq<Candidate>, group: int, file: string)
    requires PicksBelow(picks, group)
    ensures Count(picks, OnGroupFile(group, file)) == 0
  {
    CountPositive(picks, OnGroupFile(group, file));
  }

  /** What holds between turns: the counters are right, lower groups are done, and carrying on
      greedily from here gives the batch. */
  ghost predicate OnTrack(ordered: seq<Candidate>, group: int, l: Ledger, caps: Caps, batchSize: int,
                          batch: seq<Candidate>)
  {
    && Agrees(l)
    && LowerBlocked(ordered, group, l.selected, caps)
    && PicksBelow(l.selected, group + 1)
    && Greedy(ordered, l.selected, caps, batchSize) == batch
  }

  /** Taking the next open candidate stays on track. */
  lemma {:induction false} PickStaysOnTrack(ordered: seq<Candidate>, group: int, l: Ledger, caps: Caps,
                                            batchSize: int, batch: seq<Candidate>, i: nat,
                                            c: Candidate)
    requires OnTrack(ordered, group, l, caps, batchSize, batch) && |l.selected| < batchSize
    requires Next(ordered, l.selected, caps, |ordered|) == Some(i) && ordered[i] == c && c.priorityGroup == group
    ensures OnTrack(ordered, group, Record(l, c), caps, batchSize, batch)
  {
    RecordAgrees(l, c);
    PickKeepsBlocked(l.selected, c, caps);
  }

  /** Candidate m of the first waiting file's queue is the next one the greedy choice takes. */
  lemma {:induction false} TurnIsNext(ordered: seq<Candidate>, group: int, queues: map<string, seq<Candidate>>,
                                      nxt: seq<string>,
                                      cur: seq<string>, picks: seq<Candidate>, caps: Caps, k: nat, m: nat, c: Candidate)
    returns (i: nat)
    requires cur != [] && MidRound(ordered, group, queues, nxt, cur, picks, caps, k)
    requires LowerBlocked(ordered, group, picks, caps)
    requires cur[0] in queues && m < |queues[cur[0]]| && c == queues[cur[0]][m]
    requires QueueOk(Bucket(ordered, group, cur[0]), queues[cur[0]], picks, caps)
    requires AllBlocked(picks, queues[cur[0]][..m], caps) && !Blocked(picks, c, caps)
    ensures Next(ordered, picks, caps, |ordered|) == Some(i) && i < |ordered| && ordered[i] == c
    ensures OnGroupFile(group, cur[0])(c)
  {
    var bucket, queue := Bucket(ordered, group, cur[0]), queues[cur[0]];
    SkippedAreBlocked(bucket, queue, m, picks, caps);
    var place := |bucket| - |queue| + m;
    i := WaitingFileIsNext(ordered, group, queues, nxt, cur, picks, caps, k, place);
    FilterElements(ordered, OnGroupFile(group, cur[0]));
    assert c in bucket;
  }

  /** A turn that ends with candidate m of the queue picked. */
  lemma {:induction false} PickedTurn(ordered: seq<Candidate>, group: int, queues: map<string, seq<Candidate>>,
                                      nxt: seq<string>, cur: seq<string>,
                   l: Ledger, caps: Caps, batchSize: int, batch: seq<Candidate>, k: nat, m: nat, c: Candidate)
    requires cur != [] && |l.selected| < batchSize
    requires OnTrack(ordered, group, l, caps, batchSize, batch)
    requires MidRound(ordered, group, queues, nxt, cur, l.selected, caps, k)
    requires cur[0] in queues && m < |queues[cur[0]]| && c == queues[cur[0]][m]
    requires AllBlocked(l.selected, queues[cur[0]][..m], caps) && !Blocked(l.selected, c, caps)
    ensures OnGroupFile(group, cur[0])(c)
    ensures OnTrack(ordered, group, Record(l, c), caps, batchSize, batch)
    ensures QueueOk(Bucket(ordered, group, cur[0]), queues[cur[0]][m + 1..], l.selected + [c], caps)
  {
    var bucket, queue := Bucket(ordered, group, cur[0]), queues[cur[0]];
    QueueOfFile(ordered, group, queues, nxt, cur, l.selected, caps, k);
    var i := TurnIsNext(ordered, group, queues, nxt, cur, l.selected, caps, k, m, c);
    PickStaysOnTrack(ordered, group, l, caps, batchSize, batch, i, c);
    PickedQueue(bucket, queue, queue[m + 1..], m, l.selected, caps);
  }

  /** The turn of the first waiting file. */
  method PlayTurn(file: string, queues: map<string, seq<Candidate>>, ledger: Ledger, caps: Caps, batchSize: int,
                  ghost ordered: seq<Candidate>, ghost group: int, ghost k: nat,
                  ghost nxt: seq<string>, ghost cur: seq<string>,
                  ghost batch: seq<Candidate>)
    returns (queues': map<string, seq<Candidate>>, ledger': Ledger, progressed: bool, waits: bool)
    requires cur != [] && file == cur[0] && |ledger.selected| < batchSize
    requires OnTrack(ordered, group, ledger, caps, batchSize, batch)
    requires MidRound(ordered, group, queues, nxt, cur, ledger.selected, caps, k)
    ensures OnTrack(ordered, group, ledger', caps, batchSize, batch)
    ensures |ledger'.selected| >= batchSize
            || MidRound(ordered, group, queues', if waits then nxt + [file] else nxt, cur[1..], ledger'.selected,
                        caps, k)
    ensures progressed ==> |ledger'.selected| == |ledger.selected| + 1
    ensures !progressed ==> ledger' == ledger && !waits
  {
    QueueOfFile(ordered, group, queues, nxt, cur, ledger.selected, caps, k);
    var rest, after, picked, m := TakeTurn(queues[file], ledger, caps, file);
    queues', ledger', progressed := queues[file := rest], after, picked;
    waits := rest != [] && Get(ledger'.fileCounts, file) < caps.file && |ledger'.selected| < batchSize;
    if !picked {
      SkippedAreBlocked(Bucket(ordered, group, file), queues[file], m, ledger.selected, caps);
      AfterIdleTurn(ordered, group, queues, nxt, cur, ledger.selected, caps, k);
    } else {
      ghost var c := queues[file][m];
      PickedTurn(ordered, group, queues, nxt, cur, ledger, caps, batchSize, batch, k, m, c);
      if |ledger'.selected| < batchSize {
        NothingLeft(ordered, group, file, rest, ledger', caps);
        AfterPick(ordered, group, queues, nxt, cur, ledger.selected, caps, k, c, rest,
                  if waits then nxt + [file] else nxt);
      }
    }
  }

  lemma {:induction false} QueueOfFile(ordered: seq<Candidate>, group: int, queues: map<string, seq<Candidate>>,
                                       nxt: seq<string>, cur: seq<string>,
                    picks: seq<Candidate>, caps: Caps, k: nat)
    requires MidRound(ordered, group, queues, nxt, cur, picks, caps, k) && cur != []
    ensures cur[0] in queues && QueueOk(Bucket(ordered, group, cur[0]), queues[cur[0]], picks, caps)
    ensures forall c :: c in queues[cur[0]] ==> c.decision.filePath == cur[0]
  {
    assert cur[0] in cur;
    FilterElements(ordered, OnGroupFile(group, cur[0]));
    assert forall c :: c in queues[cur[0]] ==> c in Bucket(ordered, group, cur[0]);
  }

  /** One pass over the active files. Either the batch fills up, or every file has had its turn and
      those with something left wait for the next round. */
  method PlayRound(active: seq<string>, queues: map<string, seq<Candidate>>, ledger: Ledger, caps: Caps, batchSize: int,
                   ghost ordered: seq<Candidate>, ghost group: int, ghost k: nat, ghost batch: seq<Candidate>)
    returns (queues': map<string, seq<Candidate>>, ledger': Ledger, progressed: bool, next: seq<string>)
    requires |ledger.selected| < batchSize
    requires OnTrack(ordered, group, ledger, caps, batchSize, batch)
    requires MidRound(ordered, group, queues, [], active, ledger.selected, caps, k)
    ensures OnTrack(ordered, group, ledger', caps, batchSize, batch)
    ensures |ledger'.selected| >= batchSize || MidRound(ordered, group, queues', next, [], ledger'.selected, caps, k)
    ensures progressed ==> |ledger'.selected| > |ledger.selected|
    ensures !progressed ==> next == [] && ledger' == ledger
  {
    queues', ledger', progressed, next := queues, ledger, false, [];
    for i := 0 to |active|
      invariant |ledger'.selected| < batchSize
      invariant OnTrack(ordered, group, ledger', caps, batchSize, batch)
      invariant MidRound(ordered, group, queues', next, active[i..], ledger'.selected, caps, k)
      invariant progressed ==> |ledger'.selected| > |ledger.selected|
      invariant !progressed ==> next == [] && ledger' == ledger
    {
      var took, waits;
      assert active[i..][1..] == active[i + 1..];
      queues', ledger', took, waits :=
        PlayTurn(active[i], queues', ledger', caps, batchSize, ordered, group, k, next, active[i..], batch);
      progressed := progressed || took;
      if waits {
        next := next + [active[i]];
      }
      if |ledger'.selected| >= batchSize {
        return;
      }
    }
    assert active[|active|..] == [];
  }

  lemma {:induction false} RoundStarts(ordered: seq<Candidate>, group: int, files: seq<string>, queues: map<string,
                                       seq<Candidate>>,
                    picks: seq<Candidate>, caps: Caps)
    requires GroupBucketed(ordered, group, files, queues) && PicksBelow(picks, group)
    ensures MidRound(ordered, group, queues, [], files, picks, caps, 0)
  {
    forall f | f in files
      ensures Count(picks, OnGroupFile(group, f)) == 0
    {
      NoPicksYet(picks, group, f);
    }
  }

  /** Those who may have another turn open the next round. */
  lemma NextRound(ordered: seq<Candidate>, group: int, queues: map<string, seq<Candidate>>, files: seq<string>,
                  picks: seq<Candidate>, caps: Caps, k: nat)
    requires MidRound(ordered, group, queues, files, [], picks, caps, k)
    ensures MidRound(ordered, group, queues, [], files, picks, caps, k + 1)
  {
  }

  /** Plays rounds in one group until nothing moves or the batch is full. */
  method PlayGroup(files: seq<string>, groupQueues: map<string, seq<Candidate>>, ledger: Ledger, caps: Caps,
                   batchSize: int,
                   ghost ordered: seq<Candidate>, ghost group: int, ghost batch: seq<Candidate>)
    returns (ledger': Ledger)
    requires GroupBucketed(ordered, group, files, groupQueues)
    requires OnTrack(ordered, group, ledger, caps, batchSize, batch) && PicksBelow(ledger.selected, group)
    ensures OnTrack(ordered, group, ledger', caps, batchSize, batch)
    ensures |ledger'.selected| >= batchSize
            || forall c :: c in ordered && c.priorityGroup == group ==> Blocked(ledger'.selected, c, caps)
  {
    ledger' := ledger;
    var active, queues := files, groupQueues;
    ghost var k := 0;
    RoundStarts(ordered, group, files, groupQueues, ledger.selected, caps);
    while active != [] && |ledger'.selected| < batchSize
      invariant OnTrack(ordered, group, ledger', caps, batchSize, batch)
      invariant |ledger'.selected| >= batchSize
                || MidRound(ordered, group, queues, [], active, ledger'.selected, caps, k)
      decreases batchSize - |ledger'.selected|
    {
      var progressed, next;
      queues, ledger', progressed, next :=
        PlayRound(active, queues, ledger', caps, batchSize, ordered, group, k, batch);
      if |ledger'.selected| < batchSize {
        NextRound(ordered, group, queues, next, ledger'.selected, caps, k);
      }
      active := next;
      k := k + 1;
      if !progressed {
        break;
      }
    }
    if |ledger'.selected| < batchSize {
      GroupDone(ordered, group, queues, ledger'.selected, caps, k);
    }
  }

  // ----- all groups --------------------------------------------------------------------------

  predicate IntLe(a: int, b: int)
  {
    a <= b
  }

  lemma {:induction false} DistinctSort(xs: seq<int>)
    requires forall i, j :: 0 <= i < j < |xs| ==> xs[i] != xs[j]
    ensures Ascending(Sort(xs, IntLe)) && forall x :: x in Sort(xs, IntLe) <==> x in xs
  {
    if xs != [] {
      DistinctSort(xs[1..]);
      assert xs[0] !in xs[1..];
      InsertAscends(xs[0], Sort(xs[1..], IntLe));
      assert xs == [xs[0]] + xs[1..];
    }
  }

  lemma {:induction false} InsertAscends(x: int, xs: seq<int>)
    requires Ascending(xs) && x !in xs
    ensures Ascending(Insert(x, xs, IntLe)) && forall y :: y in Insert(x, xs, IntLe) <==> y == x || y in xs
  {
    if xs != [] {
      AscendingTail(xs);
      if x > xs[0] {
        InsertAscends(x, xs[1..]);
        AscendingCons(xs[0], Insert(x, xs[1..], IntLe));
      } else {
        assert x != xs[0];
        AscendingCons(x, xs);
      }
    }
  }

  lemma {:induction false} AscendingTail(xs: seq<int>)
    requires Ascending(xs) && xs != []
    ensures Ascending(xs[1..]) && forall y :: y in xs <==> y == xs[0] || y in xs[1..]
    ensures forall y :: y in xs[1..] ==> xs[0] < y
  {
    assert xs == [xs[0]] + xs[1..];
  }

  lemma {:induction false} AscendingCons(x: int, xs: seq<int>)
    requires Ascending(xs) && forall y :: y in xs ==> x < y
    ensures Ascending([x] + xs)
  {
    assert forall i :: 0 <= i < |xs| ==> xs[i] in xs;
  }

  /** Before group i: every candidate of an earlier group is blocked, and all picks are of those. */
  ghost predicate GroupsDone(ordered: seq<Candidate>, groups: seq<int>, i: nat, picks: seq<Candidate>, caps: Caps)
    requires i <= |groups|
  {
    && (forall c :: c in ordered && (i == |groups| || c.priorityGroup < groups[i]) ==> Blocked(picks, c, caps))
    && (i < |groups| ==> PicksBelow(picks, groups[i]))
  }

  lemma {:induction false} LeaveGroup(ordered: seq<Candidate>, groups: seq<int>, i: nat, picks: seq<Candidate>,
                                      caps: Caps)
    requires Ascending(groups) && i < |groups|
    requires forall c :: c in ordered ==> c.priorityGroup in groups
    requires LowerBlocked(ordered, groups[i], picks, caps) && PicksBelow(picks, groups[i] + 1)
    requires forall c :: c in ordered && c.priorityGroup == groups[i] ==> Blocked(picks, c, caps)
    ensures GroupsDone(ordered, groups, i + 1, picks, caps)
  {
    forall c | c in ordered && (i + 1 == |groups| || c.priorityGroup < groups[i + 1])
      ensures Blocked(picks, c, caps)
    {
      var j :| 0 <= j < |groups| && groups[j] == c.priorityGroup;
      assert j <= i;
    }
  }

  lemma {:induction false} NothingOpen(ordered: seq<Candidate>, picks: seq<Candidate>, caps: Caps, batchSize: int)
    requires |picks| >= batchSize || forall c :: c in ordered ==> Blocked(picks, c, caps)
    ensures Greedy(ordered, picks, caps, batchSize) == picks
  {
    var next := Next(ordered, picks, caps, |ordered|);
    assert next.Some? ==> ordered[next.value] in ordered;
  }

  lemma {:induction false} GroupAt(ordered: seq<Candidate>, buckets: Buckets, groups: seq<int>, i: nat)
    requires Bucketed(ordered, buckets) && (forall g :: g in groups <==> g in buckets.groups) && i < |groups|
    ensures groups[i] in buckets.fileOrder && groups[i] in buckets.queues
    ensures GroupBucketed(ordered, groups[i], buckets.fileOrder[groups[i]], buckets.queues[groups[i]])
  {
    var g := groups[i];
    assert g in groups && g in buckets.groups;
  }

  lemma EnterGroup(ordered: seq<Candidate>, groups: seq<int>, i: nat, l: Ledger, caps: Caps, batchSize: int,
                                      batch: seq<Candidate>)
    requires i < |groups| && GroupsDone(ordered, groups, i, l.selected, caps)
    requires Agrees(l) && Greedy(ordered, l.selected, caps, batchSize) == batch
    ensures OnTrack(ordered, groups[i], l, caps, batchSize, batch) && PicksBelow(l.selected, groups[i])
  {
  }

  /** The whole selection. It computes the greedy batch, so everything proved of that holds of it. */
  method SelectBatchCandidates(candidates: seq<Candidate>, caps: Caps, batchSize: int)
    returns (selected: seq<Candidate>)
    ensures selected == Select(candidates, caps, batchSize)
  {
    var ordered := Ordered(candidates);
    var buckets := FillBuckets(ordered);
    selected := PlayGroups(ordered, buckets, caps, batchSize);
  }

  method PlayGroups(ghost ordered: seq<Candidate>, buckets: Buckets, caps: Caps, batchSize: int)
    returns (selected: seq<Candidate>)
    requires Bucketed(ordered, buckets)
    ensures selected == Greedy(ordered, [], caps, batchSize)
  {
    ghost var batch := Greedy(ordered, [], caps, batchSize);
    var groups := Sort(buckets.groups, IntLe);
    DistinctSort(buckets.groups);
    var ledger := Ledger([], {}, map[], map[]);
    assert forall c :: c in ordered ==> c.priorityGroup in groups;
    for i := 0 to |groups|
      invariant Agrees(ledger) && Greedy(ordered, ledger.selected, caps, batchSize) == batch
      invariant GroupsDone(ordered, groups, i, ledger.selected, caps)
    {
      GroupAt(ordered, buckets, groups, i);
      EnterGroup(ordered, groups, i, ledger, caps, batchSize, batch);
      ledger := PlayGroup(buckets.fileOrder[groups[i]], buckets.queues[groups[i]], ledger, caps, batchSize,
                          ordered, groups[i], batch);
      if |ledger.selected| >= batchSize {
        break;
      }
      LeaveGroup(ordered, groups, i, ledger.selected, caps);
    }
    NothingOpen(ordered, ledger.selected, caps, batchSize);
    selected := ledger.selected;
  }
}
