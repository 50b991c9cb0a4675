/** The webhook rate limiter: a deque of recent times per client, and the full log it stands for. */
module RateLimit {

  const LIMIT: nat := 100

  const WINDOW: real := 60.0

  datatype Accept = Accept(client: string, at: real)

  /** When the client's requests were accepted. */
  function Times(log: seq<Accept>, client: string): seq<real>
  {
    if log == [] then []
    else
      var last := log[|log| - 1];
      Times(log[..|log| - 1], client) + if last.client == client then [last.at] else []
  }

  /** How many of the times lie in the closed interval. */
  function CountWithin(times: seq<real>, from: real, to: real): (n: nat)
    ensures n <= |times|
  {
    if times == [] then 0
    else CountWithin(times[1..], from, to) + if from <= times[0] <= to then 1 else 0
  }

  /** The rule, said of the full log: fewer than the limit were accepted in the window that ends now. */
  predicate Admits(log: seq<Accept>, client: string, now: real)
  {
    CountWithin(Times(log, client), now - WINDOW, now) < LIMIT
  }

  function Logged(log: seq<Accept>, client: string, now: real): seq<Accept>
  {
    if Admits(log, client, now) then log + [Accept(client, now)] else log
  }

  ghost predicate NonDecreasing(times: seq<real>)
  {
    forall i, j :: 0 <= i < j < |times| ==> times[i] <= times[j]
  }

  /** Two times a hundred or more places apart are more than a window apart. */
  ghost predicate Spread(times: seq<real>)
  {
    forall i, j :: 0 <= i && i + LIMIT <= j < |times| ==> times[j] - times[i] > WINDOW
  }

  ghost predicate AllBefore(times: seq<real>, moment: real)
  {
    forall i :: 0 <= i < |times| ==> times[i] < moment
  }

  ghost predicate AllUpTo(times: seq<real>, moment: real)
  {
    forall i :: 0 <= i < |times| ==> times[i] <= moment
  }

  ghost predicate AllFrom(times: seq<real>, moment: real)
  {
    forall i :: 0 <= i < |times| ==> moment <= times[i]
  }

  // ----- counting ----------------------------------------------------------------------------

  lemma {:induction false} CountSplit(a: seq<real>, b: seq<real>, from: real, to: real)
    ensures CountWithin(a + b, from, to) == CountWithin(a, from, to) + CountWithin(b, from, to)
  {
    if a == [] {
      assert a + b == b;
    } else {
      assert (a + b)[1..] == a[1..] + b;
      CountSplit(a[1..], b, from, to);
    }
  }

  lemma {:induction false} CountBefore(times: seq<real>, from: real, to: real)
    requires AllBefore(times, from)
    ensures CountWithin(times, from, to) == 0
  {
    if times != [] {
      CountBefore(times[1..], from, to);
    }
  }

  lemma {:induction false} CountInside(times: seq<real>, from: real, to: real)
    requires AllFrom(times, from) && AllUpTo(times, to)
    ensures CountWithin(times, from, to) == |times|
  {
    if times != [] {
      CountInside(times[1..], from, to);
    }
  }

  /** If the last time lies in the window, only the last hundred can. */
  lemma {:induction false} OnlyTheLastHundred(times: seq<real>, from: real)
    requires Spread(times) && |times| > LIMIT && times[|times| - 1] <= from + WINDOW
    ensures CountWithin(times, from, from + WINDOW) <= LIMIT
  {
    var n := |times|;
    var (early, late) := (times[..n - LIMIT], times[n - LIMIT..]);
    assert forall i :: 0 <= i < |early| ==> early[i] == times[i] && times[n - 1] - times[i] > WINDOW;
    CountBefore(early, from, from + WINDOW);
    assert times == early + late;
    CountSplit(early, late, from, from + WINDOW);
  }

  /** Times spread out like this never crowd a window: no closed interval of its length holds more than
      the limit. */
  lemma {:induction false} SpreadTimesNeverCrowd(times: seq<real>, from: real)
    requires Spread(times)
    ensures CountWithin(times, from, from + WINDOW) <= LIMIT
  {
    var n := |times|;
    if n > LIMIT {
      if times[n - 1] <= from + WINDOW {
        OnlyTheLastHundred(times, from);
      } else {
        var front := times[..n - 1];
        SpreadTimesNeverCrowd(front, from);
        assert times == front + [times[n - 1]];
        CountSplit(front, [times[n - 1]], from, from + WINDOW);
      }
    }
  }

  /** If the window that ends now is not full, the hundredth last time lies before it. */
  lemma {:induction false} HundredthLastIsOld(times: seq<real>, now: real, i: nat)
    requires NonDecreasing(times) && AllUpTo(times, now)
    requires CountWithin(times, now - WINDOW, now) < LIMIT
    requires i + LIMIT <= |times|
    ensures times[i] < now - WINDOW
  {
    if times[i] >= now - WINDOW {
      var (early, late) := (times[..i], times[i..]);
      assert forall k :: 0 <= k < |late| ==> late[k] == times[i + k];
      CountInside(late, now - WINDOW, now);
      assert times == early + late;
      CountSplit(early, late, now - WINDOW, now);
      assert false;
    }
  }

  lemma {:induction false} AdmissionKeepsSpread(times: seq<real>, now: real)
    requires NonDecreasing(times) && Spread(times) && AllUpTo(times, now)
    requires CountWithin(times, now - WINDOW, now) < LIMIT
    ensures NonDecreasing(times + [now]) && Spread(times + [now]) && AllUpTo(times + [now], now)
  {
    forall i: nat | i + LIMIT <= |times|
      ensures times[i] < now - WINDOW
    {
      HundredthLastIsOld(times, now, i);
    }
  }

  // ----- every run ---------------------------------------------------------------------------

  datatype Request = Request(client: string, at: real)

  /** The log after a run of requests. */
  function Play(requests: seq<Request>): seq<Accept>
  {
    if requests == [] then []
    else
      var last := requests[|requests| - 1];
      Logged(Play(requests[..|requests| - 1]), last.client, last.at)
  }

  /** The clock never goes back. */
  ghost predicate ClockAdvances(requests: seq<Request>)
  {
    forall i, j :: 0 <= i < j < |requests| ==> requests[i].at <= requests[j].at
  }

  /** In order, never crowded, and none later than now. */
  ghost predicate Orderly(times: seq<real>, now: real)
  {
    NonDecreasing(times) && Spread(times) && AllUpTo(times, now)
  }

  lemma {:induction false} RequestKeepsSpread(log: seq<Accept>, request: Request, client: string)
    requires Orderly(Times(log, client), request.at)
    ensures Orderly(Times(Logged(log, request.client, request.at), client), request.at)
  {
    TimesPush(log, Accept(request.client, request.at), client);
    if Admits(log, request.client, request.at) && request.client == client {
      AdmissionKeepsSpread(Times(log, client), request.at);
    }
  }

  lemma {:induction false} RunKeepsSpread(requests: seq<Request>, client: string, now: real)
    requires ClockAdvances(requests)
    requires forall i :: 0 <= i < |requests| ==> requests[i].at <= now
    ensures Orderly(Times(Play(requests), client), now)
  {
    if requests != [] {
      var (front, last) := (requests[..|requests| - 1], requests[|requests| - 1]);
      assert forall i :: 0 <= i < |front| ==> front[i] == requests[i];
      RunKeepsSpread(front, client, last.at);
      RequestKeepsSpread(Play(front), last, client);
    }
  }

  lemma {:induction false} TimesPush(log: seq<Accept>, a: Accept, client: string)
    ensures Times(log + [a], client) == if a.client == client then Times(log, client) + [a.at] else Times(log, client)
  {
    assert (log + [a])[..|log|] == log;
    assert Times(log, client) + [] == Times(log, client);
  }

  /** In every run no client gets more than a hundred requests accepted in any closed sixty seconds. */
  lemma {:induction false} NoWindowOverflows(requests: seq<Request>, client: string, from: real)
    requires ClockAdvances(requests)
    ensures CountWithin(Times(Play(requests), client), from, from + 60.0) <= 100
  {
    if requests != [] {
      RunKeepsSpread(requests, client, requests[|requests| - 1].at);
    }
    SpreadTimesNeverCrowd(Times(Play(requests), client), from);
  }

  /** So a request is refused exactly when a full hundred were accepted in the window that ends now. */
  lemma {:induction false} RefusedExactlyWhenFull(requests: seq<Request>, client: string, now: real)
    requires ClockAdvances(requests + [Request(client, now)])
    ensures Play(requests + [Request(client, now)]) == Play(requests) <==>
            CountWithin(Times(Play(requests), client), now - 60.0, now) == 100
  {
    assert (requests + [Request(client, now)])[..|requests|] == requests;
    assert forall i :: 0 <= i < |requests| ==> (requests + [Request(client, now)])[i] == requests[i];
    NoWindowOverflows(requests, client, now - WINDOW);
    assert now - WINDOW + WINDOW == now;
  }

  // ----- the limiter -------------------------------------------------------------------------

  class RateLimiter {
    var buckets: map<string, seq<real>>
    /** Everything ever accepted, and the last time the clock was read. */
    ghost var log: seq<Accept>
    ghost var clock: real

    function Bucket(client: string): seq<real>
      reads this
    {
      BucketIn(buckets, client)
    }

    /** Every bucket holds the end of its client's log; what it dropped is older than a window. */
    ghost predicate Valid()
      reads this
    {
      AllHold(buckets, log, clock)
    }

    constructor ()
      ensures Valid() && log == []
    {
      buckets, log, clock := map[], [], 0.0;
    }

    /** Drops the times older than the window. */
    method Evict(client: string, now: real) returns (bucket: seq<real>)
      requires HoldsFor(buckets, log, clock, client) && clock <= now
      ensures Holds(bucket, Times(log, client), now)
      ensures |bucket| == CountWithin(Times(log, client), now - WINDOW, now)
    {
      ghost var times := Times(log, client);
      bucket := Bucket(client);
      HoldsLater(bucket, times, clock, now);
      while bucket != [] && bucket[0] < now - WINDOW
        invariant Holds(bucket, times, now)
      {
        HoldsEvicted(bucket, times, now);
        bucket := bucket[1..];
      }
      BucketCounts(times, bucket, now);
    }

    /** The decision, and the bucket it leaves. */
    method Decide(client: string, now: real) returns (accepted: bool, bucket: seq<real>)
      requires HoldsFor(buckets, log, clock, client) && clock <= now
      ensures accepted <==> Admits(log, client, now)
      ensures Holds(bucket, Times(Logged(log, client, now), client), now)
    {
      bucket := Evict(client, now);
      accepted := |bucket| < LIMIT;
      if accepted {
        HoldsPush(bucket, Times(log, client), now);
        TimesPush(log, Accept(client, now), client);
        bucket := bucket + [now];
      }
    }

    /** Accepts exactly what the rule on the full log admits, and touches no other client. */
    method Check(client: string, now: real) returns (accepted: bool)
      requires Valid() && clock <= now
      modifies this
      ensures Valid() && clock == now
      ensures accepted <==> Admits(old(log), client, now)
      ensures log == Logged(old(log), client, now)
      ensures forall other :: other != client ==> Bucket(other) == old(Bucket(other))
    {
      assert HoldsFor(buckets, log, clock, client);
      var bucket;
      accepted, bucket := Decide(client, now);
      CheckHolds(buckets, log, clock, client, now, bucket, buckets[client := bucket], Logged(log, client, now));
      buckets, log, clock := buckets[client := bucket], Logged(log, client, now), now;
    }
  }

  function BucketIn(buckets: map<string, seq<real>>, client: string): seq<real>
  {
    if client in buckets then buckets[client] else []
  }

  ghost predicate HoldsFor(buckets: map<string, seq<real>>, log: seq<Accept>, clock: real, client: string)
  {
    Holds(BucketIn(buckets, client), Times(log, client), clock)
  }

  ghost predicate AllHold(buckets: map<string, seq<real>>, log: seq<Accept>, clock: real)
  {
    forall client :: HoldsFor(buckets, log, clock, client)
  }

  lemma {:induction false} CheckHoldsFor(buckets: map<string, seq<real>>, log: seq<Accept>, clock: real, client: string,
                                         now: real, bucket: seq<real>, c: string)
    requires clock <= now && HoldsFor(buckets, log, clock, c)
    requires Holds(bucket, Times(Logged(log, client, now), client), now)
    ensures HoldsFor(buckets[client := bucket], Logged(log, client, now), now, c)
  {
    if c != client {
      OthersHold(BucketIn(buckets, c), log, client, clock, now, c);
    }
  }

  /** A check leaves every bucket right: the client's own, and those it does not touch. */
  lemma {:induction false} CheckHolds(buckets: map<string, seq<real>>, log: seq<Accept>, clock: real, client: string,
                                      now: real, bucket: seq<real>, buckets': map<string, seq<real>>, log': seq<Accept>)
    requires clock <= now && AllHold(buckets, log, clock)
    requires buckets' == buckets[client := bucket] && log' == Logged(log, client, now)
    requires Holds(bucket, Times(log', client), now)
    ensures AllHold(buckets', log', now)
  {
    forall c
      ensures HoldsFor(buckets', log', now, c)
    {
      CheckHoldsFor(buckets, log, clock, client, now, bucket, c);
    }
  }

  /** The bucket is the end of the times, and what it leaves out is older than a window. */
  ghost predicate Holds(bucket: seq<real>, times: seq<real>, now: real)
  {
    && |bucket| <= |times| && bucket == times[|times| - |bucket|..]
    && AllBefore(times[..|times| - |bucket|], now - WINDOW)
    && NonDecreasing(times) && AllUpTo(times, now)
  }

  lemma {:induction false} HoldsEvicted(bucket: seq<real>, times: seq<real>, now: real)
    requires Holds(bucket, times, now) && bucket != [] && bucket[0] < now - WINDOW
    ensures Holds(bucket[1..], times, now)
  {
    var dropped := times[..|times| - |bucket|];
    assert times[..|times| - |bucket| + 1] == dropped + [bucket[0]];
  }

  lemma {:induction false} HoldsPush(bucket: seq<real>, times: seq<real>, now: real)
    requires Holds(bucket, times, now)
    ensures Holds(bucket + [now], times + [now], now)
  {
    assert (times + [now])[..|times| - |bucket|] == times[..|times| - |bucket|];
  }

  lemma HoldsLater(bucket: seq<real>, times: seq<real>, then_: real, now: real)
    requires Holds(bucket, times, then_) && then_ <= now
    ensures Holds(bucket, times, now)
  {
  }

  /** A check leaves the buckets of other clients as good as they were. */
  lemma {:induction false} OthersHold(bucket: seq<real>, log: seq<Accept>, client: string, then_: real, now: real,
                                      other: string)
    requires other != client && then_ <= now && Holds(bucket, Times(log, other), then_)
    ensures Holds(bucket, Times(Logged(log, client, now), other), now)
  {
    TimesPush(log, Accept(client, now), other);
    HoldsLater(bucket, Times(log, other), then_, now);
  }

  /** What is left in a bucket after evicting is what the log has in the window. */
  lemma {:induction false} BucketCounts(times: seq<real>, bucket: seq<real>, now: real)
    requires Holds(bucket, times, now)
    requires bucket != [] ==> bucket[0] >= now - WINDOW
    ensures CountWithin(times, now - WINDOW, now) == |bucket|
  {
    var dropped := times[..|times| - |bucket|];
    assert times == dropped + bucket;
    assert forall i :: 0 <= i < |bucket| ==> bucket[i] == times[|dropped| + i];
    CountBefore(dropped, now - WINDOW, now);
    CountInside(bucket, now - WINDOW, now);
    CountSplit(dropped, bucket, now - WINDOW, now);
  }
}
