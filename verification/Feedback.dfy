/** Feedback on a finding, read in two ways that must agree: straight from the tables, and through the
    cache that loads a whole review request at once. */
module Feedback {
  import opened Text
  import opened Sorting

  datatype ThreadRow = ThreadRow(request: string, fingerprint: string, ref: string)

  datatype EventType = ResolvedType | UnresolvedType | ReplyType | OtherType

  /** A command found in a human reply. */
  datatype Command = Command(name: string, languageId: Option<string>)

  /** occurredAt counts from the earliest representable moment, which is what a missing time means. */
  datatype EventRow = EventRow(
    request: string,
    key: string,
    ref: Option<string>,
    kind: EventType,
    human: bool,
    command: Option<Command>,
    occurredAt: Option<nat>)

  datatype Signal = Signal(
    resolvedCount: nat,
    unresolvedCount: nat,
    humanReplyCount: nat,
    ignoreRequested: bool,
    wrongLanguageRequested: bool,
    falsePositiveRequested: bool,
    laterRequested: bool,
    allowRequested: bool,
    expectedLanguageId: Option<string>)

  // ----- the signal of a list of events ------------------------------------------------------

  predicate IsResolved(e: EventRow)
  {
    e.kind == ResolvedType
  }

  predicate IsUnresolved(e: EventRow)
  {
    e.kind == UnresolvedType
  }

  predicate IsHumanReply(e: EventRow)
  {
    e.kind == ReplyType && e.human
  }

  predicate IsCommand(e: EventRow)
  {
    IsHumanReply(e) && e.command.Some?
  }

  function Time(e: EventRow): nat
  {
    if e.occurredAt.Some? then e.occurredAt.value else 0
  }

  /** The marker of a is at most the marker of b: time, then event key. */
  predicate MarkerLe(a: EventRow, b: EventRow)
  {
    Time(a) < Time(b) || (Time(a) == Time(b) && Le(a.key, b.key))
  }

  /** The command with the greatest marker, the later one in the list on a tie. */
  function Latest(events: seq<EventRow>): (r: Option<EventRow>)
    ensures r.Some? ==> IsCommand(r.value)
  {
    if events == [] then None
    else
      var best := Latest(events[..|events| - 1]);
      var e := events[|events| - 1];
      if IsCommand(e) && (best.None? || MarkerLe(best.value, e)) then Some(e) else best
  }

  predicate Requests(latest: Option<EventRow>, name: string)
    requires latest.Some? ==> IsCommand(latest.value)
  {
    latest.Some? && latest.value.command.value.name == name
  }

  function SignalOf(events: seq<EventRow>): Signal
  {
    var latest := Latest(events);
    Signal(|Filter(events, IsResolved)|, |Filter(events, IsUnresolved)|, |Filter(events, IsHumanReply)|,
           Requests(latest, "ignore"), Requests(latest, "wrong-language"), Requests(latest, "false-positive"),
           Requests(latest, "later"), Requests(latest, "allow"),
           if latest.Some? then latest.value.command.value.languageId else None)
  }

  lemma {:induction false} CountPush(events: seq<EventRow>, i: nat, p: EventRow -> bool)
    requires i < |events|
    ensures |Filter(events[..i + 1], p)| == |Filter(events[..i], p)| + if p(events[i]) then 1 else 0
  {
    assert events[..i + 1] == events[..i] + [events[i]];
    FilterPush(events[..i], events[i], p);
  }

  lemma {:induction false} LatestPush(events: seq<EventRow>, i: nat)
    requires i < |events|
    ensures var best := Latest(events[..i]);
            Latest(events[..i + 1]) ==
            if IsCommand(events[i]) && (best.None? || MarkerLe(best.value, events[i])) then Some(events[i]) else best
  {
    assert events[..i + 1][..i] == events[..i];
  }

  /** The loop over the events. */
  method Tally(events: seq<EventRow>) returns (signal: Signal)
    ensures signal == SignalOf(events)
  {
    var resolved, unresolved, replies := 0, 0, 0;
    var latestCommand: Option<Command> := None;
    var latestMarker: Option<(nat, string)> := None;
    for i := 0 to |events|
      invariant resolved == |Filter(events[..i], IsResolved)|
      invariant unresolved == |Filter(events[..i], IsUnresolved)|
      invariant replies == |Filter(events[..i], IsHumanReply)|
      invariant latestCommand.Some? == latestMarker.Some? == Latest(events[..i]).Some?
      invariant latestCommand.Some? ==> Latest(events[..i]).value.command == latestCommand
      invariant latestMarker.Some? ==>
                  latestMarker.value == (Time(Latest(events[..i]).value), Latest(events[..i]).value.key)
    {
      var e := events[i];
      CountPush(events, i, IsResolved);
      CountPush(events, i, IsUnresolved);
      CountPush(events, i, IsHumanReply);
      LatestPush(events, i);
      if e.kind == ResolvedType {
        resolved := resolved + 1;
      } else if e.kind == UnresolvedType {
        unresolved := unresolved + 1;
      } else if e.kind == ReplyType && e.human {
        replies := replies + 1;
        if e.command.Some? {
          var time := if e.occurredAt.Some? then e.occurredAt.value else 0;
          if latestMarker.None? || latestMarker.value.0 < time
             || (latestMarker.value.0 == time && Le(latestMarker.value.1, e.key)) {
            latestCommand := e.command;
            latestMarker := Some((time, e.key));
          }
        }
      }
    }
    assert events[..|events|] == events;
    var name := if latestCommand.Some? then latestCommand.value.name else "";
    signal :=
      Signal(resolved, unresolved, replies, name == "ignore", name == "wrong-language", name == "false-positive",
             name == "later", name == "allow",
             if latestCommand.Some? then latestCommand.value.languageId else None);
  }

  // ----- the two ways to the events ----------------------------------------------------------

  /** The references of the request's threads for the fingerprint, in row order. */
  function Refs(threads: seq<ThreadRow>, request: string, fingerprint: string): seq<string>
  {
    if threads == [] then []
    else
      var t := threads[|threads| - 1];
      Refs(threads[..|threads| - 1], request, fingerprint)
      + if t.request == request && t.fingerprint == fingerprint then [t.ref] else []
  }

  function On(request: string, ref: string): EventRow -> bool
  {
    (e: EventRow) => e.request == request && e.ref == Some(ref)
  }

  function OnAny(request: string, refs: seq<string>): EventRow -> bool
  {
    (e: EventRow) => e.request == request && e.ref.Some? && e.ref.value in refs
  }

  /** The direct path: the fingerprint's thread references, then the events on any of them. */
  method DirectSignal(threads: seq<ThreadRow>, events: seq<EventRow>, request: string, fingerprint: string)
    returns (signal: Signal)
    ensures signal == SignalOf(Filter(events, OnAny(request, Refs(threads, request, fingerprint))))
  {
    var refs := Refs(threads, request, fingerprint);
    if refs == [] {
      NoneOnNothing(events, request);
      signal := Tally([]);
      return;
    }
    signal := Tally(Filter(events, OnAny(request, refs)));
  }

  lemma {:induction false} NoneOnNothing(events: seq<EventRow>, request: string)
    ensures Filter(events, OnAny(request, [])) == []
  {
    if events != [] {
      NoneOnNothing(events[1..], request);
    }
  }

  /** The cache: thread references by fingerprint, and events by thread reference. */
  datatype Cache = Cache(refs: map<string, seq<string>>, events: map<string, seq<EventRow>>)

  function Lookup<T>(table: map<string, seq<T>>, key: string): seq<T>
  {
    if key in table then table[key] else []
  }

  function RefsIn(cache: Cache, fingerprint: string): seq<string>
  {
    Lookup(cache.refs, fingerprint)
  }

  function EventsIn(cache: Cache, ref: string): seq<EventRow>
  {
    Lookup(cache.events, ref)
  }

  /** The cache answers as the tables do. */
  ghost predicate Answers(cache: Cache, threads: seq<ThreadRow>, events: seq<EventRow>, request: string)
  {
    && (forall f :: RefsIn(cache, f) == Refs(threads, request, f))
    && (forall f, ref :: ref in RefsIn(cache, f) ==> EventsIn(cache, ref) == Filter(events, On(request, ref)))
  }

  method LoadRefs(threads: seq<ThreadRow>, request: string) returns (refs: map<string, seq<string>>)
    ensures forall f :: Lookup(refs, f) == Refs(threads, request, f)
  {
    refs := map[];
    for i := 0 to |threads|
      invariant forall f :: Lookup(refs, f) == Refs(threads[..i], request, f)
    {
      var t := threads[i];
      assert threads[..i + 1][..i] == threads[..i];
      if t.request == request {
        refs := refs[t.fingerprint := (if t.fingerprint in refs then refs[t.fingerprint] else []) + [t.ref]];
      }
    }
    assert threads[..|threads|] == threads;
  }

  lemma {:induction false} EventsPush(events: seq<EventRow>, i: nat, request: string, ref: string)
    requires i < |events|
    ensures Filter(events[..i + 1], On(request, ref)) ==
            Filter(events[..i], On(request, ref)) + if On(request, ref)(events[i]) then [events[i]] else []
  {
    assert events[..i + 1] == events[..i] + [events[i]];
    FilterPush(events[..i], events[i], On(request, ref));
  }

  method LoadEvents(events: seq<EventRow>, request: string, all: set<string>)
    returns (byRef: map<string, seq<EventRow>>)
    ensures forall ref :: ref in all ==> Lookup(byRef, ref) == Filter(events, On(request, ref))
  {
    byRef := map[];
    for i := 0 to |events|
      invariant forall ref :: ref in all ==> Lookup(byRef, ref) == Filter(events[..i], On(request, ref))
    {
      var e := events[i];
      forall ref
        ensures Filter(events[..i + 1], On(request, ref)) ==
                Filter(events[..i], On(request, ref)) + if On(request, ref)(e) then [e] else []
      {
        EventsPush(events, i, request, ref);
      }
      if e.request == request && e.ref.Some? && e.ref.value in all {
        var ref := e.ref.value;
        byRef := byRef[ref := (if ref in byRef then byRef[ref] else []) + [e]];
      }
    }
    assert events[..|events|] == events;
  }

  method LoadFeedbackCache(threads: seq<ThreadRow>, events: seq<EventRow>, request: string) returns (cache: Cache)
    ensures Answers(cache, threads, events, request)
  {
    var refs := LoadRefs(threads, request);
    var all := set f, ref | f in refs && ref in refs[f] :: ref;
    var byRef := LoadEvents(events, request, all);
    cache := Cache(refs, byRef);
  }

  /** The events on each reference in turn. */
  function Gathered(events: seq<EventRow>, request: string, refs: seq<string>): seq<EventRow>
  {
    if refs == [] then []
    else Gathered(events, request, refs[..|refs| - 1]) + Filter(events, On(request, refs[|refs| - 1]))
  }

  method CachedSignal(cache: Cache, fingerprint: string,
                      ghost threads: seq<ThreadRow>, ghost events: seq<EventRow>, ghost request: string)
    returns (signal: Signal)
    requires Answers(cache, threads, events, request)
    ensures signal == SignalOf(Gathered(events, request, Refs(threads, request, fingerprint)))
  {
    var refs := RefsIn(cache, fingerprint);
    var gathered := [];
    for i := 0 to |refs|
      invariant gathered == Gathered(events, request, refs[..i])
    {
      assert refs[i] in RefsIn(cache, fingerprint);
      assert refs[..i + 1][..i] == refs[..i];
      gathered := gathered + EventsIn(cache, refs[i]);
    }
    assert refs[..|refs|] == refs;
    signal := Tally(gathered);
  }

  // ----- the signal forgets the order of the events ------------------------------------------

  lemma {:induction false} MarkerLeTransitive(a: EventRow, b: EventRow, c: EventRow)
    requires MarkerLe(a, b) && MarkerLe(b, c)
    ensures MarkerLe(a, c)
  {
    if Le(a.key, b.key) && Le(b.key, c.key) {
      LeTransitive(a.key, b.key, c.key);
    }
  }

  /** The latest command has no command after it. */
  lemma {:induction false} LatestIsGreatest(events: seq<EventRow>)
    ensures Latest(events).Some? ==> Latest(events).value in events
    ensures forall e :: e in events && IsCommand(e) ==> Latest(events).Some? && MarkerLe(e, Latest(events).value)
  {
    if events != [] {
      var (front, last) := (events[..|events| - 1], events[|events| - 1]);
      LatestIsGreatest(front);
      LeTotal(last.key, last.key);
      assert events == front + [last];
      forall e | e in events && IsCommand(e)
        ensures Latest(events).Some? && MarkerLe(e, Latest(events).value)
      {
        if e in front {
          if Latest(events) == Some(last) {
            MarkerLeTransitive(e, Latest(front).value, last);
          }
        } else if Latest(front).Some? {
          LeTotal(Latest(front).value.key, last.key);
        }
      }
    }
  }

  /** Event keys are unique in the table. */
  ghost predicate UniqueKeys(events: seq<EventRow>)
  {
    forall i, j :: 0 <= i < j < |events| ==> events[i].key != events[j].key
  }

  lemma {:induction false} SameKeySameEvent(events: seq<EventRow>, a: EventRow, b: EventRow)
    requires UniqueKeys(events) && a in events && b in events && a.key == b.key
    ensures a == b
  {
    var i :| 0 <= i < |events| && events[i] == a;
    var j :| 0 <= j < |events| && events[j] == b;
  }

  /** d was made before e: at an earlier time, a missing time being the earliest of all, or at the same time
      under a key that sorts strictly before. */
  predicate MadeBefore(d: EventRow, e: EventRow)
  {
    var (earlier, later) := (if d.occurredAt == None then 0 else d.occurredAt.value,
                             if e.occurredAt == None then 0 else e.occurredAt.value);
    earlier < later || (earlier == later && Le(d.key, e.key) && d.key != e.key)
  }

  /** A human reply that holds a command, and every other such event was made before. */
  ghost predicate IsLastCommand(events: seq<EventRow>, e: EventRow)
  {
    && e in events && e.kind == ReplyType && e.human && e.command.Some?
    && forall d :: d in events && d.kind == ReplyType && d.human && d.command.Some? && d != e ==> MadeBefore(d, e)
  }

  /** The signal asks for what the command asks for, and for nothing else. */
  predicate AsksFor(signal: Signal, command: Command)
  {
    && (signal.ignoreRequested <==> command.name == "ignore")
    && (signal.wrongLanguageRequested <==> command.name == "wrong-language")
    && (signal.falsePositiveRequested <==> command.name == "false-positive")
    && (signal.laterRequested <==> command.name == "later")
    && (signal.allowRequested <==> command.name == "allow")
    && signal.expectedLanguageId == command.languageId
  }

  /** The last command decides: all five flags and the language are its own. */
  lemma {:induction false} LatestCommandDecides(events: seq<EventRow>, e: EventRow)
    requires IsLastCommand(events, e)
    ensures AsksFor(SignalOf(events), e.command.value)
  {
    LatestIsGreatest(events);
    var latest := Latest(events).value;
    assert MarkerLe(e, latest);
    if latest != e {
      assert MadeBefore(latest, e);
      LeAntisymmetric(latest.key, e.key);
    }
  }

  /** Without a command nothing is requested, and with unique keys there is a last command otherwise. */
  lemma {:induction false} SomeCommandDecides(events: seq<EventRow>) returns (e: EventRow)
    requires UniqueKeys(events) && exists d :: d in events && d.kind == ReplyType && d.human && d.command.Some?
    ensures IsLastCommand(events, e)
  {
    LatestIsGreatest(events);
    var d :| d in events && d.kind == ReplyType && d.human && d.command.Some?;
    assert IsCommand(d);
    e := Latest(events).value;
    forall c | c in events && c.kind == ReplyType && c.human && c.command.Some? && c != e
      ensures MadeBefore(c, e)
    {
      assert IsCommand(c) && MarkerLe(c, e);
      if c.key == e.key {
        SameKeySameEvent(events, c, e);
      }
    }
  }

  lemma {:induction false} NoCommandNoRequest(events: seq<EventRow>)
    requires forall d :: d in events && d.kind == ReplyType && d.human ==> d.command.None?
    ensures var s := SignalOf(events);
            && !s.ignoreRequested && !s.wrongLanguageRequested && !s.falsePositiveRequested && !s.laterRequested
            && !s.allowRequested && s.expectedLanguageId == None
  {
    LatestIsGreatest(events);
  }

  /** The counts: every event of each kind counts, and of the replies the human ones. */
  lemma {:induction false} SignalCounts(events: seq<EventRow>, e: EventRow)
    ensures var (before, after) := (SignalOf(events), SignalOf(events + [e]));
            && after.resolvedCount == before.resolvedCount + (if e.kind == ResolvedType then 1 else 0)
            && after.unresolvedCount == before.unresolvedCount + (if e.kind == UnresolvedType then 1 else 0)
            && after.humanReplyCount == before.humanReplyCount + (if e.kind == ReplyType && e.human then 1 else 0)
  {
    FilterPush(events, e, IsResolved);
    FilterPush(events, e, IsUnresolved);
    FilterPush(events, e, IsHumanReply);
  }

  /** The signal depends on which events there are, not on the order they are read in. */
  lemma {:induction false} SignalForgetsOrder(xs: seq<EventRow>, ys: seq<EventRow>)
    requires multiset(xs) == multiset(ys) && UniqueKeys(xs)
    ensures SignalOf(xs) == SignalOf(ys)
  {
    FilterPermutes(xs, ys, IsResolved);
    FilterPermutes(xs, ys, IsUnresolved);
    FilterPermutes(xs, ys, IsHumanReply);
    SameElements(xs, ys);
    LatestIsGreatest(xs);
    LatestIsGreatest(ys);
    if Latest(xs).Some? {
      LeAntisymmetric(Latest(xs).value.key, Latest(ys).value.key);
      SameKeySameEvent(xs, Latest(xs).value, Latest(ys).value);
    }
  }

  // ----- cached equals direct ----------------------------------------------------------------

  ghost predicate Distinct<T(!new)>(xs: seq<T>)
  {
    forall i, j :: 0 <= i < j < |xs| ==> xs[i] != xs[j]
  }

  /** Thread references are unique in the table. */
  ghost predicate UniqueThreads(threads: seq<ThreadRow>)
  {
    forall i, j :: 0 <= i < j < |threads| ==> threads[i].ref != threads[j].ref
  }

  lemma {:induction false} RefsAre(threads: seq<ThreadRow>, request: string, fingerprint: string)
    ensures forall ref :: ref in Refs(threads, request, fingerprint) <==>
            ThreadRow(request, fingerprint, ref) in threads
    ensures UniqueThreads(threads) ==> Distinct(Refs(threads, request, fingerprint))
  {
    if threads != [] {
      var (front, last) := (threads[..|threads| - 1], threads[|threads| - 1]);
      RefsAre(front, request, fingerprint);
      assert threads == front + [last];
      var refs := Refs(front, request, fingerprint);
      forall k | 0 <= k < |refs|
        ensures ThreadRow(request, fingerprint, refs[k]) in front
      {
        assert refs[k] in refs;
      }
    }
  }

  /** Reading the distinct references one at a time finds each event as often as reading them at once. */
  lemma {:induction false} GatheredMultiplicity(events: seq<EventRow>, request: string, refs: seq<string>, e: EventRow)
    requires Distinct(refs)
    ensures multiset(Gathered(events, request, refs))[e] == if OnAny(request, refs)(e) then multiset(events)[e] else 0
  {
    if refs != [] {
      var (front, last) := (refs[..|refs| - 1], refs[|refs| - 1]);
      GatheredMultiplicity(events, request, front, e);
      FilterMultiplicity(events, On(request, last), e);
      assert refs == front + [last];
      assert last !in front;
    }
  }

  lemma {:induction false} FilterKeepsKeysUnique(events: seq<EventRow>, p: EventRow -> bool)
    requires UniqueKeys(events)
    ensures UniqueKeys(Filter(events, p))
  {
    if events != [] {
      FilterKeepsKeysUnique(events[1..], p);
      FilterElements(events[1..], p);
      var rest := Filter(events[1..], p);
      forall k | 0 <= k < |rest|
        ensures rest[k].key != events[0].key
      {
        assert rest[k] in rest;
        assert rest[k] in events[1..];
      }
    }
  }

  /** Both paths give the same signal, whatever order the rows of each query come in. */
  lemma {:induction false} CachedEqualsDirect(threads: seq<ThreadRow>, events: seq<EventRow>,
                           threads': seq<ThreadRow>, events': seq<EventRow>, request: string, fingerprint: string)
    requires multiset(threads) == multiset(threads') && UniqueThreads(threads)
    requires multiset(events) == multiset(events') && UniqueKeys(events')
    ensures SignalOf(Gathered(events, request, Refs(threads, request, fingerprint))) ==
            SignalOf(Filter(events', OnAny(request, Refs(threads', request, fingerprint))))
  {
    var (refs, refs') := (Refs(threads, request, fingerprint), Refs(threads', request, fingerprint));
    RefsAre(threads, request, fingerprint);
    RefsAre(threads', request, fingerprint);
    SameElements(threads, threads');
    var (gathered, direct) := (Gathered(events, request, refs), Filter(events', OnAny(request, refs')));
    forall e
      ensures multiset(gathered)[e] == multiset(direct)[e]
    {
      GatheredMultiplicity(events, request, refs, e);
      FilterMultiplicity(events', OnAny(request, refs'), e);
    }
    assert multiset(gathered) == multiset(direct);
    FilterKeepsKeysUnique(events', OnAny(request, refs'));
    SignalForgetsOrder(direct, gathered);
  }

  /** What both paths read: the request's events on the threads the request has for the fingerprint. */
  ghost predicate Concerns(e: EventRow, threads: seq<ThreadRow>, request: string, fingerprint: string)
  {
    e.request == request && e.ref.Some? && ThreadRow(request, fingerprint, e.ref.value) in threads
  }

  lemma {:induction false} GatheredAre(events: seq<EventRow>, request: string, refs: seq<string>, e: EventRow)
    ensures e in Gathered(events, request, refs) <==>
            e in events && e.request == request && e.ref.Some? && e.ref.value in refs
  {
    if refs != [] {
      var (front, last) := (refs[..|refs| - 1], refs[|refs| - 1]);
      GatheredAre(events, request, front, e);
      FilterElements(events, On(request, last));
      assert refs == front + [last];
    }
  }

  lemma {:induction false} BothPathsRead(threads: seq<ThreadRow>, events: seq<EventRow>, request: string,
                                         fingerprint: string, e: EventRow)
    ensures var refs := Refs(threads, request, fingerprint);
            && (e in Filter(events, OnAny(request, refs)) <==>
                  e in events && Concerns(e, threads, request, fingerprint))
            && (e in Gathered(events, request, refs) <==>
                  e in events && Concerns(e, threads, request, fingerprint))
  {
    var refs := Refs(threads, request, fingerprint);
    RefsAre(threads, request, fingerprint);
    FilterElements(events, OnAny(request, refs));
    GatheredAre(events, request, refs, e);
  }

  /** On either path, the last command given on any of the finding's threads decides what is asked for. */
  lemma {:induction false} LastCommandOnTheFindingDecides(threads: seq<ThreadRow>, events: seq<EventRow>,
                                                          request: string, fingerprint: string, e: EventRow)
    requires e in events && Concerns(e, threads, request, fingerprint)
    requires e.kind == ReplyType && e.human && e.command.Some?
    requires forall d ::
               d in events && Concerns(d, threads, request, fingerprint) && d.kind == ReplyType && d.human
               && d.command.Some? && d != e
               ==> MadeBefore(d, e)
    ensures var refs := Refs(threads, request, fingerprint);
            && AsksFor(SignalOf(Filter(events, OnAny(request, refs))), e.command.value)
            && AsksFor(SignalOf(Gathered(events, request, refs)), e.command.value)
  {
    var refs := Refs(threads, request, fingerprint);
    forall d
      ensures d in Filter(events, OnAny(request, refs)) <==> d in events && Concerns(d, threads, request, fingerprint)
      ensures d in Gathered(events, request, refs) <==> d in events && Concerns(d, threads, request, fingerprint)
    {
      BothPathsRead(threads, events, request, fingerprint, d);
    }
    LatestCommandDecides(Filter(events, OnAny(request, refs)), e);
    LatestCommandDecides(Gathered(events, request, refs), e);
  }

  /** Were a reference to appear twice, the cache would count its events twice: the uniqueness of
      thread references is what the agreement rests on. */
  lemma {:induction false} RepeatedReferencesAreCountedTwice(e: EventRow, request: string, ref: string)
    requires On(request, ref)(e) && e.kind == ResolvedType
    ensures SignalOf(Gathered([e], request, [ref, ref])).resolvedCount == 2
    ensures SignalOf(Filter([e], OnAny(request, [ref, ref]))).resolvedCount == 1
  {
    assert [e][1..] == [];
    assert [ref, ref][..1] == [ref] && [ref][..0] == [];
    assert Filter([e], On(request, ref)) == [e];
    assert Gathered([e], request, [ref]) == [] + [e] == [e];
    assert Gathered([e], request, [ref, ref]) == [e] + [e] == [e, e];
    assert [e, e][1..] == [e];
    assert Filter([e], OnAny(request, [ref, ref])) == [e];
    FilterPush([], e, IsResolved);
    FilterPush([e], e, IsResolved);
    assert [] + [e] == [e] && [e] + [e] == [e, e];
  }
}
