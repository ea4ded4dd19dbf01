/** The background retention pass, which reads its records without the mutation lock, beside
    ingests that hold the lock. Every file-system step is a step of its own. */
module BackgroundRetention {
  import opened Outcomes
  import opened Sums
  import opened Events
  import opened EventOrder
  import opened Retention
  import opened Answers
  import opened StoreIndex
  import opened EventStore

  /** How far the ingest that holds the lock has got with its event. */
  datatype Stage = Started | Written | Indexed | Bumped

  datatype Lock = Free | ByIngest(ev: Event, stage: Stage) | ByPass

  /** The pass: walking the event files (those in `mustSee` were there when the walk began),
      holding a sorted record list, holding the lock with it, cleared to act on it, or ended. */
  datatype Pass =
    | Idle
    | Walking(mustSee: set<string>, seen: seq<Event>)
    | Waiting(records: seq<Event>)
    | Holding(records: seq<Event>)
    | Approved(records: seq<Event>)
    | Ended(outcome: PassOutcome)

  /** `described` is the set of events that the index files, pointers and tombstones describe. */
  datatype System = System(
    events: map<string, Event>,
    described: set<Event>,
    stats: Option<Totals>,
    lock: Lock,
    pass: Pass)

  datatype Step =
    | Acquire(ev: Event) | WriteFile | Describe | Bump | Release
    | StartWalk | See(id: string) | EndWalk
    | TryLock | Compare | Apply(removed: nat)

  function RecordTotals(config: Config, records: seq<Event>): Totals {
    Totals(|records|, SeqSum(config.size, records))
  }

  ghost predicate Enabled(config: Config, s: System, step: Step) {
    match step
    case Acquire(ev) => s.lock == Free && |ev.id| >= 4
    case WriteFile => s.lock.ByIngest? && s.lock.stage == Started && s.lock.ev.id !in s.events
    case Describe => s.lock.ByIngest? && s.lock.stage == Written
    case Bump => s.lock.ByIngest? && s.lock.stage == Indexed
    case Release => s.lock.ByIngest? && (s.lock.stage == Bumped || (s.lock.stage == Started && s.lock.ev.id in s.events))
    case StartWalk => s.pass == Idle
    case See(id) => s.pass.Walking? && id in s.events && s.events[id] !in s.pass.seen
    case EndWalk => s.pass.Walking? && forall id :: id in s.pass.mustSee ==> id in s.events && s.events[id] in s.pass.seen
    case TryLock => s.pass.Waiting?
    case Compare => s.pass.Holding?
    case Apply(k) => s.pass.Approved? && IsCut(config.caps, config.size, config.Protection(), s.pass.records, k)
  }

  /** The files left when those of the dropped records are removed. */
  function WithoutDropped(events: map<string, Event>, records: seq<Event>, kept: seq<Event>): map<string, Event> {
    map id | id in events && (events[id] in records ==> events[id] in kept) :: events[id]
  }

  ghost function Do(config: Config, s: System, step: Step): System
    requires Enabled(config, s, step)
  {
    match step
    case Acquire(ev) => s.(lock := ByIngest(ev, Started))
    case WriteFile => s.(events := s.events[s.lock.ev.id := s.lock.ev], lock := s.lock.(stage := Written))
    case Describe => s.(described := s.described + {s.lock.ev}, lock := s.lock.(stage := Indexed))
    case Bump =>
      s.(lock := s.lock.(stage := Bumped),
         stats := if s.stats.Some? then Some(Totals(s.stats.value.count + 1, s.stats.value.bytes + config.size(s.lock.ev))) else None)
    case Release => s.(lock := Free)
    case StartWalk => s.(pass := Walking(s.events.Keys, []))
    case See(id) => s.(pass := s.pass.(seen := s.pass.seen + [s.events[id]]))
    case EndWalk =>
      var records := SortEvents(false, s.pass.seen);
      s.(pass := if config.caps.Over(config.size, records) then Waiting(records) else Ended(WithinLimits))
    case TryLock =>
      if s.lock == Free then s.(lock := ByPass, pass := Holding(s.pass.records)) else s.(pass := Ended(Busy))
    case Compare =>
      if s.stats.Some? && s.stats.value != RecordTotals(config, s.pass.records)
      then s.(lock := Free, pass := Ended(Changed))
      else s.(pass := Approved(s.pass.records))
    case Apply(k) =>
      var kept := AfterRemoving(config.Protection(), s.pass.records, k);
      System(
        WithoutDropped(s.events, s.pass.records, kept),
        if k > 0 then Elems(kept) else s.described,
        Some(RecordTotals(config, kept)),
        Free,
        Ended(Applied(k)))
  }

  /** A store at rest, its stats cache present and exact, and no pass under way. */
  ghost predicate AtRest(config: Config, s: System) {
    && KeyedById(s.events) && s.described == s.events.Values && s.lock == Free && s.pass == Idle
    && s.stats == Some(TrueTotals(config, s.events))
  }

  ghost predicate Run(config: Config, trace: seq<System>, steps: seq<Step>) {
    && |trace| == |steps| + 1
    && forall i :: 0 <= i < |steps| ==> Moves(config, trace[i], steps[i], trace[i + 1])
  }

  ghost predicate Moves(config: Config, s: System, step: Step, t: System) {
    Enabled(config, s, step) && t == Do(config, s, step)
  }

  // ------------------------------------------------------------- the invariant

  /** What the index files describe, as far as the ingest that holds the lock has got. */
  ghost predicate Describes(s: System) {
    if s.lock.ByIngest? then
      && |s.lock.ev.id| >= 4
      && (s.lock.stage == Written || s.lock.stage == Indexed ==> s.lock.ev.id in s.events && s.events[s.lock.ev.id] == s.lock.ev)
      && s.described == if s.lock.stage == Written then (s.events - {s.lock.ev.id}).Values else s.events.Values
    else s.described == s.events.Values
  }

  /** The events that the cache counts: all, but the one that an ingest has written and not yet counted. */
  function Counted(s: System): map<string, Event> {
    if s.lock.ByIngest? && (s.lock.stage == Written || s.lock.stage == Indexed) then s.events - {s.lock.ev.id} else s.events
  }

  ghost predicate CacheExact(config: Config, s: System) {
    s.stats == Some(TrueTotals(config, Counted(s)))
  }

  /** Whatever the pass has read is still stored: only the pass itself removes events. */
  ghost predicate PassConsistent(s: System) {
    match s.pass
    case Idle => s.lock != ByPass
    case Walking(_, seen) => s.lock != ByPass && DistinctIds(seen) && Elems(seen) <= s.events.Values
    case Waiting(records) => s.lock != ByPass && Sorted(false, records) && Elems(records) <= s.events.Values
    case Holding(records) => s.lock == ByPass && Sorted(false, records) && Elems(records) <= s.events.Values
    case Approved(records) => s.lock == ByPass && Sorted(false, records) && Elems(records) <= s.events.Values
    case Ended(_) => s.lock != ByPass
  }

  /** What holds with a cache or without one, until the pass acts. */
  ghost predicate Grounded(s: System) {
    KeyedById(s.events) && Describes(s) && PassConsistent(s)
  }

  ghost predicate Inv(config: Config, s: System) {
    Grounded(s) && CacheExact(config, s) && (s.pass.Approved? ==> Elems(s.pass.records) == s.events.Values)
  }

  lemma StaysGrounded(config: Config, s: System, step: Step)
    requires Grounded(s) && Enabled(config, s, step) && !step.Apply?
    ensures Grounded(Do(config, s, step))
  {
    match step
    case WriteFile => WriteStaysGrounded(config, s);
    case Describe => DescribeStaysGrounded(config, s);
    case See(id) => WalkStaysGrounded(config, s, step);
    case EndWalk => WalkStaysGrounded(config, s, step);
    case _ => hide KeyedById, Sorted, DistinctIds, Elems;
  }

  lemma WriteStaysGrounded(config: Config, s: System)
    requires Grounded(s) && Enabled(config, s, WriteFile)
    ensures Grounded(Do(config, s, WriteFile))
  {
    var ev := s.lock.ev;
    StoreOne(s.events, ev);
    PutBack(s.events, ev);
    hide KeyedById, Sorted, DistinctIds;
    assert s.events.Values <= Do(config, s, WriteFile).events.Values;
    hide Elems;
  }

  lemma DescribeStaysGrounded(config: Config, s: System)
    requires Grounded(s) && Enabled(config, s, Describe)
    ensures Grounded(Do(config, s, Describe))
  {
    RemoveOne(s.events, s.lock.ev);
    assert s.lock.ev in s.events.Values;
    hide KeyedById, Sorted, DistinctIds, Elems;
  }

  lemma WalkStaysGrounded(config: Config, s: System, step: Step)
    requires Grounded(s) && Enabled(config, s, step) && (step.See? || step.EndWalk?)
    ensures Grounded(Do(config, s, step))
  {
    if step.See? {
      StoredFacts(s.events);
      assert s.events[step.id] in s.events.Values;
      forall e | e in s.pass.seen ensures e.id != step.id { assert e in Elems(s.pass.seen); }
    } else {
      SortSorts(false, s.pass.seen);
    }
  }

  /** Most steps leave alone what the cache counts. */
  lemma CountedSame(config: Config, s: System, step: Step)
    requires Enabled(config, s, step) && !step.WriteFile? && !step.Bump? && !step.Apply? && !step.Compare?
    ensures var t := Do(config, s, step);
      Counted(t) == Counted(s) && t.stats == s.stats && t.events == s.events && (t.pass.Approved? ==> t.pass == s.pass)
  {
  }

  lemma InvStep(config: Config, s: System, step: Step)
    requires Inv(config, s) && Enabled(config, s, step)
    ensures Inv(config, Do(config, s, step))
  {
    match step
    case Compare => CompareKeepsInv(config, s);
    case Apply(k) => ApplyKeepsInv(config, s, k);
    case Bump => BumpKeepsInv(config, s);
    case WriteFile => WriteKeepsInv(config, s);
    case _ =>
      StaysGrounded(config, s, step);
      CountedSame(config, s, step);
      hide *;
      AlikeKeepsInv(config, s, Do(config, s, step));
  }

  lemma AlikeKeepsInv(config: Config, s: System, t: System)
    requires Inv(config, s) && Grounded(t)
    requires Counted(t) == Counted(s) && t.stats == s.stats && t.events == s.events && (t.pass.Approved? ==> t.pass == s.pass)
    ensures Inv(config, t)
  {
  }

  lemma WriteKeepsInv(config: Config, s: System)
    requires Inv(config, s) && Enabled(config, s, WriteFile)
    ensures Inv(config, Do(config, s, WriteFile))
  {
    WriteStaysGrounded(config, s);
    PutBack(s.events, s.lock.ev);
    hide TrueTotals;
  }

  lemma PutBack(events: map<string, Event>, ev: Event)
    requires ev.id !in events
    ensures events[ev.id := ev] - {ev.id} == events
  {
  }

  lemma BumpKeepsInv(config: Config, s: System)
    requires Inv(config, s) && Enabled(config, s, Bump)
    ensures Inv(config, Do(config, s, Bump))
  {
    StaysGrounded(config, s, Bump);
    OneBack(config, s.events, s.lock.ev);
    hide Grounded, TrueTotals;
  }

  lemma OneBack(config: Config, events: map<string, Event>, ev: Event)
    requires KeyedById(events) && ev.id in events && events[ev.id] == ev
    ensures TrueTotals(config, events) ==
      Totals(TrueTotals(config, events - {ev.id}).count + 1, TrueTotals(config, events - {ev.id}).bytes + config.size(ev))
  {
    RemoveOne(events, ev);
    TotalsGrow(config.size, events - {ev.id}, ev);
    TakePut(events, ev);
    hide KeyedById;
  }

  lemma TakePut(events: map<string, Event>, ev: Event)
    requires ev.id in events && events[ev.id] == ev
    ensures (events - {ev.id})[ev.id := ev] == events
  {
  }

  /** Matching counts on a subset leave nothing out. */
  lemma CompareKeepsInv(config: Config, s: System)
    requires Inv(config, s) && Enabled(config, s, Compare)
    ensures Inv(config, Do(config, s, Compare))
    ensures Do(config, s, Compare).pass.Approved? <==> Elems(s.pass.records) == s.events.Values
  {
    var records := s.pass.records;
    StoredFacts(s.events);
    SortedFacts(false, records);
    SeqSumIsSetSum(config.size, records);
    SubsetOfEqualSize(Elems(records), s.events.Values);
  }

  lemma ApplyKeepsInv(config: Config, s: System, k: nat)
    requires Inv(config, s) && Enabled(config, s, Apply(k))
    ensures Inv(config, Do(config, s, Apply(k)))
    ensures Do(config, s, Apply(k)).events.Values == Elems(AfterRemoving(config.Protection(), s.pass.records, k))
  {
    var records := s.pass.records;
    var kept := AfterRemoving(config.Protection(), records, k);
    var left := WithoutDropped(s.events, records, kept);
    KeptSorted(config.Protection(), records, k);
    LeftAreKept(s.events, records, kept);
    StoredFacts(left);
    SortedFacts(false, kept);
    SeqSumIsSetSum(config.size, kept);
    if k == 0 {
      RemovingNone(config.Protection(), records);
    }
  }

  lemma LeftAreKept(events: map<string, Event>, records: seq<Event>, kept: seq<Event>)
    requires KeyedById(events) && Elems(records) == events.Values && Elems(kept) <= Elems(records)
    ensures KeyedById(WithoutDropped(events, records, kept))
    ensures WithoutDropped(events, records, kept).Values == Elems(kept)
  {
    var left := WithoutDropped(events, records, kept);
    forall e | e in left.Values ensures e in Elems(kept) {
      var id :| id in left && left[id] == e;
      assert events[id] in Elems(records);
    }
    forall e | e in Elems(kept) ensures e in left.Values {
      assert e in events.Values;
      var id :| id in events && events[id] == e;
      assert id in left && left[id] == e;
    }
  }

  lemma {:induction false} InvAlways(config: Config, trace: seq<System>, steps: seq<Step>, i: nat)
    requires Run(config, trace, steps) && AtRest(config, trace[0]) && i < |trace|
    ensures Inv(config, trace[i])
  {
    if i > 0 {
      InvAlways(config, trace, steps, i - 1);
      assert Moves(config, trace[i - 1], steps[i - 1], trace[i]);
      InvStep(config, trace[i - 1], steps[i - 1]);
      hide Enabled, Do, Inv;
    }
  }

  // ---------------------------------------------------------------- the claims

  /** In every interleaving, a pass cleared to act holds exactly the current events, and what it
      leaves behind is described completely: no event ingested meanwhile is lost from the indexes. */
  lemma PassIsSound(config: Config, trace: seq<System>, steps: seq<Step>, i: nat)
    requires Run(config, trace, steps) && AtRest(config, trace[0]) && i < |steps|
    ensures trace[i].pass.Approved? ==> Elems(trace[i].pass.records) == trace[i].events.Values
    ensures steps[i].Compare? ==>
      (trace[i + 1].pass.Approved? <==> Elems(trace[i].pass.records) == trace[i].events.Values)
    ensures trace[i].lock == Free ==>
      trace[i].described == trace[i].events.Values && trace[i].stats == Some(TrueTotals(config, trace[i].events))
    ensures steps[i].Apply? ==>
      && trace[i + 1].events.Values == Elems(AfterRemoving(config.Protection(), trace[i].pass.records, steps[i].removed))
      && trace[i + 1].described == trace[i + 1].events.Values
      && PrunedBy(config.caps, config.size, config.Protection(),
                  trace[i].events.Values, trace[i + 1].events.Values, steps[i].removed)
    ensures steps[i].EndWalk? ==>
      && trace[i].pass.Walking?
      && var seen := Elems(trace[i].pass.seen);
      && (trace[i + 1].pass == Ended(WithinLimits) <==> WithinCaps(config.caps, |seen|, SetSum(config.size, seen)))
      && (trace[i + 1].pass.Waiting? <==> !WithinCaps(config.caps, |seen|, SetSum(config.size, seen)))
  {
    InvAlways(config, trace, steps, i);
    InvAlways(config, trace, steps, i + 1);
    assert Moves(config, trace[i], steps[i], trace[i + 1]);
    if steps[i].Apply? {
      ApplyKeepsInv(config, trace[i], steps[i].removed);
      CutInNumbers(config.caps, config.size, config.Protection(), trace[i].pass.records, steps[i].removed);
    } else if steps[i].EndWalk? {
      SortSorts(false, trace[i].pass.seen);
      SortedTotals(config.size, SortEvents(false, trace[i].pass.seen));
    } else if steps[i].Compare? {
      CompareKeepsInv(config, trace[i]);
    }
  }

  /** The same, for a store that has no stats cache yet. */
  ghost predicate AtRestUncached(s: System) {
    KeyedById(s.events) && s.described == s.events.Values && s.lock == Free && s.pass == Idle && s.stats == None
  }

  predicate Acted(s: System) {
    s.pass.Ended? && s.pass.outcome.Applied?
  }

  lemma UncachedStep(config: Config, s: System, step: Step)
    requires Enabled(config, s, step)
    ensures Acted(s) ==> !step.Apply? && Acted(Do(config, s, step))
    ensures step.Apply? ==> Acted(Do(config, s, step))
    ensures !step.Apply? && s.stats == None ==> Do(config, s, step).stats == None
  {
  }

  lemma {:induction false} UncachedAlways(config: Config, trace: seq<System>, steps: seq<Step>, i: nat)
    requires Run(config, trace, steps) && AtRestUncached(trace[0]) && i < |trace|
    ensures Acted(trace[i]) || (Grounded(trace[i]) && trace[i].stats == None)
  {
    if i > 0 {
      UncachedAlways(config, trace, steps, i - 1);
      assert Moves(config, trace[i - 1], steps[i - 1], trace[i]);
      UncachedStep(config, trace[i - 1], steps[i - 1]);
      if !Acted(trace[i]) {
        StaysGrounded(config, trace[i - 1], steps[i - 1]);
      }
      hide Enabled, Do, Grounded, Acted;
    }
  }

  /** Without a stats cache the comparison is skipped. In every run from rest, the totals the pass then
      writes are true exactly when it happened to hold every current event; and if it removes something,
      that is also exactly when it leaves a complete description. */
  lemma UncheckedPassSoundIff(config: Config, trace: seq<System>, steps: seq<Step>, i: nat)
    requires Run(config, trace, steps) && AtRestUncached(trace[0]) && i < |steps| && steps[i].Apply?
    ensures var s, t, k := trace[i], trace[i + 1], steps[i].removed;
      && s.pass.Approved? && s.stats == None
      && (t.stats == Some(TrueTotals(config, t.events)) <==> Elems(s.pass.records) == s.events.Values)
      && (k > 0 ==> (t.described == t.events.Values <==> Elems(s.pass.records) == s.events.Values))
      && (k == 0 ==> t.events == s.events && t.described == t.events.Values)
  {
    assert Moves(config, trace[i], steps[i], trace[i + 1]);
    UncachedAlways(config, trace, steps, i);
    UncachedStep(config, trace[i], steps[i]);
    assert Grounded(trace[i]) && trace[i].stats == None;
    ApplyUncheckedIff(config, trace[i], steps[i].removed);
    hide Do;
  }

  lemma ApplyUncheckedIff(config: Config, s: System, k: nat)
    requires Grounded(s) && s.stats == None && Enabled(config, s, Apply(k))
    ensures var t := Do(config, s, Apply(k));
      && (t.stats == Some(TrueTotals(config, t.events)) <==> Elems(s.pass.records) == s.events.Values)
      && (k > 0 ==> (t.described == t.events.Values <==> Elems(s.pass.records) == s.events.Values))
      && (k == 0 ==> t.events == s.events && t.described == t.events.Values)
  {
    LeftOverIff(config, s.events, s.pass.records, k);
    hide KeyedById, Sorted, IsCut, TrueTotals, RecordTotals, AfterRemoving, WithoutDropped, Elems;
  }

  lemma LeftOverIff(config: Config, events: map<string, Event>, records: seq<Event>, k: nat)
    requires KeyedById(events) && Sorted(false, records) && Elems(records) <= events.Values
    ensures var kept := AfterRemoving(config.Protection(), records, k);
      var left := WithoutDropped(events, records, kept);
      && (RecordTotals(config, kept) == TrueTotals(config, left) <==> Elems(records) == events.Values)
      && (Elems(kept) == left.Values <==> Elems(records) == events.Values)
      && (k == 0 ==> left == events)
  {
    var kept := AfterRemoving(config.Protection(), records, k);
    var left := WithoutDropped(events, records, kept);
    KeptSorted(config.Protection(), records, k);
    SortedFacts(false, kept);
    SeqSumIsSetSum(config.size, kept);
    LeftKeyed(events, records, kept);
    if k == 0 {
      RemovingNone(config.Protection(), records);
    }
    if Elems(records) == events.Values {
      LeftAreKept(events, records, kept);
    } else {
      UnseenIsLeft(events, records, kept);
      SubsetOfEqualSize(Elems(kept), left.Values);
    }
    hide KeyedById, Elems, AfterRemoving, WithoutDropped;
  }

  lemma UnseenIsLeft(events: map<string, Event>, records: seq<Event>, kept: seq<Event>)
    requires Elems(records) <= events.Values && Elems(records) != events.Values && Elems(kept) <= Elems(records)
    ensures Elems(kept) != WithoutDropped(events, records, kept).Values
  {
    var e :| e in events.Values && e !in Elems(records);
    var id :| id in events && events[id] == e;
    assert id in WithoutDropped(events, records, kept) && WithoutDropped(events, records, kept)[id] == e;
  }

  lemma LeftKeyed(events: map<string, Event>, records: seq<Event>, kept: seq<Event>)
    requires KeyedById(events) && Elems(records) <= events.Values && Elems(kept) <= Elems(records)
    ensures KeyedById(WithoutDropped(events, records, kept))
    ensures Elems(kept) <= WithoutDropped(events, records, kept).Values
    ensures |WithoutDropped(events, records, kept)| == |WithoutDropped(events, records, kept).Values|
  {
    var left := WithoutDropped(events, records, kept);
    StoredFacts(left);
    forall e | e in Elems(kept) ensures e in left.Values {
      assert e in events.Values;
      var id :| id in events && events[id] == e;
      assert id in left && left[id] == e;
    }
  }

  /** That does happen: the pass walks two events, a third arrives before it takes the lock, and
      with no cache to compare against it rebuilds the indexes without the third. */
  lemma LateEventLost(config: Config, a: Event, b: Event, late: Event) returns (steps: seq<Step>, trace: seq<System>)
    requires config.caps == Caps(Some(1), None) && config.pinnedPubkeys == {} && config.pinnedIds == {}
    requires |a.id| >= 4 && |b.id| >= 4 && |late.id| >= 4
    requires Older(a, b) && a.id != b.id && late.id != a.id && late.id != b.id
    ensures Run(config, trace, steps) && AtRestUncached(trace[0])
    ensures trace[0] == System(map[a.id := a, b.id := b], {a, b}, None, Free, Idle)
    ensures var last := trace[|trace| - 1];
      && last.lock == Free && late.id in last.events && last.events[late.id] == late && late !in last.described
      && last.stats.Some? && last.stats.value.count < |last.events|
  {
    var files := map[a.id := a, b.id := b];
    var walk := LateWalk(config, a, b, files);
    var ingest := LateIngest(config, walk[4], late);
    var act := LatePass(config, ingest[5], a, b);
    TwoFiles(a, b);
    assert AtRestUncached(walk[0]);
    hide *;
    var first, second, third := [StartWalk, See(a.id), See(b.id), EndWalk], [Acquire(late), WriteFile, Describe, Bump, Release],
                                [TryLock, Compare, Apply(1)];
    Joined(config, walk, first, ingest, second);
    Joined(config, walk + ingest[1..], first + second, act, third);
    trace, steps := walk + ingest[1..] + act[1..], first + second + third;
    assert trace[12] == act[3];
    LateSurvives(files[late.id := late], a, b, late);
  }

  lemma Joined(config: Config, a: seq<System>, steps: seq<Step>, b: seq<System>, more: seq<Step>)
    requires Run(config, a, steps) && Run(config, b, more) && a[|steps|] == b[0]
    ensures Run(config, a + b[1..], steps + more)
  {
    hide Moves;
    var trace, all := a + b[1..], steps + more;
    forall i | 0 <= i < |all| ensures Moves(config, trace[i], all[i], trace[i + 1]) {
      if i >= |steps| {
        assert Moves(config, b[i - |steps|], more[i - |steps|], b[i - |steps| + 1]);
      } else {
        assert Moves(config, a[i], steps[i], a[i + 1]);
      }
    }
  }

  lemma TwoFiles(a: Event, b: Event)
    requires a.id != b.id
    ensures map[a.id := a, b.id := b].Values == {a, b}
  {
    var files := map[a.id := a, b.id := b];
    assert files[a.id] in files.Values && files[b.id] in files.Values;
  }

  lemma LateWalk(config: Config, a: Event, b: Event, files: map<string, Event>) returns (t: seq<System>)
    requires config.caps == Caps(Some(1), None)
    requires Older(a, b) && a.id != b.id && files == map[a.id := a, b.id := b]
    ensures t != [] && t[0] == System(files, {a, b}, None, Free, Idle)
    ensures Run(config, t, [StartWalk, See(a.id), See(b.id), EndWalk])
    ensures t[4] == System(files, {a, b}, None, Free, Waiting([a, b]))
  {
    var s := System(files, {a, b}, None, Free, Idle);
    SortedPair(a, b);
    OlderStrict(a, b);
    assert [] + [files[a.id]] == [a] && [a] + [files[b.id]] == [a, b];
    t := [s, s.(pass := Walking(files.Keys, [])), s.(pass := Walking(files.Keys, [a])),
          s.(pass := Walking(files.Keys, [a, b])), s.(pass := Waiting([a, b]))];
  }

  lemma LateIngest(config: Config, s: System, late: Event) returns (t: seq<System>)
    requires s.lock == Free && s.stats == None && |late.id| >= 4 && late.id !in s.events
    ensures Run(config, t, [Acquire(late), WriteFile, Describe, Bump, Release]) && t[0] == s
    ensures t[5] == s.(events := s.events[late.id := late], described := s.described + {late})
  {
    var written := s.(events := s.events[late.id := late]);
    var described := written.(described := s.described + {late});
    t := [s, s.(lock := ByIngest(late, Started)), written.(lock := ByIngest(late, Written)),
          described.(lock := ByIngest(late, Indexed)), described.(lock := ByIngest(late, Bumped)), described];
  }

  lemma LatePass(config: Config, s: System, a: Event, b: Event) returns (t: seq<System>)
    requires config.caps == Caps(Some(1), None) && config.pinnedPubkeys == {} && config.pinnedIds == {}
    requires s.lock == Free && s.stats == None && s.pass == Waiting([a, b])
    ensures Run(config, t, [TryLock, Compare, Apply(1)]) && t[0] == s
    ensures t[3].lock == Free && t[3].described == {b} && t[3].events == WithoutDropped(s.events, [a, b], [b])
    ensures t[3].stats.Some? && t[3].stats.value.count == 1
  {
    OneGoes(config, a, b);
    var approved := s.(lock := ByPass, pass := Approved([a, b]));
    t := [s, s.(lock := ByPass, pass := Holding([a, b])), approved, Do(config, approved, Apply(1))];
    assert Elems([b]) == {b};
  }

  lemma LateSurvives(events: map<string, Event>, a: Event, b: Event, late: Event)
    requires events == map[a.id := a, b.id := b][late.id := late] && a.id != b.id && a.id != late.id && b.id != late.id
    ensures late.id in WithoutDropped(events, [a, b], [b]) && WithoutDropped(events, [a, b], [b])[late.id] == late
    ensures |WithoutDropped(events, [a, b], [b])| > 1
  {
    var left := WithoutDropped(events, [a, b], [b]);
    assert b in [b];
    SubsetOfEqualSize({b.id, late.id}, left.Keys);
  }

  lemma SortedPair(a: Event, b: Event)
    requires Older(a, b)
    ensures SortEvents(false, [a, b]) == [a, b]
  {
    OlderStrict(a, b);
    assert [a, b][1..] == [b] && [b][1..] == [];
    assert SortEvents(false, [b]) == [b];
  }

  lemma OneGoes(config: Config, a: Event, b: Event)
    requires config.caps == Caps(Some(1), None) && config.pinnedPubkeys == {} && config.pinnedIds == {}
    ensures IsCut(config.caps, config.size, config.Protection(), [a, b], 1)
    ensures AfterRemoving(config.Protection(), [a, b], 1) == [b]
  {
    var protected := config.Protection();
    assert [a, b][1..] == [b] && [b][1..] == [];
    assert Only(protected, false, [b]) == [b];
    assert Only(protected, false, [a, b]) == [a, b];
    RemovingNone(protected, [b]);
    RemovingNone(protected, [a, b]);
  }
}
