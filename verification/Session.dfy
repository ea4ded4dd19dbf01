/** One WebSocket session: authentication, subscriptions and what is sent and stored through it. */
module Session {
  import opened Outcomes
  import opened Sums
  import opened Events
  import opened EventOrder
  import opened Answers
  import opened StoreIndex
  import opened EventStore

  const AUTH_KIND: nat := 22242

  datatype Settings = Settings(
    enableNip42: bool, supportNip42: bool,
    requireAuthForQuery: bool, requireAuthForCount: bool, requireAuthForPublish: bool, authMustMatchEventPubkey: bool,
    authMaxAge: nat,
    enableQuery: bool, enablePublish: bool, enableLive: bool,
    enableCount: bool, supportNip45: bool,
    enableTagQueries: bool, supportNip12: bool,
    enableSearch: bool, supportNip50: bool,
    supportNip09: bool, supportNip40: bool,
    maxLimit: Option<nat>,
    owners: set<string>)
  {
    ghost predicate Nip42() { enableNip42 && supportNip42 }
    ghost predicate QueryAuth() { Nip42() && requireAuthForQuery }
    ghost predicate CountAuth() { Nip42() && requireAuthForCount }
    ghost predicate PublishAuth() { Nip42() && (requireAuthForPublish || authMustMatchEventPubkey) }
    ghost predicate CountEnabled() { enableCount && supportNip45 }
    ghost predicate TagQueries() { enableTagQueries && supportNip12 }
    ghost predicate SearchEnabled() { enableSearch && supportNip50 }
    ghost function PolicyAt(now: nat): Policy { Policy(supportNip09, supportNip40, now) }
  }

  /** What the session takes from elsewhere: the hash of an event, signature verification, whether
      a relay tag names this relay, and the event policy of the settings. */
  datatype World = World(
    hashOf: Event -> string,
    verifies: Event -> bool,
    namesThisRelay: string -> bool,
    permits: (Event, nat) -> bool)

  datatype Frame =
    | AuthFrame(challenge: string)
    | EventFrame(sub: string, event: Event)
    | EoseFrame(sub: string)
    | CountFrame(sub: string, count: nat)
    | ClosedFrame(sub: string, reason: string)
    | OkFrame(id: string, accepted: bool, reason: string)
    | NoticeFrame(reason: string)

  /** A parsed message; a malformed event may still name an id. */
  datatype Message =
    | Req(sub: string, filters: seq<Query>)
    | Count(sub: string, filters: seq<Query>)
    | Close(sub: string)
    | Publish(event: Event)
    | MalformedPublish(id: string)
    | Auth(event: Event)
    | MalformedAuth
    | Unknown

  /** The session's history, oldest entry first. */
  datatype Entry =
    | Authenticated(event: Event, at: nat)
    | Opened(sub: string, filters: seq<Query>)
    | Sent(frame: Frame)
    | Stored(event: Event)

  // ------------------------------------------------------------ authentication

  predicate ValidAuth(settings: Settings, world: World, challenge: string, e: Event, now: nat) {
    && e.kind == AUTH_KIND
    && world.verifies(e)
    && FirstTag(e.tags, "challenge") == Some(challenge)
    && FirstTag(e.tags, "relay").Some? && world.namesThisRelay(FirstTag(e.tags, "relay").value)
    && (if e.createdAt < now then now - e.createdAt else e.createdAt - now) <= settings.authMaxAge
  }

  /** What NIP-42 demands of an AUTH event: kind 22242, verified, the first challenge tag with this session's
      challenge, the first relay tag with this relay, and a time near the clock's, before or after it. */
  ghost predicate AnswersChallenge(settings: Settings, world: World, challenge: string, e: Event, now: nat) {
    && e.kind == 22242 && world.verifies(e)
    && (exists i: nat :: IsFirstTag(e.tags, "challenge", i) && e.tags[i][1] == challenge)
    && (exists i: nat :: IsFirstTag(e.tags, "relay", i) && world.namesThisRelay(e.tags[i][1]))
    && e.createdAt <= now + settings.authMaxAge && now <= e.createdAt + settings.authMaxAge
  }

  lemma ValidAuthMeans(settings: Settings, world: World, challenge: string, e: Event, now: nat)
    ensures ValidAuth(settings, world, challenge, e, now) <==> AnswersChallenge(settings, world, challenge, e, now)
  {
    FirstTagMeans(e.tags, "challenge");
    FirstTagMeans(e.tags, "relay");
    hide FirstTag, IsFirstTag;
  }

  // -------------------------------------------------------------------- policy

  function CapLimit(settings: Settings, q: Query): Query {
    match settings.maxLimit
    case None => q
    case Some(max) =>
      var requested := if q.limit.Some? then q.limit.value else max;
      q.(limit := Some(if requested < max then requested else max))
  }

  function CapLimits(settings: Settings, filters: seq<Query>): (r: seq<Query>)
    ensures |r| == |filters| && forall i :: 0 <= i < |r| ==> r[i] == CapLimit(settings, filters[i])
  {
    seq(|filters|, i requires 0 <= i < |filters| => CapLimit(settings, filters[i]))
  }

  /** Capping a filter's limit cuts its answer to the maximum and changes nothing else. */
  lemma CapCutsTheAnswer(settings: Settings, matching: set<Event>, q: Query, full: seq<Event>, capped: seq<Event>)
    requires IsAnswer(matching, q.limit, full) && IsAnswer(matching, CapLimit(settings, q).limit, capped)
    ensures CapLimit(settings, q).(limit := q.limit) == q
    ensures capped == Truncate(full, settings.maxLimit)
  {
    if settings.maxLimit.None? {
      AnswerUnique(matching, q.limit, full, capped);
    } else {
      SmallerLimitGivesPrefix(matching, CapLimit(settings, q).limit.value, q.limit, capped, full);
      if q.limit.Some? {
        var all :| ListsSurvivors(matching, all) && full == Truncate(all, q.limit);
      }
    }
  }

  ghost predicate FilterAllowed(settings: Settings, q: Query) {
    && (settings.maxLimit.Some? ==> q.limit.Some? && q.limit.value <= settings.maxLimit.value)
    && (q.d.Some? || q.t.Some? || q.tags != [] ==> settings.TagQueries())
    && (q.search.Some? ==> settings.SearchEnabled())
  }

  // ------------------------------------------------------------------- history

  ghost predicate AnyAuth(log: seq<Entry>) {
    exists i :: 0 <= i < |log| && log[i].Authenticated?
  }

  ghost predicate AuthAs(log: seq<Entry>, pubkey: string) {
    exists i :: 0 <= i < |log| && log[i].Authenticated? && log[i].event.pubkey == pubkey
  }

  /** What may happen after what: nothing that needs authentication comes before it. */
  ghost predicate MayFollow(settings: Settings, world: World, challenge: string, before: seq<Entry>, entry: Entry) {
    match entry
    case Authenticated(e, at) => settings.Nip42() && AnswersChallenge(settings, world, challenge, e, at)
    case Opened(_, filters) =>
      && settings.enableQuery && settings.enableLive
      && (settings.QueryAuth() ==> AnyAuth(before))
      && forall i :: 0 <= i < |filters| ==> FilterAllowed(settings, filters[i])
    case Sent(EventFrame(_, _)) => settings.enableQuery && (settings.QueryAuth() ==> AnyAuth(before))
    case Sent(CountFrame(_, _)) => settings.enableQuery && settings.CountEnabled() && (settings.CountAuth() ==> AnyAuth(before))
    case Sent(_) => true
    case Stored(e) =>
      && settings.enablePublish && world.hashOf(e) == e.id
      && (e.pubkey in settings.owners ||
          ((settings.PublishAuth() ==> AnyAuth(before))
           && (settings.Nip42() && settings.authMustMatchEventPubkey ==> AuthAs(before, e.pubkey))))
  }

  ghost predicate Orderly(settings: Settings, world: World, challenge: string, log: seq<Entry>) {
    forall i :: 0 <= i < |log| ==> MayFollow(settings, world, challenge, log[..i], log[i])
  }

  ghost function Frames(log: seq<Entry>): seq<Frame> {
    if log == [] then []
    else if log[|log| - 1].Sent? then Frames(log[..|log| - 1]) + [log[|log| - 1].frame]
    else Frames(log[..|log| - 1])
  }

  /** The events stored through the session, oldest first. */
  ghost function StoredEvents(log: seq<Entry>): seq<Event> {
    if log == [] then []
    else if log[|log| - 1].Stored? then StoredEvents(log[..|log| - 1]) + [log[|log| - 1].event]
    else StoredEvents(log[..|log| - 1])
  }

  lemma StoredAreLogged(log: seq<Entry>, e: Event)
    requires e in StoredEvents(log)
    ensures exists k :: 0 <= k < |log| && log[k] == Stored(e)
  {
  }

  /** An AUTH event that verified against this challenge is among the first `k` entries. */
  ghost predicate AuthBefore(settings: Settings, world: World, challenge: string, log: seq<Entry>, k: nat) {
    exists i :: 0 <= i < k && i < |log| && log[i].Authenticated? && AnswersChallenge(settings, world, challenge, log[i].event, log[i].at)
  }

  /** The same, by this pubkey. */
  ghost predicate AuthBeforeAs(settings: Settings, world: World, challenge: string, log: seq<Entry>, k: nat, pubkey: string) {
    exists i :: 0 <= i < k && i < |log| && log[i].Authenticated? && log[i].event.pubkey == pubkey
                && AnswersChallenge(settings, world, challenge, log[i].event, log[i].at)
  }

  lemma OrderlyMeans(settings: Settings, world: World, challenge: string, log: seq<Entry>, k: nat)
    requires Orderly(settings, world, challenge, log) && k < |log|
    ensures AnyAuth(log[..k]) ==> AuthBefore(settings, world, challenge, log, k)
    ensures forall p :: AuthAs(log[..k], p) ==> AuthBeforeAs(settings, world, challenge, log, k, p)
    ensures MayFollow(settings, world, challenge, log[..k], log[k])
  {
    forall i | 0 <= i < k && log[i].Authenticated? ensures AnswersChallenge(settings, world, challenge, log[i].event, log[i].at) {
      assert MayFollow(settings, world, challenge, log[..i], log[i]);
    }
    hide AnswersChallenge;
    forall p | AuthAs(log[..k], p) ensures AuthBeforeAs(settings, world, challenge, log, k, p) {
      var i :| 0 <= i < k && log[..k][i].Authenticated? && log[..k][i].event.pubkey == p;
      assert log[i].Authenticated?;
    }
    if AnyAuth(log[..k]) {
      var i :| 0 <= i < k && log[..k][i].Authenticated?;
      assert log[i].Authenticated?;
    }
  }

  // ------------------------------------------------------------------ snapshot

  /** Stable: an event goes in front of everything that is not newer. */
  function InsertByTime(e: Event, s: seq<Event>): (r: seq<Event>)
    ensures Elems(r) == Elems(s) + {e} && |r| == |s| + 1
  {
    if s == [] || s[0].createdAt <= e.createdAt then [e] + s
    else
      var rest := InsertByTime(e, s[1..]);
      assert s == [s[0]] + s[1..];
      assert Elems([s[0]] + rest) == {s[0]} + Elems(rest);
      [s[0]] + rest
  }

  function SortByTime(s: seq<Event>): (r: seq<Event>)
    ensures Elems(r) == Elems(s) && |r| == |s|
  {
    if s == [] then []
    else
      assert s == [s[0]] + s[1..];
      InsertByTime(s[0], SortByTime(s[1..]))
  }

  ghost predicate NewestTimeFirst(s: seq<Event>) {
    forall i, j :: 0 <= i < j < |s| ==> s[i].createdAt >= s[j].createdAt
  }

  lemma {:induction false} InsertByTimeSorts(e: Event, s: seq<Event>)
    requires NewestTimeFirst(s)
    ensures NewestTimeFirst(InsertByTime(e, s))
  {
    if s != [] && s[0].createdAt > e.createdAt {
      InsertByTimeSorts(e, s[1..]);
      var rest := InsertByTime(e, s[1..]);
      forall j | 0 <= j < |rest| ensures s[0].createdAt >= rest[j].createdAt {
        assert rest[j] in Elems(rest);
        if rest[j] != e { assert rest[j] in Elems(s[1..]); }
      }
    }
  }

  lemma {:induction false} SortByTimeSorts(s: seq<Event>)
    ensures NewestTimeFirst(SortByTime(s))
  {
    if s != [] {
      SortByTimeSorts(s[1..]);
      InsertByTimeSorts(s[0], SortByTime(s[1..]));
    }
  }

  lemma {:induction false} SortedStays(s: seq<Event>)
    requires NewestTimeFirst(s)
    ensures SortByTime(s) == s
  {
    if s != [] {
      SortedStays(s[1..]);
      assert s == [s[0]] + s[1..];
    }
  }

  /** The answer of some filter, in terms of a store. */
  ghost predicate FilterAnswer(store: Store, policy: Policy, q: Query, answer: seq<Event>)
    reads store
  {
    IsAnswer(store.Matching(q, policy), q.limit, answer)
  }

  /** Every event of every filter's answer, once, and nothing else. */
  ghost predicate CollectsAnswers(store: Store, policy: Policy, filters: seq<Query>, events: seq<Event>)
    reads store
  {
    && DistinctIds(events)
    && forall e :: e in events <==>
         exists i, answer :: 0 <= i < |filters| && FilterAnswer(store, policy, filters[i], answer) && e in answer
  }

  lemma AnswerStored(store: Store, policy: Policy, q: Query, answer: seq<Event>, e: Event)
    requires store.Valid() && FilterAnswer(store, policy, q, answer) && e in answer
    ensures e.id in store.events && store.events[e.id] == e
  {
    StoredFacts(store.events);
    assert IdsDiffer(store.Matching(q, policy));
    AnswerContents(store.Matching(q, policy), q.limit, answer);
  }

  lemma CollectStep(store: Store, policy: Policy, filters: seq<Query>, events: seq<Event>, q: Query, answer: seq<Event>, events': seq<Event>)
    requires store.Valid() && CollectsAnswers(store, policy, filters, events)
    requires FilterAnswer(store, policy, q, answer)
    requires DistinctIds(events') && forall e :: e in events' <==> e in events || e in answer
    ensures CollectsAnswers(store, policy, filters + [q], events')
  {
    var more := filters + [q];
    forall e ensures e in events' <==>
        exists i, a :: 0 <= i < |more| && FilterAnswer(store, policy, more[i], a) && e in a
    {
      if e in events {
        var i, a :| 0 <= i < |filters| && FilterAnswer(store, policy, filters[i], a) && e in a;
        assert more[i] == filters[i];
      }
      if e in answer {
        assert more[|filters|] == q;
      }
      if i, a :| 0 <= i < |more| && FilterAnswer(store, policy, more[i], a) && e in a {
        if i < |filters| {
          assert more[i] == filters[i];
        } else {
          AnswerUnique(store.Matching(q, policy), q.limit, a, answer);
        }
      }
    }
  }

  /** The stored events that answer a request: each filter's answer, without repeats, newest first. */
  method SnapshotEvents(store: Store, policy: Policy, filters: seq<Query>) returns (r: seq<Event>)
    requires store.Valid() && forall i :: 0 <= i < |filters| ==> Store.PathSafe(filters[i])
    ensures CollectsAnswers(store, policy, filters, r)
    ensures NewestTimeFirst(r)
    ensures |filters| == 1 ==> FilterAnswer(store, policy, filters[0], r)
  {
    hide Store.Valid, IsAnswer, SortByTime, Store.PathSafe;
    var seen: set<string> := {};
    var events: seq<Event> := [];
    for i := 0 to |filters|
      invariant CollectsAnswers(store, policy, filters[..i], events)
      invariant forall id :: id in seen <==> exists e :: e in events && e.id == id
      invariant i == 1 ==> FilterAnswer(store, policy, filters[0], events)
      invariant i == 0 ==> events == []
    {
      var answer := store.QueryWithPolicy(filters[i], policy);
      var merged, seen' := Merge(store, policy, filters[i], answer, events, seen, filters[..i]);
      assert filters[..i + 1] == filters[..i] + [filters[i]];
      CollectStep(store, policy, filters[..i], events, filters[i], answer, merged);
      events, seen := merged, seen';
    }
    assert filters[..|filters|] == filters;
    SortByTimeSorts(events);
    r := SortByTime(events);
    assert Elems(r) == Elems(events);
    SortKeepsDistinct(events);
    assert forall e :: e in r <==> e in events by {
      assert forall e :: e in r <==> e in Elems(r);
    }
    if |filters| == 1 {
      AnswerNewestFirst(store, policy, filters[0], events);
      SortedStays(events);
    }
  }

  lemma AnswerNewestFirst(store: Store, policy: Policy, q: Query, answer: seq<Event>)
    requires store.Valid() && FilterAnswer(store, policy, q, answer)
    ensures NewestTimeFirst(answer) && DistinctIds(answer)
  {
    StoredFacts(store.events);
    assert IdsDiffer(store.Matching(q, policy));
    AnswerContents(store.Matching(q, policy), q.limit, answer);
    forall i, j | 0 <= i < j < |answer| ensures answer[i].id != answer[j].id {
      assert Before(true, answer[i], answer[j]);
      AnswerStored(store, policy, q, answer, answer[i]);
      AnswerStored(store, policy, q, answer, answer[j]);
      OlderStrict(answer[j], answer[i]);
    }
  }

  lemma SortKeepsDistinct(s: seq<Event>)
    requires DistinctIds(s)
    ensures DistinctIds(SortByTime(s))
  {
    if s != [] {
      SortKeepsDistinct(s[1..]);
      var rest := SortByTime(s[1..]);
      forall e | e in rest ensures e.id != s[0].id {
        assert e in Elems(rest) && e in Elems(s[1..]);
        var j :| 0 <= j < |s[1..]| && s[1..][j] == e;
        assert s[j + 1] == e;
      }
      InsertKeepsDistinct(s[0], rest);
    }
  }

  lemma InsertKeepsDistinct(e: Event, s: seq<Event>)
    requires DistinctIds(s) && forall x :: x in s ==> x.id != e.id
    ensures DistinctIds(InsertByTime(e, s))
  {
    if s != [] && s[0].createdAt > e.createdAt {
      InsertKeepsDistinct(e, s[1..]);
      var rest := InsertByTime(e, s[1..]);
      forall j | 0 <= j < |rest| ensures rest[j].id != s[0].id {
        assert rest[j] in Elems(rest);
        if rest[j] != e { assert rest[j] in Elems(s[1..]); }
      }
    }
  }

  /** Add the events of one answer that have not been seen. */
  method Merge(store: Store, policy: Policy, q: Query, answer: seq<Event>, events: seq<Event>, seen: set<string>,
      ghost earlier: seq<Query>)
    returns (merged: seq<Event>, seen': set<string>)
    requires store.Valid() && FilterAnswer(store, policy, q, answer)
    requires CollectsAnswers(store, policy, earlier, events)
    requires forall id :: id in seen <==> exists e :: e in events && e.id == id
    ensures DistinctIds(merged) && forall e :: e in merged <==> e in events || e in answer
    ensures forall id :: id in seen' <==> exists e :: e in merged && e.id == id
    ensures events == [] ==> merged == answer
  {
    AnswerNewestFirst(store, policy, q, answer);
    forall e, f | e in events && f in answer && e.id == f.id ensures e == f {
      var i, a :| 0 <= i < |earlier| && FilterAnswer(store, policy, earlier[i], a) && e in a;
      AnswerStored(store, policy, earlier[i], a, e);
      AnswerStored(store, policy, q, answer, f);
    }
    merged, seen' := AddUnseen(answer, events, seen);
  }

  method AddUnseen(answer: seq<Event>, events: seq<Event>, seen: set<string>) returns (merged: seq<Event>, seen': set<string>)
    requires DistinctIds(answer) && DistinctIds(events)
    requires forall e, f :: e in events && f in answer && e.id == f.id ==> e == f
    requires forall id :: id in seen <==> exists e :: e in events && e.id == id
    ensures DistinctIds(merged) && forall e :: e in merged <==> e in events || e in answer
    ensures forall id :: id in seen' <==> exists e :: e in merged && e.id == id
    ensures events == [] ==> merged == answer
  {
    merged, seen' := events, seen;
    for i := 0 to |answer|
      invariant DistinctIds(merged) && forall e :: e in merged <==> e in events || e in answer[..i]
      invariant forall id :: id in seen' <==> exists e :: e in merged && e.id == id
      invariant events == [] ==> merged == answer[..i]
    {
      var event := answer[i];
      assert answer[..i + 1] == answer[..i] + [event];
      assert forall e :: e in answer[..i] ==> e.id != event.id;
      if event.id !in seen' {
        seen' := seen' + {event.id};
        merged := merged + [event];
      }
    }
    assert answer[..|answer|] == answer;
  }

  // ------------------------------------------------------------ the connection

  lemma AppendOrderly(settings: Settings, world: World, challenge: string, log: seq<Entry>, entry: Entry)
    requires Orderly(settings, world, challenge, log) && MayFollow(settings, world, challenge, log, entry)
    ensures Orderly(settings, world, challenge, log + [entry])
    ensures Frames(log + [entry]) == Frames(log) + (if entry.Sent? then [entry.frame] else [])
    ensures StoredEvents(log + [entry]) == StoredEvents(log) + (if entry.Stored? then [entry.event] else [])
    ensures forall p :: AuthAs(log + [entry], p) <==> AuthAs(log, p) || (entry.Authenticated? && entry.event.pubkey == p)
  {
    var more := log + [entry];
    assert more[..|log|] == log;
    forall i | 0 <= i < |more| ensures MayFollow(settings, world, challenge, more[..i], more[i]) {
      if i < |log| {
        assert more[..i] == log[..i];
      }
    }
    forall p ensures AuthAs(more, p) <==> AuthAs(log, p) || (entry.Authenticated? && entry.event.pubkey == p) {
      if i :| 0 <= i < |log| && log[i].Authenticated? && log[i].event.pubkey == p {
        assert more[i] == log[i];
      }
      if entry.Authenticated? && entry.event.pubkey == p {
        assert more[|log|] == entry;
      }
    }
  }

  /** The session's fields are what its orderly history says. */
  ghost predicate Consistent(settings: Settings, world: World, challenge: string, log: seq<Entry>,
      out: seq<Frame>, broadcasts: seq<Event>, pubkeys: set<string>, subs: map<string, seq<Query>>)
  {
    && Orderly(settings, world, challenge, log)
    && out == Frames(log)
    && broadcasts == StoredEvents(log)
    && (forall p :: p in pubkeys <==> AuthAs(log, p))
    && (forall sub :: sub in subs ==> Opened(sub, subs[sub]) in log)
  }

  /** A history that holds at most the challenge. */
  lemma FirstEntry(settings: Settings, world: World, challenge: string, first: seq<Frame>)
    requires first == if settings.Nip42() then [AuthFrame(challenge)] else []
    ensures Consistent(settings, world, challenge, if settings.Nip42() then [Sent(AuthFrame(challenge))] else [], first, [], {}, map[])
  {
    var log: seq<Entry> := if settings.Nip42() then [Sent(AuthFrame(challenge))] else [];
    assert settings.Nip42() ==> log[..0] == [];
    assert StoredEvents([]) == [] && Frames([]) == [];
  }

  /** One more entry, with the change it records, keeps the fields what the history says. */
  lemma Recorded(settings: Settings, world: World, challenge: string, log: seq<Entry>,
      out: seq<Frame>, broadcasts: seq<Event>, pubkeys: set<string>, subs: map<string, seq<Query>>, entry: Entry)
    requires Consistent(settings, world, challenge, log, out, broadcasts, pubkeys, subs)
    requires MayFollow(settings, world, challenge, log, entry)
    ensures Consistent(settings, world, challenge, log + [entry],
      if entry.Sent? then out + [entry.frame] else out,
      if entry.Stored? then broadcasts + [entry.event] else broadcasts,
      if entry.Authenticated? then pubkeys + {entry.event.pubkey} else pubkeys,
      if entry.Opened? then subs[entry.sub := entry.filters] else subs)
  {
    AppendOrderly(settings, world, challenge, log, entry);
    assert (log + [entry])[|log|] == entry;
    hide Orderly, MayFollow, Frames, StoredEvents, AuthAs;
  }

  lemma ForgettingASubscription(settings: Settings, world: World, challenge: string, log: seq<Entry>,
      out: seq<Frame>, broadcasts: seq<Event>, pubkeys: set<string>, subs: map<string, seq<Query>>, sub: string)
    requires Consistent(settings, world, challenge, log, out, broadcasts, pubkeys, subs)
    ensures Consistent(settings, world, challenge, log, out, broadcasts, pubkeys, subs - {sub})
  {
    hide Orderly, Frames, StoredEvents, AuthAs;
  }

  ghost function EventFrames(sub: string, events: seq<Event>): seq<Frame> {
    seq(|events|, i requires 0 <= i < |events| => EventFrame(sub, events[i]))
  }

  class Connection {
    const settings: Settings
    const world: World
    const challenge: string
    const store: Store
    var subs: map<string, seq<Query>>
    var pubkeys: set<string>
    var out: seq<Frame>
    var broadcasts: seq<Event>
    ghost var log: seq<Entry>

    ghost predicate Valid()
      reads this, store
    {
      store.Valid() && Consistent(settings, world, challenge, log, out, broadcasts, pubkeys, subs)
    }

    constructor (settings: Settings, world: World, challenge: string, store: Store)
      requires store.Valid()
      ensures Valid() && subs == map[] && pubkeys == {} && broadcasts == []
      ensures this.settings == settings && this.world == world && this.challenge == challenge && this.store == store
      ensures out == if settings.Nip42() then [AuthFrame(challenge)] else []
    {
      this.settings, this.world, this.challenge, this.store := settings, world, challenge, store;
      subs, pubkeys, broadcasts := map[], {}, [];
      out := if settings.enableNip42 && settings.supportNip42 then [AuthFrame(challenge)] else [];
      log := if settings.Nip42() then [Sent(AuthFrame(challenge))] else [];
      new;
      hide Store.Valid, Consistent;
      FirstEntry(settings, world, challenge, out);
    }

    method Send(frame: Frame)
      requires Valid() && MayFollow(settings, world, challenge, log, Sent(frame))
      modifies this`out, this`log
      ensures Valid() && out == old(out) + [frame] && log == old(log) + [Sent(frame)]
    {
      hide Store.Valid, Consistent, MayFollow;
      Recorded(settings, world, challenge, log, out, broadcasts, pubkeys, subs, Sent(frame));
      out := out + [frame];
      log := log + [Sent(frame)];
    }

    /** Frames that anyone may be sent. */
    method SendPlain(frame: Frame)
      requires Valid() && !frame.EventFrame? && !frame.CountFrame?
      modifies this`out, this`log
      ensures Valid() && out == old(out) + [frame] && log == old(log) + [Sent(frame)]
    {
      Send(frame);
    }

    lemma AuthenticatedMeansLogged()
      requires Valid()
      ensures store.Valid()
      ensures pubkeys != {} ==> AnyAuth(log)
      ensures forall p :: p in pubkeys ==> AuthAs(log, p)
    {
    }

    ghost predicate Accepts(auth: bool, filters: seq<Query>, rateOk: bool)
      reads this
    {
      && (auth ==> pubkeys != {})
      && ((exists i :: 0 <= i < |filters| && (filters[i].d.Some? || filters[i].t.Some? || filters[i].tags != [])) ==> settings.TagQueries())
      && ((exists i :: 0 <= i < |filters| && filters[i].search.Some?) ==> settings.SearchEnabled())
      && rateOk
    }

    /** The first reason that applies. */
    ghost function Refusal(auth: bool, filters: seq<Query>): string
      reads this
    {
      if auth && pubkeys == {} then "auth-required: relay login required"
      else if (exists i :: 0 <= i < |filters| && (filters[i].d.Some? || filters[i].t.Some? || filters[i].tags != [])) && !settings.TagQueries() then "tag queries disabled"
      else if (exists i :: 0 <= i < |filters| && filters[i].search.Some?) && !settings.SearchEnabled() then "text search disabled"
      else "rate-limited"
    }

    /** The challenge goes out again to a session that lacks the authentication asked for. */
    ghost function Reminder(auth: bool): seq<Frame>
      reads this
    {
      if auth && pubkeys == {} && settings.Nip42() then [AuthFrame(challenge)] else []
    }

    /** Refuse with the first reason that applies; report whether there was none. */
    method Gate(sub: string, auth: bool, filters: seq<Query>, rateOk: bool) returns (accepted: bool)
      requires Valid()
      modifies this`out, this`log
      ensures Valid() && accepted == old(Accepts(auth, filters, rateOk))
      ensures accepted ==> out == old(out) && log == old(log)
      ensures !accepted ==> out == old(out) + old(Reminder(auth)) + [ClosedFrame(sub, old(Refusal(auth, filters)))]
    {
      hide Valid;
      if auth && pubkeys == {} {
        if settings.enableNip42 && settings.supportNip42 {
          SendPlain(AuthFrame(challenge));
        }
        SendPlain(ClosedFrame(sub, "auth-required: relay login required"));
        return false;
      }
      if (exists i :: 0 <= i < |filters| && filters[i].HasTagFilters()) && !(settings.enableTagQueries && settings.supportNip12) {
        SendPlain(ClosedFrame(sub, "tag queries disabled"));
        return false;
      }
      if (exists i :: 0 <= i < |filters| && filters[i].search.Some?) && !(settings.enableSearch && settings.supportNip50) {
        SendPlain(ClosedFrame(sub, "text search disabled"));
        return false;
      }
      if !rateOk {
        SendPlain(ClosedFrame(sub, "rate-limited"));
        return false;
      }
      return true;
    }

    /** REQ: answer with the snapshot and an end marker, then keep the subscription if live ones are on. */
    method HandleReq(sub: string, requested: seq<Query>, now: nat, rateOk: bool) returns (ghost snapshot: seq<Event>)
      requires Valid() && forall i :: 0 <= i < |requested| ==> Store.PathSafe(requested[i])
      modifies this`subs, this`out, this`log
      ensures Valid()
      ensures settings.enableQuery && old(Accepts(settings.QueryAuth(), CapLimits(settings, requested), rateOk)) ==>
        && CollectsAnswers(store, settings.PolicyAt(now), CapLimits(settings, requested), snapshot)
        && out == old(out) + EventFrames(sub, snapshot) + [EoseFrame(sub)]
        && subs == if settings.enableLive then old(subs)[sub := CapLimits(settings, requested)] else old(subs)
      ensures !(settings.enableQuery && old(Accepts(settings.QueryAuth(), CapLimits(settings, requested), rateOk))) ==>
        subs == old(subs)
      ensures !settings.enableQuery ==> out == old(out) + [ClosedFrame(sub, "read access disabled")]
      ensures settings.enableQuery && !old(Accepts(settings.QueryAuth(), CapLimits(settings, requested), rateOk)) ==>
        out == old(out) + old(Reminder(settings.QueryAuth()))
               + [ClosedFrame(sub, old(Refusal(settings.QueryAuth(), CapLimits(settings, requested))))]
    {
      hide Valid, Store.Valid, CollectsAnswers, NewestTimeFirst;
      snapshot := [];
      var filters := CapLimits(settings, requested);
      if !settings.enableQuery {
        SendPlain(ClosedFrame(sub, "read access disabled"));
        return;
      }
      var accepted := Gate(sub, settings.enableNip42 && settings.supportNip42 && settings.requireAuthForQuery, filters, rateOk);
      if !accepted {
        return;
      }
      AuthenticatedMeansLogged();
      var events := SnapshotEvents(store, Policy(settings.supportNip09, settings.supportNip40, now), filters);
      snapshot := events;
      SendEvents(sub, events);
      SendPlain(EoseFrame(sub));
      if settings.enableLive {
        AuthenticatedMeansLogged();
        Open(sub, filters);
      }
    }

    method SendEvents(sub: string, events: seq<Event>)
      requires Valid() && settings.enableQuery && (settings.QueryAuth() ==> pubkeys != {})
      modifies this`out, this`log
      ensures Valid() && out == old(out) + EventFrames(sub, events)
    {
      hide Valid;
      for i := 0 to |events|
        invariant Valid()
        invariant out == old(out) + EventFrames(sub, events[..i])
      {
        AuthenticatedMeansLogged();
        Send(EventFrame(sub, events[i]));
        assert EventFrames(sub, events[..i + 1]) == EventFrames(sub, events[..i]) + [EventFrame(sub, events[i])];
      }
      assert events[..|events|] == events;
    }

    method Open(sub: string, filters: seq<Query>)
      requires Valid() && settings.enableQuery && settings.enableLive
      requires settings.QueryAuth() ==> pubkeys != {}
      requires forall i :: 0 <= i < |filters| ==> FilterAllowed(settings, filters[i])
      modifies this`subs, this`log
      ensures Valid() && subs == old(subs)[sub := filters]
    {
      MayOpen(sub, filters);
      hide Store.Valid, Consistent, MayFollow, FilterAllowed;
      Recorded(settings, world, challenge, log, out, broadcasts, pubkeys, subs, Opened(sub, filters));
      log := log + [Opened(sub, filters)];
      subs := subs[sub := filters];
    }

    lemma MayOpen(sub: string, filters: seq<Query>)
      requires Valid() && settings.enableQuery && settings.enableLive
      requires settings.QueryAuth() ==> pubkeys != {}
      requires forall i :: 0 <= i < |filters| ==> FilterAllowed(settings, filters[i])
      ensures MayFollow(settings, world, challenge, log, Opened(sub, filters))
    {
      AuthenticatedMeansLogged();
      hide Store.Valid, Consistent, AnyAuth, FilterAllowed;
    }

    /** COUNT: the number of events the snapshot would hold. */
    method HandleCount(sub: string, requested: seq<Query>, now: nat, rateOk: bool) returns (ghost snapshot: seq<Event>)
      requires Valid() && forall i :: 0 <= i < |requested| ==> Store.PathSafe(requested[i])
      modifies this`out, this`log
      ensures Valid()
      ensures settings.enableQuery && settings.CountEnabled()
              && old(Accepts(settings.CountAuth(), CapLimits(settings, requested), rateOk)) ==>
        && CollectsAnswers(store, settings.PolicyAt(now), CapLimits(settings, requested), snapshot)
        && out == old(out) + [CountFrame(sub, |snapshot|)]
      ensures !(settings.enableQuery && settings.CountEnabled()) ==> out == old(out) + [ClosedFrame(sub, "count queries disabled")]
      ensures settings.enableQuery && settings.CountEnabled()
              && !old(Accepts(settings.CountAuth(), CapLimits(settings, requested), rateOk)) ==>
        out == old(out) + old(Reminder(settings.CountAuth()))
               + [ClosedFrame(sub, old(Refusal(settings.CountAuth(), CapLimits(settings, requested))))]
    {
      hide Valid, Store.Valid, CollectsAnswers, NewestTimeFirst;
      snapshot := [];
      var filters := CapLimits(settings, requested);
      if !settings.enableQuery || !(settings.enableCount && settings.supportNip45) {
        SendPlain(ClosedFrame(sub, "count queries disabled"));
        return;
      }
      var accepted := Gate(sub, settings.enableNip42 && settings.supportNip42 && settings.requireAuthForCount, filters, rateOk);
      if !accepted {
        return;
      }
      AuthenticatedMeansLogged();
      var events := SnapshotEvents(store, Policy(settings.supportNip09, settings.supportNip40, now), filters);
      snapshot := events;
      Send(CountFrame(sub, |events|));
    }

    method HandleClose(sub: string)
      requires Valid()
      modifies this`subs, this`out, this`log
      ensures Valid() && subs == old(subs) - {sub} && out == old(out) + [ClosedFrame(sub, "closed")]
    {
      hide Store.Valid, Consistent;
      ForgettingASubscription(settings, world, challenge, log, out, broadcasts, pubkeys, subs, sub);
      subs := subs - {sub};
      SendPlain(ClosedFrame(sub, "closed"));
    }

    /** AUTH: an event verified against this session's challenge adds its author. */
    method HandleAuth(e: Event, now: nat)
      requires Valid()
      modifies this`pubkeys, this`out, this`log
      ensures Valid()
      ensures pubkeys == if settings.Nip42() && AnswersChallenge(settings, world, challenge, e, now)
                         then old(pubkeys) + {e.pubkey} else old(pubkeys)
      ensures out == old(out) + [AuthVerdict(e, now)]
    {
      hide Valid, ValidAuth, AnswersChallenge;
      ValidAuthMeans(settings, world, challenge, e, now);
      if !(settings.enableNip42 && settings.supportNip42) {
        SendPlain(OkFrame(e.id, false, "restricted: relay authentication disabled"));
        return;
      }
      if ValidAuth(settings, world, challenge, e, now) {
        Admit(e, now);
        SendPlain(OkFrame(e.id, true, "authenticated"));
      } else {
        SendPlain(OkFrame(e.id, false, "invalid"));
      }
    }

    ghost function AuthVerdict(e: Event, now: nat): Frame {
      if !settings.Nip42() then OkFrame(e.id, false, "restricted: relay authentication disabled")
      else if AnswersChallenge(settings, world, challenge, e, now) then OkFrame(e.id, true, "authenticated")
      else OkFrame(e.id, false, "invalid")
    }

    method Admit(e: Event, now: nat)
      requires Valid() && settings.Nip42() && AnswersChallenge(settings, world, challenge, e, now)
      modifies this`pubkeys, this`log
      ensures Valid() && pubkeys == old(pubkeys) + {e.pubkey}
    {
      hide Store.Valid, Consistent, AnswersChallenge;
      Recorded(settings, world, challenge, log, out, broadcasts, pubkeys, subs, Authenticated(e, now));
      log := log + [Authenticated(e, now)];
      pubkeys := pubkeys + {e.pubkey};
    }

    /** Owners skip authentication and rate limits; everyone else passes them first. */
    ghost predicate MayPublish(e: Event, rateOk: bool)
      reads this
    {
      settings.enablePublish &&
      (e.pubkey in settings.owners ||
       ((settings.PublishAuth() ==> pubkeys != {})
        && (settings.Nip42() && settings.authMustMatchEventPubkey ==> e.pubkey in pubkeys)
        && rateOk))
    }

    /** What the id check, the event policy and the store let in. */
    ghost predicate Storable(e: Event, now: nat)
      reads store
    {
      && world.hashOf(e) == e.id
      && (e.pubkey in settings.owners || world.permits(e, now))
      && (store.config.verifySig ==> store.config.verifies(e))
      && e.id !in store.events
      && !(settings.supportNip40 && e.kind != 5 && HasExpired(e, now))
    }

    /** What the session answers OK to: also duplicates, and expired events, which are skipped unverified. */
    ghost predicate Acceptable(e: Event, now: nat)
      reads store
    {
      && world.hashOf(e) == e.id
      && (e.pubkey in settings.owners || world.permits(e, now))
      && (store.config.verifySig ==> store.config.verifies(e)
                                     || (settings.supportNip40 && e.kind != 5 && HasExpired(e, now)))
    }

    /** EVENT: store the event and broadcast it, exactly when the session may publish it and it is new. */
    method HandlePublish(e: Event, now: nat, rateOk: bool)
      requires Valid() && (world.hashOf(e) == e.id ==> |e.id| >= 4)
      modifies this`out, this`log, this`broadcasts, store
      ensures Valid()
      ensures store.events == if old(MayPublish(e, rateOk) && Storable(e, now)) then old(store.events)[e.id := e] else old(store.events)
      ensures broadcasts == if old(MayPublish(e, rateOk) && Storable(e, now)) then old(broadcasts) + [e] else old(broadcasts)
      ensures out == old(out) + old(PublishReminder(e)) + [old(PublishVerdict(e, now, rateOk))]
    {
      hide Valid, Storable, Acceptable;
      var allowed := PublishGate(e, rateOk);
      if !allowed {
        return;
      }
      var accepted := PublishEvent(e, now);
      assert old(PublishReminder(e)) == [];
      SendPlain(OkFrame(e.id, accepted, if accepted then "stored" else "error"));
    }

    /** The first refusal that applies, or the outcome of storing. */
    ghost function PublishVerdict(e: Event, now: nat, rateOk: bool): Frame
      reads this, store
    {
      if !MayPublish(e, rateOk) then OkFrame(e.id, false, PublishRefusal(e))
      else if Acceptable(e, now) then OkFrame(e.id, true, "stored")
      else OkFrame(e.id, false, "error")
    }

    ghost function PublishRefusal(e: Event): string
      reads this
    {
      if !settings.enablePublish then "publish disabled"
      else if settings.PublishAuth() && pubkeys == {} then "auth-required: relay login required"
      else if settings.Nip42() && settings.authMustMatchEventPubkey && e.pubkey !in pubkeys then
        "restricted: authenticated pubkey does not match event pubkey"
      else "rate-limited"
    }

    ghost function PublishReminder(e: Event): seq<Frame>
      reads this
    {
      if settings.enablePublish && e.pubkey !in settings.owners then Reminder(settings.PublishAuth()) else []
    }

    method PublishGate(e: Event, rateOk: bool) returns (allowed: bool)
      requires Valid()
      modifies this`out, this`log
      ensures Valid() && allowed == old(MayPublish(e, rateOk))
      ensures allowed ==> out == old(out) && log == old(log) && MayFollowStored(e)
      ensures !allowed ==> out == old(out) + old(PublishReminder(e)) + [OkFrame(e.id, false, old(PublishRefusal(e)))]
    {
      hide Valid, MayFollowStored;
      if !settings.enablePublish {
        SendPlain(OkFrame(e.id, false, "publish disabled"));
        return false;
      }
      if e.pubkey !in settings.owners {
        var nip42 := settings.enableNip42 && settings.supportNip42;
        if nip42 && (settings.requireAuthForPublish || settings.authMustMatchEventPubkey) && pubkeys == {} {
          if nip42 {
            SendPlain(AuthFrame(challenge));
          }
          SendPlain(OkFrame(e.id, false, "auth-required: relay login required"));
          return false;
        }
        if nip42 && settings.authMustMatchEventPubkey && e.pubkey !in pubkeys {
          // An unauthenticated session has been turned away above: matching implies publish authentication.
          SendPlain(OkFrame(e.id, false, "restricted: authenticated pubkey does not match event pubkey"));
          return false;
        }
        if !rateOk {
          SendPlain(OkFrame(e.id, false, "rate-limited"));
          return false;
        }
      }
      PublisherMayFollow(e, rateOk);
      return true;
    }

    lemma PublisherMayFollow(e: Event, rateOk: bool)
      requires Valid() && MayPublish(e, rateOk)
      ensures MayFollowStored(e)
    {
      AuthenticatedMeansLogged();
      hide Consistent, Store.Valid, AuthAs, AnyAuth;
    }

    ghost predicate MayFollowStored(e: Event)
      reads this
    {
      world.hashOf(e) == e.id ==> MayFollow(settings, world, challenge, log, Stored(e))
    }

    /** Hand the event to the store under the session's delete and expiration policy. */
    method Ingest(e: Event, now: nat) returns (stored: Result<bool, string>)
      requires store.Valid() && |e.id| >= 4
      modifies store
      ensures store.Valid()
      ensures var skipped := settings.supportNip40 && e.kind != 5 && HasExpired(e, now);
        && (stored.Err? <==> store.config.verifySig && !store.config.verifies(e) && !skipped)
        && (stored == Ok(true) <==> (store.config.verifySig ==> store.config.verifies(e)) && e.id !in old(store.events) && !skipped)
      ensures store.events == if stored == Ok(true) then old(store.events)[e.id := e] else old(store.events)
    {
      hide *;
      stored := store.IngestWithPolicy(e, settings.supportNip09, settings.supportNip40, now);
    }

    /** Check id and policy, store, and broadcast what was newly stored. */
    method PublishEvent(e: Event, now: nat) returns (accepted: bool)
      requires Valid() && (world.hashOf(e) == e.id ==> |e.id| >= 4)
      requires MayFollowStored(e)
      modifies this`log, this`broadcasts, store
      ensures Valid() && pubkeys == old(pubkeys) && out == old(out)
      ensures store.events == if old(Storable(e, now)) then old(store.events)[e.id := e] else old(store.events)
      ensures broadcasts == if old(Storable(e, now)) then old(broadcasts) + [e] else old(broadcasts)
      ensures accepted == old(Acceptable(e, now))
    {
      hide Store.Valid, Consistent, MayFollow, HasExpired;
      if world.hashOf(e) != e.id {
        return false;
      }
      if e.pubkey !in settings.owners && !world.permits(e, now) {
        return false;
      }
      var stored := Ingest(e, now);
      if stored == Ok(true) {
        RecordStored(e);
      }
      accepted := stored.Ok?;
    }

    method RecordStored(e: Event)
      requires Valid() && MayFollow(settings, world, challenge, log, Stored(e))
      modifies this`log, this`broadcasts
      ensures Valid() && broadcasts == old(broadcasts) + [e]
    {
      hide Store.Valid, Consistent, MayFollow;
      Recorded(settings, world, challenge, log, out, broadcasts, pubkeys, subs, Stored(e));
      log := log + [Stored(e)];
      broadcasts := broadcasts + [e];
    }

    /** A live event goes to every subscription with a filter that matches it, if it is visible. */
    method FanOut(e: Event, now: nat)
      requires Valid()
      modifies this`out, this`log
      ensures Valid() && subs == old(subs)
      ensures |out| >= |old(out)| && out[..|old(out)|] == old(out)
      ensures forall f :: f in out[|old(out)|..] <==>
        && Visible(store.config, store.byId, store.byAddress, e, settings.PolicyAt(now))
        && f.EventFrame? && f.event == e && f.sub in subs
        && exists i :: 0 <= i < |subs[f.sub]| && LiveMatches(store.config.lower, e, subs[f.sub][i])
      ensures NoRepeats(out[|old(out)|..])
    {
      hide Valid, Visible, LiveMatches;
      if !Visible(store.config, store.byId, store.byAddress, e, Policy(settings.supportNip09, settings.supportNip40, now)) {
        return;
      }
      var left := subs.Keys;
      while left != {}
        invariant Valid() && subs == old(subs) && left <= subs.Keys
        invariant |out| >= |old(out)| && out[..|old(out)|] == old(out)
        invariant forall f :: f in out[|old(out)|..] <==>
          && f.EventFrame? && f.event == e && f.sub in subs.Keys - left
          && exists i :: 0 <= i < |subs[f.sub]| && LiveMatches(store.config.lower, e, subs[f.sub][i])
        invariant NoRepeats(out[|old(out)|..])
        decreases left
      {
        var sub :| sub in left;
        left := left - {sub};
        if exists i :: 0 <= i < |subs[sub]| && LiveMatches(store.config.lower, e, subs[sub][i]) {
          ghost var before := out;
          SubscribedMeansAllowed(sub);
          Send(EventFrame(sub, e));
          assert out[|old(out)|..] == before[|old(out)|..] + [EventFrame(sub, e)];
        }
      }
    }

    /** An open subscription was registered after whatever authentication it needs. */
    lemma SubscribedMeansAllowed(sub: string)
      requires Valid() && sub in subs
      ensures settings.enableQuery && settings.enableLive
      ensures settings.QueryAuth() ==> AnyAuth(log)
      ensures forall i :: 0 <= i < |subs[sub]| ==> FilterAllowed(settings, subs[sub][i])
    {
    }

    method HandleText(m: Message, now: nat, rateOk: bool) returns (ghost snapshot: seq<Event>)
      requires Valid()
      requires m.Req? || m.Count? ==> forall i :: 0 <= i < |m.filters| ==> Store.PathSafe(m.filters[i])
      requires m.Publish? && world.hashOf(m.event) == m.event.id ==> |m.event.id| >= 4
      modifies this`subs, this`pubkeys, this`out, this`log, this`broadcasts, store
      ensures Valid()
      ensures m.Publish? ==>
        store.events == if old(MayPublish(m.event, rateOk) && Storable(m.event, now)) then old(store.events)[m.event.id := m.event] else old(store.events)
      ensures m.Publish? ==>
        broadcasts == if old(MayPublish(m.event, rateOk) && Storable(m.event, now)) then old(broadcasts) + [m.event] else old(broadcasts)
      ensures !m.Publish? ==> unchanged(store) && broadcasts == old(broadcasts)
      ensures pubkeys == if m.Auth? && settings.Nip42() && AnswersChallenge(settings, world, challenge, m.event, now)
                         then old(pubkeys) + {m.event.pubkey} else old(pubkeys)
      ensures m.Req? ==>
        subs == if settings.enableQuery && settings.enableLive
                   && old(Accepts(settings.QueryAuth(), CapLimits(settings, m.filters), rateOk))
                then old(subs)[m.sub := CapLimits(settings, m.filters)] else old(subs)
      ensures m.Close? ==> subs == old(subs) - {m.sub}
      ensures !m.Req? && !m.Close? ==> subs == old(subs)
      ensures m.Unknown? ==> out == old(out)
      ensures m.MalformedPublish? ==>
        out == old(out) + [if settings.enablePublish then NoticeFrame("invalid EVENT payload")
                           else OkFrame(m.id, false, "publish disabled")]
      ensures m.MalformedAuth? ==> out == old(out) + [NoticeFrame("invalid AUTH payload")]
      ensures m.Req? && settings.enableQuery && old(Accepts(settings.QueryAuth(), CapLimits(settings, m.filters), rateOk)) ==>
        && CollectsAnswers(store, settings.PolicyAt(now), CapLimits(settings, m.filters), snapshot)
        && out == old(out) + EventFrames(m.sub, snapshot) + [EoseFrame(m.sub)]
      ensures m.Count? && settings.enableQuery && settings.CountEnabled()
              && old(Accepts(settings.CountAuth(), CapLimits(settings, m.filters), rateOk)) ==>
        && CollectsAnswers(store, settings.PolicyAt(now), CapLimits(settings, m.filters), snapshot)
        && out == old(out) + [CountFrame(m.sub, |snapshot|)]
      ensures m.Close? ==> out == old(out) + [ClosedFrame(m.sub, "closed")]
      ensures m.Publish? ==> out == old(out) + old(PublishReminder(m.event)) + [old(PublishVerdict(m.event, now, rateOk))]
      ensures m.Auth? ==> out == old(out) + [AuthVerdict(m.event, now)]
      ensures m.Req? && !settings.enableQuery ==> out == old(out) + [ClosedFrame(m.sub, "read access disabled")]
      ensures m.Req? && settings.enableQuery && !old(Accepts(settings.QueryAuth(), CapLimits(settings, m.filters), rateOk)) ==>
        out == old(out) + old(Reminder(settings.QueryAuth()))
               + [ClosedFrame(m.sub, old(Refusal(settings.QueryAuth(), CapLimits(settings, m.filters))))]
      ensures m.Count? && !(settings.enableQuery && settings.CountEnabled()) ==>
        out == old(out) + [ClosedFrame(m.sub, "count queries disabled")]
      ensures m.Count? && settings.enableQuery && settings.CountEnabled()
              && !old(Accepts(settings.CountAuth(), CapLimits(settings, m.filters), rateOk)) ==>
        out == old(out) + old(Reminder(settings.CountAuth()))
               + [ClosedFrame(m.sub, old(Refusal(settings.CountAuth(), CapLimits(settings, m.filters))))]
    {
      hide *;
      snapshot := [];
      match m
      case Req(sub, filters) => snapshot := HandleReq(sub, filters, now, rateOk);
      case Count(sub, filters) => snapshot := HandleCount(sub, filters, now, rateOk);
      case Close(sub) => HandleClose(sub);
      case Publish(e) => HandlePublish(e, now, rateOk);
      case Auth(e) => HandleAuth(e, now);
      case MalformedPublish(id) =>
        SendPlain(if settings.enablePublish then NoticeFrame("invalid EVENT payload") else OkFrame(id, false, "publish disabled"));
      case MalformedAuth => SendPlain(NoticeFrame("invalid AUTH payload"));
      case Unknown =>
    }

    /** Session safety, after any sequence of messages and live events (NIP-42): every subscription and
        EVENT frame comes after an AUTH verified against this session's challenge, when queries need one;
        open subscriptions obey the filter policy; and what the session has stored and broadcast it stored
        for an owner, or after the AUTH that publishing needs, by the event's own pubkey under pubkey matching. */
    lemma SessionIsSafe()
      requires Valid()
      ensures out == Frames(log) && broadcasts == StoredEvents(log)
      ensures forall sub :: sub in subs ==> Opened(sub, subs[sub]) in log
      ensures settings.QueryAuth() ==> forall k :: 0 <= k < |log| && (log[k].Opened? || (log[k].Sent? && log[k].frame.EventFrame?)) ==>
        AuthBefore(settings, world, challenge, log, k)
      ensures forall k :: 0 <= k < |log| && log[k].Authenticated? ==>
        var e, at := log[k].event, log[k].at;
        && e.kind == 22242 && world.verifies(e)
        && (exists i: nat :: IsFirstTag(e.tags, "challenge", i) && e.tags[i][1] == challenge)
        && (exists i: nat :: IsFirstTag(e.tags, "relay", i) && world.namesThisRelay(e.tags[i][1]))
        && e.createdAt <= at + settings.authMaxAge && at <= e.createdAt + settings.authMaxAge
      ensures forall sub, k :: sub in subs && 0 <= k < |subs[sub]| ==> FilterAllowed(settings, subs[sub][k])
      ensures forall p :: p in pubkeys ==> AuthBeforeAs(settings, world, challenge, log, |log|, p)
      ensures forall k :: 0 <= k < |log| && log[k].Stored? && log[k].event.pubkey !in settings.owners ==>
        && (settings.PublishAuth() ==> AuthBefore(settings, world, challenge, log, k))
        && (settings.Nip42() && settings.authMustMatchEventPubkey ==>
            AuthBeforeAs(settings, world, challenge, log, k, log[k].event.pubkey))
      ensures settings.Nip42() && settings.authMustMatchEventPubkey ==>
        forall e :: e in broadcasts ==> e.pubkey in settings.owners || e.pubkey in pubkeys
    {
      forall k | 0 <= k < |log| && log[k].Authenticated? {
        VerifiedEntry(k);
      }
      hide AnswersChallenge, Store.Valid, FilterAllowed, Frames, StoredEvents;
      forall sub | sub in subs {
        SubscribedMeansAllowed(sub);
      }
      forall k | 0 <= k < |log| {
        OrderlyMeans(settings, world, challenge, log, k);
      }
      hide MayFollow;
      forall p | p in pubkeys ensures AuthBeforeAs(settings, world, challenge, log, |log|, p) {
        var i :| 0 <= i < |log| && log[i].Authenticated? && log[i].event.pubkey == p;
        VerifiedEntry(i);
      }
      forall e | e in broadcasts && settings.Nip42() && settings.authMustMatchEventPubkey
        ensures e.pubkey in settings.owners || e.pubkey in pubkeys
      {
        StoredAreLogged(log, e);
        var k :| 0 <= k < |log| && log[k] == Stored(e);
        if e.pubkey !in settings.owners {
          assert AuthBeforeAs(settings, world, challenge, log, k, e.pubkey);
        }
      }
    }

    lemma VerifiedEntry(i: nat)
      requires Valid() && i < |log| && log[i].Authenticated?
      ensures AnswersChallenge(settings, world, challenge, log[i].event, log[i].at)
    {
      assert MayFollow(settings, world, challenge, log[..i], log[i]);
    }
  }
}
