/** The handoff from stored results to live results, for one WebSocket session beside any number
    of publishers (NIP-01, "Communication between clients and relays"). Publishers write an event
    file, append its index lines, finish storing it, and broadcast it; the session takes a snapshot
    for a request, filter by filter, registers the subscription, and drains the broadcast queue it
    joined on connecting. A query takes no lock, so it may or may not see an event whose ingest is
    still under way. Events become hidden, by deletes and expiry, and become visible again, when
    someone else's delete takes the tombstone. Another process may store events and broadcast none. */
module Handoff {
  import opened Outcomes
  import opened Sums
  import opened Events
  import opened Answers
  import opened StoreIndex

  /** One line of an index file. */
  datatype Line = Line(key: IndexKey, id: string)

  /** What has happened since a request began: `base` was fully stored then, and `past` was and had
      left the session's queue; `lines` were in the index files. Since then, `dimmed` events have been
      hidden at some moment, counting from when they were stored, and `dark` ones at every moment;
      `dropped` ones were in the queue when the session lagged behind, or are never broadcast. */
  datatype Window = Window(
    base: set<Event>,
    past: set<Event>,
    lines: set<Line>,
    dimmed: set<Event>,
    dark: set<Event>,
    dropped: set<Event>)

  /** A registered subscription. `whole[i]` says that the limit of filter `i` did not fill up. */
  datatype Subscription = Subscription(filters: seq<Query>, whole: seq<bool>, window: Window)

  /** A request being answered, filter by filter. */
  datatype Request = Request(sub: string, filters: seq<Query>, answers: seq<seq<Event>>, window: Window)

  datatype Relay = Relay(
    written: set<Event>,
    lines: set<Line>,
    stored: set<Event>,
    hidden: set<Event>,
    pending: set<Event>,
    queue: seq<Event>,
    subs: map<string, Subscription>,
    request: Option<Request>,
    sent: set<(string, Event)>)

  datatype Step =
    | Write(ev: Event) | AppendLine(ev: Event, key: IndexKey) | FinishStore(ev: Event) | StoreSilently(ev: Event)
    | Broadcast(ev: Event) | SkipHidden(ev: Event)
    | Hide(ev: Event) | Reveal(ev: Event)
    | BeginRequest(sub: string, filters: seq<Query>)
    | Answer(read: IndexKey -> set<string>, files: set<Event>, visible: Event -> bool, result: seq<Event>)
    | EndRequest | Drain | Close(sub: string) | Lag(missed: nat)

  /** Each index file is read at some moment since the request began, and lines are only ever added. */
  ghost predicate ReadSince(s: Relay, w: Window, read: IndexKey -> set<string>) {
    && (forall line :: line in w.lines ==> line.id in read(line.key))
    && (forall key, id :: id in read(key) ==> Line(key, id) in s.lines)
  }

  /** Each event's visibility is looked at at some moment since the request began. */
  ghost predicate JudgedSince(w: Window, files: set<Event>, visible: Event -> bool) {
    forall e :: e in files ==> (e in w.base && e !in w.dimmed ==> visible(e)) && (e in w.dark ==> !visible(e))
  }

  /** The event's file and all its index lines are written. */
  ghost predicate Storable(s: Relay, ev: Event) {
    ev in s.written && ev !in s.stored && forall key :: Carries(ev, key) ==> Line(key, ev.id) in s.lines
  }

  ghost predicate Enabled(lower: string -> string, s: Relay, step: Step) {
    match step
    case Write(ev) => forall f :: f in s.written ==> f.id != ev.id
    case AppendLine(ev, key) => ev in s.written && ev !in s.stored && Carries(ev, key)
    case FinishStore(ev) => Storable(s, ev)
    case StoreSilently(ev) => Storable(s, ev)
    case Broadcast(ev) => ev in s.pending
    case SkipHidden(ev) => ev in s.pending && ev in s.hidden
    case Hide(ev) => ev !in s.hidden
    case Reveal(ev) => ev in s.hidden
    case BeginRequest(sub, filters) => s.request.None?
    case Answer(read, files, visible, result) =>
      s.request.Some? && |s.request.value.answers| < |s.request.value.filters| &&
      var q := s.request.value.filters[|s.request.value.answers|];
      && s.request.value.window.base <= files <= s.written
      && ReadSince(s, s.request.value.window, read) && JudgedSince(s.request.value.window, files, visible)
      && IsAnswer(Found(lower, q, read, files, visible), q.limit, result)
    case EndRequest => s.request.Some? && |s.request.value.answers| == |s.request.value.filters|
    case Drain => s.request.None? && s.queue != []
    case Close(sub) => s.request.None?
    case Lag(missed) => missed <= |s.queue|
  }

  /** The answer has room to spare, so its limit left nothing out. */
  predicate NotFull(q: Query, answer: seq<Event>) {
    q.limit.None? || |answer| < q.limit.value
  }

  function Registered(request: Request): Subscription
    requires |request.answers| == |request.filters|
  {
    Subscription(request.filters, seq(|request.filters|, i requires 0 <= i < |request.filters| =>
      NotFull(request.filters[i], request.answers[i])), request.window)
  }

  predicate LiveMatchesAny(lower: string -> string, e: Event, filters: seq<Query>) {
    exists i :: 0 <= i < |filters| && LiveMatches(lower, e, filters[i])
  }

  /** Some filter asks for the event, whatever ids it lists. */
  ghost predicate WantedLive(lower: string -> string, e: Event, filters: seq<Query>) {
    exists i :: 0 <= i < |filters| && Matches(lower, filters[i].(ids := None), e)
  }

  lemma LiveMatchesWanted(lower: string -> string, e: Event, filters: seq<Query>)
    ensures LiveMatchesAny(lower, e, filters) <==> WantedLive(lower, e, filters)
  {
    forall q {
      LiveAgreesWithStored(lower, e, q);
    }
    hide LiveMatches, Matches;
  }

  ghost function Snapshot(request: Request): set<(string, Event)> {
    set i, e | 0 <= i < |request.answers| && e in request.answers[i] :: (request.sub, e)
  }

  ghost function FanOut(lower: string -> string, s: Relay, e: Event): set<(string, Event)> {
    if e in s.hidden then {}
    else set sub | sub in s.subs && LiveMatchesAny(lower, e, s.subs[sub].filters) :: (sub, e)
  }

  ghost predicate OnItsWay(s: Relay, e: Event) {
    e in s.queue || e in s.pending
  }

  ghost function Opening(s: Relay): Window {
    Window(s.stored, (set e | e in s.stored && !OnItsWay(s, e)), s.lines, s.hidden, s.hidden, {})
  }

  /** What a step adds to the record since a request began. */
  ghost function Observe(w: Window, s: Relay, step: Step): Window {
    match step
    case FinishStore(ev) => w.(dimmed := if ev in s.hidden then w.dimmed + {ev} else w.dimmed - {ev})
    case StoreSilently(ev) =>
      w.(dimmed := if ev in s.hidden then w.dimmed + {ev} else w.dimmed - {ev}, dropped := w.dropped + {ev})
    case Hide(ev) => w.(dimmed := w.dimmed + {ev})
    case Reveal(ev) => w.(dark := w.dark - {ev})
    case Lag(missed) => w.(dropped := w.dropped + if missed <= |s.queue| then Elems(s.queue[..missed]) else {})
    case _ => w
  }

  ghost function ObserveRequest(request: Option<Request>, s: Relay, step: Step): Option<Request> {
    if request.None? then None else Some(request.value.(window := Observe(request.value.window, s, step)))
  }

  ghost function ObserveSubs(subs: map<string, Subscription>, s: Relay, step: Step): map<string, Subscription> {
    map sub | sub in subs :: subs[sub].(window := Observe(subs[sub].window, s, step))
  }

  /** The step itself, before anyone takes note of it. */
  ghost function Act(lower: string -> string, live: bool, s: Relay, step: Step): Relay
    requires Enabled(lower, s, step)
  {
    match step
    case Write(ev) => s.(written := s.written + {ev})
    case AppendLine(ev, key) => s.(lines := s.lines + {Line(key, ev.id)})
    case FinishStore(ev) => s.(stored := s.stored + {ev}, pending := s.pending + {ev})
    case StoreSilently(ev) => s.(stored := s.stored + {ev})
    case Broadcast(ev) => s.(pending := s.pending - {ev}, queue := s.queue + [ev])
    case SkipHidden(ev) => s.(pending := s.pending - {ev})
    case Hide(ev) => s.(hidden := s.hidden + {ev})
    case Reveal(ev) => s.(hidden := s.hidden - {ev})
    case BeginRequest(sub, filters) => s.(request := Some(Request(sub, filters, [], Opening(s))))
    case Answer(_, _, _, result) => s.(request := Some(s.request.value.(answers := s.request.value.answers + [result])))
    case EndRequest =>
      s.(sent := s.sent + Snapshot(s.request.value),
         subs := if live then s.subs[s.request.value.sub := Registered(s.request.value)] else s.subs,
         request := None)
    case Drain => s.(queue := s.queue[1..], sent := s.sent + FanOut(lower, s, s.queue[0]))
    case Close(sub) => s.(subs := s.subs - {sub})
    case Lag(missed) => s.(queue := s.queue[missed..])
  }

  ghost function Do(lower: string -> string, live: bool, s: Relay, step: Step): Relay
    requires Enabled(lower, s, step)
  {
    var t := Act(lower, live, s, step);
    t.(request := ObserveRequest(t.request, s, step), subs := ObserveSubs(t.subs, s, step))
  }

  /** A stored event has all its lines, and every line is some written event's. */
  ghost predicate LinesSound(s: Relay) {
    && (forall e, key :: e in s.stored && Carries(e, key) ==> Line(key, e.id) in s.lines)
    && (forall line :: line in s.lines ==> exists e :: e in s.written && e.id == line.id && Carries(e, line.key))
  }

  /** A session that has just connected to a relay in any state: it has seen nothing yet. */
  ghost predicate Connected(s: Relay) {
    && IdsDiffer(s.written) && s.stored <= s.written && s.pending <= s.stored && LinesSound(s)
    && s.queue == [] && s.subs == map[] && s.request == None && s.sent == {}
  }

  ghost predicate Moves(lower: string -> string, live: bool, s: Relay, step: Step, t: Relay) {
    Enabled(lower, s, step) && t == Do(lower, live, s, step)
  }

  ghost predicate Run(lower: string -> string, live: bool, trace: seq<Relay>, steps: seq<Step>) {
    && |trace| == |steps| + 1
    && forall i :: 0 <= i < |steps| ==> Moves(lower, live, trace[i], steps[i], trace[i + 1])
  }

  lemma MovesAt(lower: string -> string, live: bool, trace: seq<Relay>, steps: seq<Step>, i: nat)
    requires Run(lower, live, trace, steps) && i < |steps|
    ensures |trace| == |steps| + 1 && Moves(lower, live, trace[i], steps[i], trace[i + 1])
  {
  }

  // -------------------------------------------------------------- a snapshot

  /** `e` itself, or a newer version at its address, which replaces it. */
  ghost predicate Supersedes(newer: Event, e: Event) {
    newer == e || (Address(e).Some? && Address(newer) == Address(e) && Older(e, newer))
  }

  /** A record since some request, in a relay that runs on. */
  ghost predicate WindowSound(s: Relay, w: Window) {
    && w.past <= w.base <= s.stored && w.lines <= s.lines
    && (forall e, key :: e in w.base && Carries(e, key) ==> Line(key, e.id) in w.lines)
    && (forall e :: e in s.stored && e in s.hidden ==> e in w.dimmed)
    && w.dark <= s.hidden
  }

  /** A query beside ingests and deletes finds everything that was stored before the request began and
      has been visible since, and nothing that fails its filter or has been hidden all along. */
  lemma FoundSince(lower: string -> string, s: Relay, w: Window, q: Query, read: IndexKey -> set<string>, files: set<Event>,
      visible: Event -> bool)
    requires IdsDiffer(s.written) && s.stored <= s.written && LinesSound(s) && WindowSound(s, w)
    requires w.base <= files <= s.written && ReadSince(s, w, read) && JudgedSince(w, files, visible)
    ensures forall e :: e in w.base && Matches(lower, q, e) && e !in w.dimmed ==> e in Found(lower, q, read, files, visible)
    ensures forall e :: e in Found(lower, q, read, files, visible) ==> e in s.written && Matches(lower, q, e) && e !in w.dark
  {
    assert ReadBetween(w.base, s.written, read) by {
      forall key, e | e in w.base && Carries(e, key) ensures e.id in read(key) {
        assert Line(key, e.id) in w.lines;
      }
      forall key, id | id in read(key) ensures exists e :: e in s.written && e.id == id && Carries(e, key) {
        assert Line(key, id) in s.lines;
      }
    }
    forall e | e in files {
      LookupBetween(q, w.base, s.written, read, e);
    }
  }

  /** An answer that its limit did not fill covers everything that was stored when the request began
      and has been visible since. */
  ghost predicate AnswerCovers(lower: string -> string, w: Window, q: Query, answer: seq<Event>) {
    NotFull(q, answer) ==>
      forall e :: e in w.base && e !in w.dimmed && Matches(lower, q, e) ==>
        exists newer :: newer in answer && Supersedes(newer, e)
  }

  /** An answer holds only matching events on disk that have not been hidden all along. */
  ghost predicate AnswerGenuine(lower: string -> string, s: Relay, w: Window, q: Query, answer: seq<Event>) {
    forall e :: e in answer ==> e in s.written && Matches(lower, q, e) && e !in w.dark
  }

  lemma AnswerIsSound(lower: string -> string, s: Relay, w: Window, q: Query, matching: set<Event>, answer: seq<Event>)
    requires IdsDiffer(s.written) && IsAnswer(matching, q.limit, answer)
    requires forall e :: e in w.base && Matches(lower, q, e) && e !in w.dimmed ==> e in matching
    requires forall e :: e in matching ==> e in s.written && Matches(lower, q, e) && e !in w.dark
    ensures AnswerCovers(lower, w, q, answer) && AnswerGenuine(lower, s, w, q, answer)
  {
    assert IdsDiffer(matching);
    AnswerContents(matching, q.limit, answer);
    if NotFull(q, answer) {
      assert IsAnswer(matching, None, answer) by {
        var full :| ListsSurvivors(matching, full) && answer == Truncate(full, q.limit);
        assert answer == Truncate(full, None);
      }
      AnswerContents(matching, None, answer);
    }
  }

  // ------------------------------------------------------------ the invariant

  ghost predicate Delivered(s: Relay, sub: string, e: Event) {
    exists newer :: (sub, newer) in s.sent && Supersedes(newer, e)
  }

  /** No event falls between the snapshot and the live feed of this subscription. */
  ghost predicate NoGap(lower: string -> string, s: Relay, sub: string)
    requires sub in s.subs
  {
    var filters, whole, w := s.subs[sub].filters, s.subs[sub].whole, s.subs[sub].window;
    && |whole| == |filters| && WindowSound(s, w)
    && (forall e, i :: e in w.base && e !in w.dimmed && 0 <= i < |filters| && whole[i] && Matches(lower, filters[i], e) ==>
          Delivered(s, sub, e))
    && (forall e, i :: Awaited(s, w, e) && 0 <= i < |filters| && Matches(lower, filters[i], e) ==>
          Delivered(s, sub, e) || OnItsWay(s, e))
  }

  /** Stored, visible since, and neither through the queue before the request nor dropped from it since. */
  ghost predicate Awaited(s: Relay, w: Window, e: Event) {
    e in s.stored && e !in w.dimmed && e !in w.past && e !in w.dropped
  }

  ghost predicate RequestSound(lower: string -> string, s: Relay, request: Request) {
    && |request.answers| <= |request.filters| && WindowSound(s, request.window)
    && (forall i :: 0 <= i < |request.answers| ==>
          && AnswerCovers(lower, request.window, request.filters[i], request.answers[i])
          && AnswerGenuine(lower, s, request.window, request.filters[i], request.answers[i]))
    && (forall e :: Awaited(s, request.window, e) ==> OnItsWay(s, e))
  }

  ghost predicate Inv(lower: string -> string, s: Relay) {
    && IdsDiffer(s.written) && s.stored <= s.written && LinesSound(s)
    && (forall sub :: sub in s.subs ==> NoGap(lower, s, sub))
    && (s.request.Some? ==> RequestSound(lower, s, s.request.value))
  }

  /** Steps of publishers, of visibility and of the broadcast channel. */
  predicate Outside(step: Step) {
    !step.BeginRequest? && !step.Answer? && !step.EndRequest? && !step.Drain? && !step.Close?
  }

  lemma OutsideKeepsLines(lower: string -> string, live: bool, s: Relay, step: Step)
    requires Inv(lower, s) && Enabled(lower, s, step) && Outside(step)
    ensures var t := Do(lower, live, s, step);
      IdsDiffer(t.written) && t.stored <= t.written && LinesSound(t)
  {
    var t := Do(lower, live, s, step);
    forall line | line in t.lines ensures exists e :: e in t.written && e.id == line.id && Carries(e, line.key) {
      if line in s.lines {
        var e :| e in s.written && e.id == line.id && Carries(e, line.key);
        assert e in t.written;
      } else {
        assert step.ev in t.written;
      }
    }
  }

  /** A step from outside keeps a record sound, and whatever is still awaited afterwards was awaited
      before or has just been stored; what was on its way still is, unless it no longer counts. */
  lemma OutsideStep(lower: string -> string, live: bool, s: Relay, step: Step, w: Window)
    requires Enabled(lower, s, step) && Outside(step) && WindowSound(s, w)
    ensures var t, w' := Do(lower, live, s, step), Observe(w, s, step);
      && WindowSound(t, w') && w'.base == w.base && w'.past == w.past && w'.dark <= w.dark
      && (forall e :: e in w.base && e !in w'.dimmed ==> e !in w.dimmed)
      && (forall e :: Awaited(t, w', e) ==> OnItsWay(t, e) || (Awaited(s, w, e) && !OnItsWay(s, e)))
      && t.sent == s.sent && s.written <= t.written
  {
    var t, w' := Do(lower, live, s, step), Observe(w, s, step);
    forall e | Awaited(t, w', e) && OnItsWay(s, e) ensures OnItsWay(t, e) {
      if step.Lag? {
        assert s.queue == s.queue[..step.missed] + s.queue[step.missed..];
      } else if step.Broadcast? {
        assert t.queue[|s.queue|] == step.ev;
        if e in s.queue {
          var i :| 0 <= i < |s.queue| && s.queue[i] == e;
          assert t.queue[i] == e;
        }
      }
    }
  }

  lemma OutsideKeepsNoGap(lower: string -> string, live: bool, s: Relay, step: Step, sub: string)
    requires Enabled(lower, s, step) && Outside(step) && sub in s.subs && NoGap(lower, s, sub)
    ensures NoGap(lower, Do(lower, live, s, step), sub)
  {
    var t := Do(lower, live, s, step);
    var w, w', filters := s.subs[sub].window, t.subs[sub].window, s.subs[sub].filters;
    OutsideStep(lower, live, s, step, w);
    forall e | Delivered(s, sub, e) ensures Delivered(t, sub, e) {
      var newer :| (sub, newer) in s.sent && Supersedes(newer, e);
      assert (sub, newer) in t.sent;
    }
    hide Do, WindowSound, Matches, Supersedes, OnItsWay, Awaited, Enabled;
  }

  lemma OutsideKeepsRequest(lower: string -> string, live: bool, s: Relay, step: Step)
    requires Enabled(lower, s, step) && Outside(step) && s.request.Some? && RequestSound(lower, s, s.request.value)
    ensures Do(lower, live, s, step).request.Some?
    ensures RequestSound(lower, Do(lower, live, s, step), Do(lower, live, s, step).request.value)
  {
    var t := Do(lower, live, s, step);
    var request := s.request.value;
    assert t.request == Some(request.(window := Observe(request.window, s, step)));
    OutsideStep(lower, live, s, step, request.window);
    hide Do, WindowSound, Matches, Supersedes, OnItsWay, Awaited, Enabled;
  }

  lemma OutsideKeepsInv(lower: string -> string, live: bool, s: Relay, step: Step)
    requires Inv(lower, s) && Enabled(lower, s, step) && Outside(step)
    ensures Inv(lower, Do(lower, live, s, step))
  {
    var t := Do(lower, live, s, step);
    OutsideKeepsLines(lower, live, s, step);
    assert t.subs.Keys == s.subs.Keys && t.request.Some? == s.request.Some?;
    hide Enabled, Do, NoGap, RequestSound, LinesSound;
    forall sub | sub in t.subs ensures NoGap(lower, t, sub) {
      OutsideKeepsNoGap(lower, live, s, step, sub);
    }
    if t.request.Some? {
      OutsideKeepsRequest(lower, live, s, step);
    }
  }

  /** What was covered stays covered while nothing is unsent and what leaves the queue has been handled. */
  lemma Carry(lower: string -> string, s: Relay, t: Relay, sub: string)
    requires sub in s.subs && sub in t.subs && s.subs[sub] == t.subs[sub] && NoGap(lower, s, sub)
    requires s.sent <= t.sent && s.stored == t.stored && s.hidden == t.hidden && s.lines == t.lines
    requires forall e :: e in s.stored && e !in s.hidden && OnItsWay(s, e) ==> OnItsWay(t, e) || Handled(lower, t, e)
    ensures NoGap(lower, t, sub)
  {
    var filters, w := s.subs[sub].filters, s.subs[sub].window;
    forall e | Delivered(s, sub, e) ensures Delivered(t, sub, e) {
      var newer :| (sub, newer) in s.sent && Supersedes(newer, e);
      assert (sub, newer) in t.sent;
    }
    forall e, i | Awaited(t, w, e) && 0 <= i < |filters| && Matches(lower, filters[i], e)
      ensures Delivered(t, sub, e) || OnItsWay(t, e)
    {
      assert Awaited(s, w, e);
      if !Delivered(s, sub, e) && !OnItsWay(t, e) {
        LiveAgreesWithStored(lower, e, filters[i]);
        assert LiveMatchesAny(lower, e, t.subs[sub].filters);
        assert (sub, e) in t.sent && Supersedes(e, e);
      }
    }
  }

  /** `e` has been sent on every subscription that matches it live. */
  ghost predicate Handled(lower: string -> string, t: Relay, e: Event) {
    forall sub :: sub in t.subs && LiveMatchesAny(lower, e, t.subs[sub].filters) ==> (sub, e) in t.sent
  }

  lemma UnobservedSubs(subs: map<string, Subscription>, s: Relay, step: Step)
    requires !Outside(step)
    ensures ObserveSubs(subs, s, step) == subs
  {
    forall sub | sub in subs ensures ObserveSubs(subs, s, step)[sub] == subs[sub] {
    }
  }

  lemma DrainKeepsInv(lower: string -> string, live: bool, s: Relay)
    requires Inv(lower, s) && Enabled(lower, s, Drain)
    ensures Inv(lower, Do(lower, live, s, Drain))
  {
    var t := Do(lower, live, s, Drain);
    UnobservedSubs(s.subs, s, Drain);
    var head := s.queue[0];
    assert s.queue == [head] + t.queue;
    if head !in s.hidden {
      forall sub | sub in t.subs && LiveMatchesAny(lower, head, t.subs[sub].filters) ensures (sub, head) in t.sent {
        assert (sub, head) in FanOut(lower, s, head);
      }
      assert Handled(lower, t, head);
    }
    forall sub | sub in t.subs ensures NoGap(lower, t, sub) {
      assert NoGap(lower, s, sub);
      Carry(lower, s, t, sub);
    }
  }

  lemma EndKeepsInv(lower: string -> string, live: bool, s: Relay)
    requires Inv(lower, s) && Enabled(lower, s, EndRequest)
    ensures Inv(lower, Do(lower, live, s, EndRequest))
  {
    var t := Do(lower, live, s, EndRequest);
    var request := s.request.value;
    UnobservedSubs(Act(lower, live, s, EndRequest).subs, s, EndRequest);
    forall sub | sub in t.subs ensures NoGap(lower, t, sub) {
      if live && sub == request.sub {
        RegisteredHasNoGap(lower, s, t);
      } else {
        assert NoGap(lower, s, sub);
        Carry(lower, s, t, sub);
      }
    }
  }

  /** Registering after the snapshot: what the snapshot did not see is queued or pending. */
  lemma RegisteredHasNoGap(lower: string -> string, s: Relay, t: Relay)
    requires s.request.Some? && |s.request.value.answers| == |s.request.value.filters| && RequestSound(lower, s, s.request.value)
    requires t == s.(sent := s.sent + Snapshot(s.request.value),
                     subs := s.subs[s.request.value.sub := Registered(s.request.value)], request := None)
    ensures NoGap(lower, t, s.request.value.sub)
  {
    var request := s.request.value;
    var sub, w, filters, whole := request.sub, request.window, request.filters, t.subs[request.sub].whole;
    forall e, i | e in w.base && e !in w.dimmed && 0 <= i < |filters| && whole[i] && Matches(lower, filters[i], e)
      ensures Delivered(t, sub, e)
    {
      assert AnswerCovers(lower, w, filters[i], request.answers[i]);
      var newer :| newer in request.answers[i] && Supersedes(newer, e);
      assert (sub, newer) in Snapshot(request);
      assert (sub, newer) in t.sent;
    }
    forall e | Awaited(t, w, e) ensures OnItsWay(t, e) {
      assert Awaited(s, w, e);
    }
  }

  lemma AnswerKeepsInv(lower: string -> string, live: bool, s: Relay, step: Step)
    requires Inv(lower, s) && Enabled(lower, s, step) && step.Answer?
    ensures Inv(lower, Do(lower, live, s, step))
  {
    var t := Do(lower, live, s, step);
    UnobservedSubs(s.subs, s, step);
    var request := s.request.value;
    var q := request.filters[|request.answers|];
    FoundSince(lower, s, request.window, q, step.read, step.files, step.visible);
    AnswerIsSound(lower, s, request.window, q, Found(lower, q, step.read, step.files, step.visible), step.result);
    forall sub | sub in t.subs ensures NoGap(lower, t, sub) {
      assert NoGap(lower, s, sub);
      Carry(lower, s, t, sub);
    }
    forall e | Awaited(t, request.window, e) ensures OnItsWay(t, e) {
      assert Awaited(s, request.window, e);
    }
    hide Found, FoundUnder, Matches, AnswerCovers, AnswerGenuine, NoGap;
  }

  lemma SessionKeepsInv(lower: string -> string, live: bool, s: Relay, step: Step)
    requires Inv(lower, s) && Enabled(lower, s, step)
    requires step.BeginRequest? || step.Close?
    ensures Inv(lower, Do(lower, live, s, step))
  {
    var t := Do(lower, live, s, step);
    UnobservedSubs(Act(lower, live, s, step).subs, s, step);
    forall sub | sub in t.subs ensures NoGap(lower, t, sub) {
      assert NoGap(lower, s, sub);
      Carry(lower, s, t, sub);
    }
  }

  lemma InvStep(lower: string -> string, live: bool, s: Relay, step: Step)
    requires Inv(lower, s) && Enabled(lower, s, step)
    ensures Inv(lower, Do(lower, live, s, step))
  {
    match step
    case Answer(_, _, _, _) => AnswerKeepsInv(lower, live, s, step);
    case EndRequest => EndKeepsInv(lower, live, s);
    case Drain => DrainKeepsInv(lower, live, s);
    case BeginRequest(sub, filters) => SessionKeepsInv(lower, live, s, step);
    case Close(sub) => SessionKeepsInv(lower, live, s, step);
    case _ => OutsideKeepsInv(lower, live, s, step);
  }

  lemma {:induction false} InvAlways(lower: string -> string, live: bool, trace: seq<Relay>, steps: seq<Step>, i: nat)
    requires Run(lower, live, trace, steps) && Connected(trace[0]) && i < |trace|
    ensures Inv(lower, trace[i])
  {
    if i > 0 {
      InvAlways(lower, live, trace, steps, i - 1);
      assert Moves(lower, live, trace[i - 1], steps[i - 1], trace[i]);
      InvStep(lower, live, trace[i - 1], steps[i - 1]);
      hide Enabled, Do, Inv;
    }
  }

  // ----------------------------------------------------- requests in a run

  /** The request under way at moment `i` began with step `b`. */
  ghost predicate UnderWaySince(steps: seq<Step>, b: nat, i: nat) {
    && b < i <= |steps| && steps[b].BeginRequest?
    && forall j :: b < j < i ==> !steps[j].BeginRequest? && !steps[j].EndRequest?
  }

  /** The request begun by step `b` ended with step `c` and opened the subscription still open at moment `i`. */
  ghost predicate OpenSince(trace: seq<Relay>, steps: seq<Step>, b: nat, c: nat, i: nat) {
    && c < i <= |steps| < |trace| && UnderWaySince(steps, b, c) && steps[c].EndRequest?
    && forall j :: c < j < i ==> steps[j] != Close(steps[b].sub) && !(steps[j].EndRequest? && Reopens(trace[j], steps[b].sub))
  }

  ghost predicate Reopens(s: Relay, sub: string) {
    s.request.Some? && s.request.value.sub == sub
  }

  /** The step drops `e` from the queue, or stores it without a broadcast. */
  ghost predicate Drops(s: Relay, step: Step, e: Event) {
    (step.Lag? && step.missed <= |s.queue| && e in s.queue[..step.missed]) || step == StoreSilently(e)
  }

  /** The record tells what has happened in the run since step `b`. */
  ghost predicate Recalls(trace: seq<Relay>, steps: seq<Step>, b: nat, i: nat, w: Window)
    requires b < i < |trace| && i <= |steps|
  {
    && w.base == trace[b].stored
    && (forall e :: e in w.past <==> e in trace[b].stored && !OnItsWay(trace[b], e))
    && (forall e :: e in w.dimmed && e in trace[i].stored ==> exists j :: b < j <= i && e in trace[j].stored && e in trace[j].hidden)
    && (forall e :: e !in w.dark ==> exists j :: b < j <= i && e !in trace[j].hidden)
    && (forall e :: e in w.dropped ==> exists j :: b < j < i && Drops(trace[j], steps[j], e))
  }

  lemma RecallsStep(lower: string -> string, live: bool, trace: seq<Relay>, steps: seq<Step>, b: nat, i: nat, w: Window)
    requires b < i < |steps| < |trace| && Moves(lower, live, trace[i], steps[i], trace[i + 1])
    requires Recalls(trace, steps, b, i, w)
    ensures Recalls(trace, steps, b, i + 1, Observe(w, trace[i], steps[i]))
  {
    var w' := Observe(w, trace[i], steps[i]);
    var s, t := trace[i], trace[i + 1];
    forall e | e in w'.dimmed && e in t.stored ensures exists j :: b < j <= i + 1 && e in trace[j].stored && e in trace[j].hidden {
      if e !in t.hidden {
        assert e in w.dimmed && e in s.stored;
      }
    }
    forall e | e !in w'.dark ensures exists j :: b < j <= i + 1 && e !in trace[j].hidden {
      if e in w.dark {
        assert e !in t.hidden;
      }
    }
    forall e | e in w'.dropped ensures exists j :: b < j < i + 1 && Drops(trace[j], steps[j], e) {
      if e !in w.dropped {
        assert Drops(trace[i], steps[i], e);
      }
    }
  }

  lemma RequestStays(lower: string -> string, live: bool, s: Relay, step: Step, t: Relay)
    requires Moves(lower, live, s, step, t) && !step.BeginRequest?
    ensures t.request.Some? <==> s.request.Some? && !step.EndRequest?
    ensures t.request.Some? ==>
      && t.request.value.sub == s.request.value.sub && t.request.value.filters == s.request.value.filters
      && t.request.value.window == Observe(s.request.value.window, s, step)
  {
  }

  lemma SubscriptionStays(lower: string -> string, live: bool, s: Relay, step: Step, t: Relay, sub: string)
    requires Moves(lower, live, s, step, t) && !(step.EndRequest? && Reopens(s, sub))
    ensures sub in t.subs <==> sub in s.subs && step != Close(sub)
    ensures sub in t.subs ==> t.subs[sub] == s.subs[sub].(window := Observe(s.subs[sub].window, s, step))
  {
  }

  lemma RecallsFirst(lower: string -> string, live: bool, trace: seq<Relay>, steps: seq<Step>, b: nat)
    requires b < |steps| < |trace| && steps[b].BeginRequest? && Moves(lower, live, trace[b], steps[b], trace[b + 1])
    ensures RequestRecalls(trace, steps, b, b + 1)
  {
    assert trace[b + 1].hidden == trace[b].hidden;
    assert trace[b + 1].request == Some(Request(steps[b].sub, steps[b].filters, [], Opening(trace[b])));
    assert Recalls(trace, steps, b, b + 1, Opening(trace[b]));
  }

  /** The request of step `b` is under way, and its record tells what happened since. */
  ghost predicate RequestRecalls(trace: seq<Relay>, steps: seq<Step>, b: nat, i: nat)
    requires b < i <= |steps| < |trace|
  {
    && steps[b].BeginRequest? && trace[i].request.Some?
    && trace[i].request.value.sub == steps[b].sub && trace[i].request.value.filters == steps[b].filters
    && Recalls(trace, steps, b, i, trace[i].request.value.window)
  }

  lemma RequestRecallsStep(lower: string -> string, live: bool, trace: seq<Relay>, steps: seq<Step>, b: nat, i: nat)
    requires b < i < |steps| < |trace| && Moves(lower, live, trace[i], steps[i], trace[i + 1])
    requires RequestRecalls(trace, steps, b, i) && !steps[i].BeginRequest? && !steps[i].EndRequest?
    ensures RequestRecalls(trace, steps, b, i + 1)
  {
    RequestStays(lower, live, trace[i], steps[i], trace[i + 1]);
    RecallsStep(lower, live, trace, steps, b, i, trace[i].request.value.window);
    hide Moves, Recalls;
  }

  lemma {:induction false} UnderWayMeansRecalls(lower: string -> string, live: bool, trace: seq<Relay>, steps: seq<Step>, b: nat, i: nat)
    requires Run(lower, live, trace, steps) && UnderWaySince(steps, b, i)
    ensures RequestRecalls(trace, steps, b, i)
  {
    hide Run, Moves, RequestRecalls, Recalls;
    MovesAt(lower, live, trace, steps, i - 1);
    if i > b + 1 {
      UnderWayMeansRecalls(lower, live, trace, steps, b, i - 1);
      RequestRecallsStep(lower, live, trace, steps, b, i - 1);
    } else {
      RecallsFirst(lower, live, trace, steps, b);
    }
  }

  /** The subscription opened by the request of step `b` is open, and its record tells what happened since. */
  ghost predicate SubscriptionRecalls(trace: seq<Relay>, steps: seq<Step>, b: nat, i: nat)
    requires b < i <= |steps| < |trace|
  {
    steps[b].BeginRequest? &&
    var sub := steps[b].sub;
    && sub in trace[i].subs && trace[i].subs[sub].filters == steps[b].filters
    && Recalls(trace, steps, b, i, trace[i].subs[sub].window)
  }

  lemma SubscriptionRecallsStep(lower: string -> string, trace: seq<Relay>, steps: seq<Step>, b: nat, i: nat)
    requires b < i < |steps| < |trace| && Moves(lower, true, trace[i], steps[i], trace[i + 1])
    requires SubscriptionRecalls(trace, steps, b, i)
    requires steps[i] != Close(steps[b].sub) && !(steps[i].EndRequest? && Reopens(trace[i], steps[b].sub))
    ensures SubscriptionRecalls(trace, steps, b, i + 1)
  {
    SubscriptionStays(lower, true, trace[i], steps[i], trace[i + 1], steps[b].sub);
    RecallsStep(lower, true, trace, steps, b, i, trace[i].subs[steps[b].sub].window);
    hide Moves, Recalls;
  }

  lemma RegistersRequest(lower: string -> string, trace: seq<Relay>, steps: seq<Step>, b: nat, c: nat)
    requires b < c < |steps| < |trace| && steps[c].EndRequest? && Moves(lower, true, trace[c], steps[c], trace[c + 1])
    requires RequestRecalls(trace, steps, b, c)
    ensures SubscriptionRecalls(trace, steps, b, c + 1)
  {
    var request := trace[c].request.value;
    var kept := trace[c + 1].subs[request.sub];
    assert kept.filters == request.filters && kept.window == Observe(request.window, trace[c], steps[c]);
    RecallsStep(lower, true, trace, steps, b, c, request.window);
    hide Recalls;
  }

  lemma {:induction false} OpenMeansRecalls(lower: string -> string, trace: seq<Relay>, steps: seq<Step>, b: nat, c: nat, i: nat)
    requires Run(lower, true, trace, steps) && OpenSince(trace, steps, b, c, i)
    ensures SubscriptionRecalls(trace, steps, b, i)
  {
    hide Run, Moves, RequestRecalls, SubscriptionRecalls;
    MovesAt(lower, true, trace, steps, i - 1);
    if i > c + 1 {
      assert OpenSince(trace, steps, b, c, i - 1);
      OpenMeansRecalls(lower, trace, steps, b, c, i - 1);
      SubscriptionRecallsStep(lower, trace, steps, b, i - 1);
    } else {
      UnderWayMeansRecalls(lower, true, trace, steps, b, c);
      RegistersRequest(lower, trace, steps, b, c);
    }
  }

  /** Every request under way, and every open subscription, has such a beginning. */
  lemma {:induction false} RequestBegan(lower: string -> string, live: bool, trace: seq<Relay>, steps: seq<Step>, i: nat)
    returns (b: nat)
    requires Run(lower, live, trace, steps) && Connected(trace[0]) && i < |trace| && trace[i].request.Some?
    ensures UnderWaySince(steps, b, i)
  {
    assert Moves(lower, live, trace[i - 1], steps[i - 1], trace[i]);
    if steps[i - 1].BeginRequest? {
      b := i - 1;
    } else {
      RequestStays(lower, live, trace[i - 1], steps[i - 1], trace[i]);
      b := RequestBegan(lower, live, trace, steps, i - 1);
    }
  }

  lemma {:induction false} SubscriptionBegan(lower: string -> string, live: bool, trace: seq<Relay>, steps: seq<Step>, i: nat, sub: string)
    returns (b: nat, c: nat)
    requires Run(lower, live, trace, steps) && Connected(trace[0]) && i <= |steps| && sub in trace[i].subs
    ensures OpenSince(trace, steps, b, c, i) && steps[b].sub == sub
  {
    assert i > 0;
    hide Run, Moves, RequestRecalls, Connected, OpenSince;
    MovesAt(lower, live, trace, steps, i - 1);
    if steps[i - 1].EndRequest? && Reopens(trace[i - 1], sub) {
      b := RequestBegan(lower, live, trace, steps, i - 1);
      c := i - 1;
      UnderWayMeansRecalls(lower, live, trace, steps, b, c);
      OpensNow(trace, steps, b, c);
    } else {
      SubscriptionStays(lower, live, trace[i - 1], steps[i - 1], trace[i], sub);
      b, c := SubscriptionBegan(lower, live, trace, steps, i - 1, sub);
      OpenStill(trace, steps, b, c, i - 1);
    }
  }

  lemma OpensNow(trace: seq<Relay>, steps: seq<Step>, b: nat, c: nat)
    requires c < |steps| < |trace| && UnderWaySince(steps, b, c) && steps[c].EndRequest? && RequestRecalls(trace, steps, b, c)
    ensures OpenSince(trace, steps, b, c, c + 1) && trace[c].request.Some? && steps[b].sub == trace[c].request.value.sub
  {
  }

  lemma OpenStill(trace: seq<Relay>, steps: seq<Step>, b: nat, c: nat, i: nat)
    requires OpenSince(trace, steps, b, c, i) && i < |steps|
    requires steps[i] != Close(steps[b].sub) && !(steps[i].EndRequest? && Reopens(trace[i], steps[b].sub))
    ensures OpenSince(trace, steps, b, c, i + 1)
  {
  }

  // ------------------------------------------------------------ the claims

  /** The limit of filter `k` left room in the answer that the request got which step `c` ended. */
  ghost predicate LeftRoom(trace: seq<Relay>, filters: seq<Query>, c: nat, k: nat)
    requires c < |trace| && k < |filters|
  {
    && trace[c].request.Some? && k < |trace[c].request.value.answers|
    && (filters[k].limit == None || |trace[c].request.value.answers[k]| < filters[k].limit.value)
  }

  /** What the subscription knows of its limits is what they left room for in the answer. */
  lemma {:induction false} WholeIsRoom(lower: string -> string, trace: seq<Relay>, steps: seq<Step>, b: nat, c: nat, i: nat, k: nat)
    requires Run(lower, true, trace, steps) && OpenSince(trace, steps, b, c, i) && k < |steps[b].filters|
    ensures steps[b].sub in trace[i].subs && k < |trace[i].subs[steps[b].sub].whole|
    ensures trace[i].subs[steps[b].sub].whole[k] <==> LeftRoom(trace, steps[b].filters, c, k)
  {
    hide Run, Moves, LeftRoom, Recalls, Reopens, RequestRecalls;
    MovesAt(lower, true, trace, steps, i - 1);
    if i > c + 1 {
      assert OpenSince(trace, steps, b, c, i - 1);
      WholeIsRoom(lower, trace, steps, b, c, i - 1, k);
      OpenMeansRecalls(lower, trace, steps, b, c, i);
      SubscriptionStays(lower, true, trace[i - 1], steps[i - 1], trace[i], steps[b].sub);
    } else {
      UnderWayMeansRecalls(lower, true, trace, steps, b, c);
      RoomWhenRegistered(lower, trace, steps, b, c, k);
    }
  }

  lemma RoomWhenRegistered(lower: string -> string, trace: seq<Relay>, steps: seq<Step>, b: nat, c: nat, k: nat)
    requires b < c < |steps| < |trace| && steps[c].EndRequest? && Moves(lower, true, trace[c], steps[c], trace[c + 1])
    requires RequestRecalls(trace, steps, b, c) && k < |steps[b].filters|
    ensures steps[b].sub in trace[c + 1].subs && k < |trace[c + 1].subs[steps[b].sub].whole|
    ensures trace[c + 1].subs[steps[b].sub].whole[k] <==> LeftRoom(trace, steps[b].filters, c, k)
  {
  }

  /** In every interleaving, at every moment of an open subscription: a stored event that matches it and
      has been visible at every moment since it was stored and the subscription's request began has been
      delivered, or a newer version at its address has, if it was there at the beginning and the limit
      left room; and otherwise, if it had not gone through the session's queue before and no lag has
      dropped it, it has been delivered, or is in the queue, or its publisher has yet to broadcast it. */
  lemma HandoffHasNoGap(lower: string -> string, trace: seq<Relay>, steps: seq<Step>, b: nat, c: nat, i: nat, k: nat, e: Event)
    requires Run(lower, true, trace, steps) && Connected(trace[0])
    requires OpenSince(trace, steps, b, c, i) && k < |steps[b].filters|
    requires e in trace[i].stored && Matches(lower, steps[b].filters[k], e)
    requires forall j :: b < j <= i && e in trace[j].stored ==> e !in trace[j].hidden
    ensures var sub := steps[b].sub;
      && sub in trace[i].subs
      && (e in trace[b].stored && LeftRoom(trace, steps[b].filters, c, k) ==> Delivered(trace[i], sub, e))
      && ((e in trace[b].stored ==> OnItsWay(trace[b], e)) && (forall j :: b < j < i ==> !Drops(trace[j], steps[j], e)) ==>
          Delivered(trace[i], sub, e) || e in trace[i].queue || e in trace[i].pending)
      && (Address(e).None? ==> (Delivered(trace[i], sub, e) <==> (sub, e) in trace[i].sent))
  {
    var sub := steps[b].sub;
    InvAlways(lower, true, trace, steps, i);
    OpenMeansRecalls(lower, trace, steps, b, c, i);
    WholeIsRoom(lower, trace, steps, b, c, i, k);
    RecordSays(trace, steps, b, i, trace[i].subs[sub].window, e);
    hide *;
    CoveredNow(lower, trace[i], sub, k, e);
  }

  lemma RecordSays(trace: seq<Relay>, steps: seq<Step>, b: nat, i: nat, w: Window, e: Event)
    requires b < i <= |steps| < |trace| && Recalls(trace, steps, b, i, w)
    requires e in trace[i].stored && forall j :: b < j <= i && e in trace[j].stored ==> e !in trace[j].hidden
    ensures e !in w.dimmed && (e in trace[b].stored <==> e in w.base)
    ensures (e in trace[b].stored ==> OnItsWay(trace[b], e)) && (forall j :: b < j < i ==> !Drops(trace[j], steps[j], e)) ==>
      e !in w.past && e !in w.dropped
  {
  }

  /** What the invariant says of an event that matches filter `k` and has never been hidden. */
  lemma CoveredNow(lower: string -> string, s: Relay, sub: string, k: nat, e: Event)
    requires Inv(lower, s) && sub in s.subs && k < |s.subs[sub].filters| && k < |s.subs[sub].whole|
    requires e in s.stored && Matches(lower, s.subs[sub].filters[k], e) && e !in s.subs[sub].window.dimmed
    ensures e in s.subs[sub].window.base && s.subs[sub].whole[k] ==> Delivered(s, sub, e)
    ensures e !in s.subs[sub].window.past && e !in s.subs[sub].window.dropped ==>
      Delivered(s, sub, e) || e in s.queue || e in s.pending
    ensures Address(e).None? ==> (Delivered(s, sub, e) <==> (sub, e) in s.sent)
  {
    assert NoGap(lower, s, sub);
    hide Inv, Matches;
    if e !in s.subs[sub].window.past && e !in s.subs[sub].window.dropped {
      assert Awaited(s, s.subs[sub].window, e);
    }
    if Address(e).None? && (sub, e) in s.sent {
      assert Supersedes(e, e);
    }
  }

  /** The request that began with step `b` matches `e`, which was visible at some moment of it. */
  ghost predicate Deserves(lower: string -> string, trace: seq<Relay>, steps: seq<Step>, b: nat, i: nat, sub: string, e: Event) {
    && UnderWaySince(steps, b, i) && i < |trace| && steps[b].sub == sub
    && (exists j :: b < j <= i && e !in trace[j].hidden)
    && (exists k :: 0 <= k < |steps[b].filters| && Matches(lower, steps[b].filters[k], e))
  }

  /** In every interleaving, a step sends an event on a subscription only to answer a request with a
      filter it matches, if it was visible at some moment of that request, or live, while it is visible,
      on an open subscription that matches it. */
  lemma DeliveriesAreDeserved(lower: string -> string, live: bool, trace: seq<Relay>, steps: seq<Step>, i: nat, sub: string, e: Event)
    requires Run(lower, live, trace, steps) && Connected(trace[0]) && i < |steps|
    requires (sub, e) in trace[i + 1].sent && (sub, e) !in trace[i].sent
    ensures
      || (steps[i].EndRequest? && e in trace[i].written && exists b: nat :: Deserves(lower, trace, steps, b, i, sub, e))
      || (steps[i].Drain? && e == trace[i].queue[0] && e !in trace[i].hidden
          && sub in trace[i].subs && WantedLive(lower, e, trace[i].subs[sub].filters))
  {
    assert Moves(lower, live, trace[i], steps[i], trace[i + 1]);
    if steps[i].EndRequest? {
      var request := trace[i].request.value;
      assert (sub, e) in Snapshot(request);
      var k :| 0 <= k < |request.answers| && e in request.answers[k] && sub == request.sub;
      InvAlways(lower, live, trace, steps, i);
      assert AnswerGenuine(lower, trace[i], request.window, request.filters[k], request.answers[k]);
      var b := RequestBegan(lower, live, trace, steps, i);
      UnderWayMeansRecalls(lower, live, trace, steps, b, i);
      assert Deserves(lower, trace, steps, b, i, sub, e);
    } else {
      assert steps[i].Drain?;
      assert (sub, e) in FanOut(lower, trace[i], trace[i].queue[0]);
      LiveMatchesWanted(lower, e, trace[i].subs[sub].filters);
    }
  }

  // ---------------------------------------------------------- the live feed

  /** Stored, and no longer on its way to the session. */
  ghost predicate Gone(s: Relay, e: Event) {
    e in s.stored && !OnItsWay(s, e)
  }

  /** The step takes `e` off its way to the session without sending it: it is hidden when its broadcast is
      drained, or when its publisher looks before broadcasting, or a lag drops it, or nobody broadcasts it. */
  ghost predicate Misses(s: Relay, step: Step, e: Event) {
    || (step.Drain? && s.queue != [] && s.queue[0] == e && e in s.hidden)
    || step == SkipHidden(e)
    || Drops(s, step, e)
  }

  /** The step takes `e` off the queue and sends it wherever it matches. */
  ghost predicate Feeds(s: Relay, step: Step, e: Event) {
    step.Drain? && s.queue != [] && s.queue[0] == e && e !in s.hidden
  }

  /** Every event goes its way once: it is pending, then in the queue, then gone. */
  ghost predicate OneWay(s: Relay) {
    && s.pending <= s.stored && Elems(s.queue) <= s.stored && NoRepeats(s.queue)
    && forall e :: e in s.queue ==> e !in s.pending
  }

  lemma OneWayStep(lower: string -> string, live: bool, s: Relay, step: Step)
    requires OneWay(s) && Enabled(lower, s, step)
    ensures OneWay(Do(lower, live, s, step))
  {
    var t := Do(lower, live, s, step);
    if step.Lag? {
      assert forall i :: 0 <= i < |t.queue| ==> t.queue[i] == s.queue[i + step.missed];
    }
  }

  lemma {:induction false} OneWayAlways(lower: string -> string, live: bool, trace: seq<Relay>, steps: seq<Step>, i: nat)
    requires Run(lower, live, trace, steps) && Connected(trace[0]) && i < |trace|
    ensures OneWay(trace[i])
  {
    if i > 0 {
      OneWayAlways(lower, live, trace, steps, i - 1);
      MovesAt(lower, live, trace, steps, i - 1);
      OneWayStep(lower, live, trace[i - 1], steps[i - 1]);
      hide Enabled, Do, OneWay;
    }
  }

  /** An event leaves its way by being missed or by being fed to the session, and does not come back. */
  lemma WayStep(lower: string -> string, live: bool, s: Relay, step: Step, t: Relay, e: Event)
    requires OneWay(s) && Moves(lower, live, s, step, t)
    ensures Gone(t, e) <==> Gone(s, e) || Misses(s, step, e) || Feeds(s, step, e)
    ensures Gone(s, e) ==> !Misses(s, step, e) && !Feeds(s, step, e)
    ensures !(Misses(s, step, e) && Feeds(s, step, e))
  {
    if step.Lag? {
      SplitOnce(s.queue, step.missed);
    } else if step.Drain? {
      SplitOnce(s.queue, 1);
      assert s.queue[..1] == [s.queue[0]];
    }
    hide NoRepeats, Elems;
  }

  lemma SplitOnce(queue: seq<Event>, k: nat)
    requires NoRepeats(queue) && k <= |queue|
    ensures forall e :: e in queue[k..] <==> e in queue && e !in queue[..k]
  {
    assert queue == queue[..k] + queue[k..];
    forall i, j | 0 <= i < k <= j < |queue| ensures queue[i] != queue[j] {
    }
  }

  lemma SentStep(lower: string -> string, live: bool, s: Relay, step: Step, t: Relay, sub: string, e: Event)
    requires Moves(lower, live, s, step, t)
    ensures (sub, e) in t.sent <==>
      || (sub, e) in s.sent
      || (step.EndRequest? && (sub, e) in Snapshot(s.request.value))
      || (Feeds(s, step, e) && sub in s.subs && LiveMatchesAny(lower, e, s.subs[sub].filters))
  {
  }

  ghost predicate MissedSince(trace: seq<Relay>, steps: seq<Step>, b: nat, i: nat, e: Event)
    requires b <= i <= |steps| && |trace| == |steps| + 1
  {
    exists j :: b <= j < i && Misses(trace[j], steps[j], e)
  }

  /** While the request is under way nothing is taken off the queue: an event gone by now has been missed. */
  lemma {:induction false} NotFedYet(lower: string -> string, live: bool, trace: seq<Relay>, steps: seq<Step>, b: nat, i: nat,
      sub: string, e: Event)
    requires Run(lower, live, trace, steps) && Connected(trace[0]) && UnderWaySince(steps, b, i) && !Gone(trace[b], e)
    ensures |trace| == |steps| + 1 && (Gone(trace[i], e) <==> MissedSince(trace, steps, b, i, e))
    ensures (sub, e) in trace[i].sent <==> (sub, e) in trace[b].sent
  {
    hide Run, Moves, Connected, Gone, Misses, MissedSince, RequestRecalls;
    MovesAt(lower, live, trace, steps, i - 1);
    if i > b + 1 {
      NotFedYet(lower, live, trace, steps, b, i - 1, sub, e);
      UnderWayMeansRecalls(lower, live, trace, steps, b, i - 1);
    }
    NotFedStep(lower, live, trace, steps, b, i - 1, sub, e);
  }

  lemma NotFedStep(lower: string -> string, live: bool, trace: seq<Relay>, steps: seq<Step>, b: nat, i: nat, sub: string, e: Event)
    requires Run(lower, live, trace, steps) && Connected(trace[0]) && b <= i < |steps| && |trace| == |steps| + 1
    requires i == b || (b < i && RequestRecalls(trace, steps, b, i))
    requires i == b ==> steps[b].BeginRequest? && !Gone(trace[b], e)
    requires i > b ==> !steps[i].EndRequest? && (Gone(trace[i], e) <==> MissedSince(trace, steps, b, i, e))
    ensures Gone(trace[i + 1], e) <==> MissedSince(trace, steps, b, i + 1, e)
    ensures (sub, e) in trace[i + 1].sent <==> (sub, e) in trace[i].sent
  {
    hide Run, Connected, Gone, Misses, OneWay, MissedSince, Recalls;
    MovesAt(lower, live, trace, steps, i);
    OneWayAlways(lower, live, trace, steps, i);
    WayStep(lower, live, trace[i], steps[i], trace[i + 1], e);
    SentStep(lower, live, trace[i], steps[i], trace[i + 1], sub, e);
    SinceStep(trace, steps, b, i, e);
    if i > b {
      NoDrainUnderWay(lower, live, trace[i], steps[i], trace[i + 1]);
    }
    hide Moves;
  }

  lemma NoDrainUnderWay(lower: string -> string, live: bool, s: Relay, step: Step, t: Relay)
    requires Moves(lower, live, s, step, t) && s.request.Some?
    ensures !step.Drain?
  {
  }

  lemma SinceStep(trace: seq<Relay>, steps: seq<Step>, b: nat, i: nat, e: Event)
    requires b <= i < |steps| && |trace| == |steps| + 1
    ensures MissedSince(trace, steps, b, i + 1, e) <==> MissedSince(trace, steps, b, i, e) || Misses(trace[i], steps[i], e)
    ensures !MissedSince(trace, steps, b, b, e)
  {
  }

  /** Where an event stands with a subscription opened by the request of step `b`, ended by step `c`: sent
      before, sent in the answer, or sent live, that is, gone without having been missed. */
  ghost predicate FeedExact(lower: string -> string, trace: seq<Relay>, steps: seq<Step>, b: nat, c: nat, i: nat, e: Event)
    requires b < c < i <= |steps| && |trace| == |steps| + 1 && steps[b].BeginRequest? && trace[c].request.Some?
  {
    var sub := steps[b].sub;
    && (MissedSince(trace, steps, b, i, e) ==> Gone(trace[i], e))
    && ((sub, e) in trace[i].sent <==>
          || (sub, e) in trace[b].sent
          || (sub, e) in Snapshot(trace[c].request.value)
          || (LiveMatchesAny(lower, e, steps[b].filters) && Gone(trace[i], e) && !MissedSince(trace, steps, b, i, e)))
  }

  lemma {:induction false} FeedStaysExact(lower: string -> string, trace: seq<Relay>, steps: seq<Step>, b: nat, c: nat, i: nat, e: Event)
    requires Run(lower, true, trace, steps) && Connected(trace[0]) && OpenSince(trace, steps, b, c, i) && !Gone(trace[b], e)
    ensures |trace| == |steps| + 1 && trace[c].request.Some? && FeedExact(lower, trace, steps, b, c, i, e)
  {
    hide Run, Moves, Connected, Gone, Misses, MissedSince, SubscriptionRecalls, Recalls, FeedExact;
    MovesAt(lower, true, trace, steps, i - 1);
    UnderWayMeansRecalls(lower, true, trace, steps, b, c);
    if i > c + 1 {
      assert OpenSince(trace, steps, b, c, i - 1);
      FeedStaysExact(lower, trace, steps, b, c, i - 1, e);
      OpenMeansRecalls(lower, trace, steps, b, c, i - 1);
      FeedStep(lower, trace, steps, b, c, i - 1, e);
    } else {
      NotFedYet(lower, true, trace, steps, b, c, steps[b].sub, e);
      FeedOpens(lower, trace, steps, b, c, e);
    }
  }

  lemma FeedOpens(lower: string -> string, trace: seq<Relay>, steps: seq<Step>, b: nat, c: nat, e: Event)
    requires Run(lower, true, trace, steps) && Connected(trace[0]) && b < c < |steps| && |trace| == |steps| + 1
    requires steps[b].BeginRequest? && steps[c].EndRequest? && trace[c].request.Some?
    requires Gone(trace[c], e) <==> MissedSince(trace, steps, b, c, e)
    requires (steps[b].sub, e) in trace[c].sent <==> (steps[b].sub, e) in trace[b].sent
    ensures FeedExact(lower, trace, steps, b, c, c + 1, e)
  {
    hide Run, Connected, Gone, Misses, OneWay, MissedSince, Snapshot;
    MovesAt(lower, true, trace, steps, c);
    OneWayAlways(lower, true, trace, steps, c);
    WayStep(lower, true, trace[c], steps[c], trace[c + 1], e);
    SentStep(lower, true, trace[c], steps[c], trace[c + 1], steps[b].sub, e);
    SinceStep(trace, steps, b, c, e);
    hide Moves;
  }

  lemma FeedStep(lower: string -> string, trace: seq<Relay>, steps: seq<Step>, b: nat, c: nat, i: nat, e: Event)
    requires Run(lower, true, trace, steps) && Connected(trace[0]) && b < c < i < |steps| && |trace| == |steps| + 1
    requires steps[b].BeginRequest? && trace[c].request.Some? && SubscriptionRecalls(trace, steps, b, i)
    requires !(steps[i].EndRequest? && Reopens(trace[i], steps[b].sub))
    requires FeedExact(lower, trace, steps, b, c, i, e)
    ensures FeedExact(lower, trace, steps, b, c, i + 1, e)
  {
    hide Run, Connected, Gone, Misses, OneWay, MissedSince, Recalls;
    MovesAt(lower, true, trace, steps, i);
    OneWayAlways(lower, true, trace, steps, i);
    WayStep(lower, true, trace[i], steps[i], trace[i + 1], e);
    SentStep(lower, true, trace[i], steps[i], trace[i + 1], steps[b].sub, e);
    SinceStep(trace, steps, b, i, e);
    if steps[i].EndRequest? {
      AnswersItsOwn(lower, trace[i], steps[i], trace[i + 1], steps[b].sub, e);
    }
    hide Moves, Snapshot;
  }

  lemma AnswersItsOwn(lower: string -> string, s: Relay, step: Step, t: Relay, sub: string, e: Event)
    requires Moves(lower, true, s, step, t) && step.EndRequest? && !Reopens(s, sub)
    ensures (sub, e) !in Snapshot(s.request.value)
  {
  }

  /** The live feed, exactly. In every interleaving, an event not yet gone its way when a request began,
      in particular every event stored later, has been sent on the subscription that the request opened
      exactly if it had been sent on it before, or was in the answer, or matches a filter, has gone its way,
      and was not missed on it. What it takes to miss it is a look while it is hidden, when its broadcast is
      drained or about to be made, or a lag, or no broadcast at all; neither a limit, nor an address, nor its
      visibility at any other moment matters. So a matching stored event that is not missed is sent, queued,
      or pending; and one that is missed, was not sent before, and is in no answer, is not sent. */
  lemma LiveFeedIff(lower: string -> string, trace: seq<Relay>, steps: seq<Step>, b: nat, c: nat, i: nat, e: Event)
    requires Run(lower, true, trace, steps) && Connected(trace[0])
    requires OpenSince(trace, steps, b, c, i) && !Gone(trace[b], e)
    ensures |trace| == |steps| + 1 && trace[c].request.Some? && steps[b].sub in trace[i].subs
    ensures var sub, missed := steps[b].sub, MissedSince(trace, steps, b, i, e);
      && ((sub, e) in trace[i].sent <==>
            || (sub, e) in trace[b].sent
            || (sub, e) in Snapshot(trace[c].request.value)
            || (WantedLive(lower, e, steps[b].filters) && Gone(trace[i], e) && !missed))
      && (WantedLive(lower, e, steps[b].filters) && e in trace[i].stored && !missed ==>
            (sub, e) in trace[i].sent || e in trace[i].queue || e in trace[i].pending)
  {
    FeedStaysExact(lower, trace, steps, b, c, i, e);
    OpenMeansRecalls(lower, trace, steps, b, c, i);
    LiveMatchesWanted(lower, e, steps[b].filters);
    hide Run, Connected, OpenSince, MissedSince, LiveMatchesAny, WantedLive, Snapshot, Recalls;
  }

  /** A session without live subscriptions never has one, and only the end of a request sends anything. */
  lemma {:induction false} NothingLiveWhenOff(lower: string -> string, trace: seq<Relay>, steps: seq<Step>, i: nat)
    requires Run(lower, false, trace, steps) && Connected(trace[0]) && i < |trace|
    ensures trace[i].subs == map[]
    ensures i < |steps| && !steps[i].EndRequest? ==> trace[i + 1].sent == trace[i].sent
    ensures i < |steps| && steps[i].EndRequest? ==>
      trace[i].request.Some? && trace[i + 1].sent == trace[i].sent + Snapshot(trace[i].request.value)
  {
    if i > 0 {
      NothingLiveWhenOff(lower, trace, steps, i - 1);
      MovesAt(lower, false, trace, steps, i - 1);
      StaysOff(lower, trace[i - 1], steps[i - 1], trace[i]);
    }
    if i < |steps| {
      MovesAt(lower, false, trace, steps, i);
      StaysOff(lower, trace[i], steps[i], trace[i + 1]);
    }
    hide Moves;
  }

  lemma StaysOff(lower: string -> string, s: Relay, step: Step, t: Relay)
    requires Moves(lower, false, s, step, t) && s.subs == map[]
    ensures t.subs == map[]
    ensures !step.EndRequest? ==> t.sent == s.sent
    ensures step.EndRequest? ==> s.request.Some? && t.sent == s.sent + Snapshot(s.request.value)
  {
  }

  // ------------------------------------------------- when visibility returns

  const EVERYTHING := Query(None, None, None, None, None, [], None, None, None, None)

  /** A relay with one event whose file and index lines are written and whose ingest is about to end. */
  ghost function AlmostStored(e: Event): Relay {
    Relay({e}, {Line(ByAuthor(e.pubkey), e.id), Line(ByKind(e.kind), e.id)}, {}, {}, {}, [], map[], None, {})
  }

  function LinesRead(e: Event): IndexKey -> set<string> {
    key => if key == ByAuthor(e.pubkey) || key == ByKind(e.kind) then {e.id} else {}
  }

  /** A look at the wrong moment is enough: an event that is hidden when its broadcast is taken off the queue
      and then becomes visible again is stored, visible and matching, and is never sent. */
  lemma RevealLeavesGap(lower: string -> string, e: Event) returns (trace: seq<Relay>, steps: seq<Step>)
    requires e.tags == []
    ensures Run(lower, true, trace, steps) && Connected(trace[0]) && OpenSince(trace, steps, 0, 2, 8)
    ensures steps[0] == BeginRequest("feed", [EVERYTHING]) && Matches(lower, EVERYTHING, e)
    ensures e in trace[8].stored && e !in trace[8].hidden
    ensures trace[8].sent == {} && trace[8].queue == [] && trace[8].pending == {}
  {
    var feed, first := OpenFeed(lower, e);
    var middle, second := BroadcastHidden(lower, e, feed[3]);
    var end, third := DrainThenReveal(lower, e, middle[3]);
    hide *;
    Joined(lower, feed, first, middle, second);
    Joined(lower, feed + middle[1..], first + second, end, third);
    trace, steps := feed + middle[1..] + end[1..], first + second + third;
    FeedStaysOpen(trace, steps);
    EverythingMatches(lower, e);
  }

  lemma EverythingMatches(lower: string -> string, e: Event)
    ensures Matches(lower, EVERYTHING, e)
  {
  }

  lemma Joined(lower: string -> string, a: seq<Relay>, steps: seq<Step>, b: seq<Relay>, more: seq<Step>)
    requires Run(lower, true, a, steps) && Run(lower, true, b, more) && a[|steps|] == b[0]
    ensures Run(lower, true, a + b[1..], steps + more)
  {
    hide Moves;
    var trace, all := a + b[1..], steps + more;
    forall i | 0 <= i < |all| ensures Moves(lower, true, trace[i], all[i], trace[i + 1]) {
      if i >= |steps| {
        assert Moves(lower, true, b[i - |steps|], more[i - |steps|], b[i - |steps| + 1]);
      } else {
        assert Moves(lower, true, a[i], steps[i], a[i + 1]);
      }
    }
  }

  lemma FeedStaysOpen(trace: seq<Relay>, steps: seq<Step>)
    requires |steps| == 8 && |trace| == 9
    requires steps[0].BeginRequest? && steps[1].Answer? && steps[2] == EndRequest
    requires forall j :: 3 <= j < 8 ==> Outside(steps[j]) || steps[j].Drain?
    ensures OpenSince(trace, steps, 0, 2, 8)
  {
  }

  lemma OpenFeed(lower: string -> string, e: Event) returns (trace: seq<Relay>, steps: seq<Step>)
    requires e.tags == []
    ensures Run(lower, true, trace, steps) && |steps| == 3 && trace[0] == AlmostStored(e) && Connected(trace[0])
    ensures steps[0] == BeginRequest("feed", [EVERYTHING]) && steps[1].Answer? && steps[2] == EndRequest
    ensures trace[3].(subs := map[]) == AlmostStored(e)
  {
    var s := AlmostStored(e);
    var answer := Answer(LinesRead(e), {}, _ => true, []);
    var w := Opening(s);
    var begun := s.(request := Some(Request("feed", [EVERYTHING], [], w)));
    var answered := s.(request := Some(Request("feed", [EVERYTHING], [[]], w)));
    BeginFeed(lower, s, begun);
    AnswerFeed(lower, e, begun, answer, answered);
    var ended := Do(lower, true, answered, EndRequest);
    assert Snapshot(answered.request.value) == {};
    hide Do, Enabled;
    trace, steps := [s, begun, answered, ended], [BeginRequest("feed", [EVERYTHING]), answer, EndRequest];
  }

  lemma BeginFeed(lower: string -> string, s: Relay, begun: Relay)
    requires s.request.None? && s.subs == map[] && begun == s.(request := Some(Request("feed", [EVERYTHING], [], Opening(s))))
    ensures Moves(lower, true, s, BeginRequest("feed", [EVERYTHING]), begun)
  {
  }

  lemma AnswerFeed(lower: string -> string, e: Event, s: Relay, answer: Step, t: Relay)
    requires s.request == Some(Request("feed", [EVERYTHING], [], Opening(AlmostStored(e)))) && s.(request := None) == AlmostStored(e)
    requires answer.Answer? && answer.read == LinesRead(e) && answer.files == {} && answer.result == []
    requires t == s.(request := Some(s.request.value.(answers := [[]])))
    ensures Moves(lower, true, s, answer, t)
  {
    assert Found(lower, EVERYTHING, answer.read, {}, answer.visible) == {};
    assert ListsSurvivors({}, []) && Truncate([], EVERYTHING.limit) == [];
    assert s.request.value.answers + [answer.result] == [[]];
    assert ObserveSubs(s.subs, s, answer) == s.subs;
  }

  lemma BroadcastHidden(lower: string -> string, e: Event, s: Relay) returns (trace: seq<Relay>, steps: seq<Step>)
    requires e.tags == [] && s.(subs := map[]) == AlmostStored(e)
    ensures Run(lower, true, trace, steps) && steps == [FinishStore(e), Hide(e), Broadcast(e)] && trace[0] == s
    ensures trace[3].(subs := map[]) == AlmostStored(e).(stored := {e}, hidden := {e}, queue := [e])
  {
    var stored := Do(lower, true, s, FinishStore(e));
    var hidden := Do(lower, true, stored, Hide(e));
    var queued := Do(lower, true, hidden, Broadcast(e));
    assert queued.pending == {};
    hide Do, Enabled;
    trace, steps := [s, stored, hidden, queued], [FinishStore(e), Hide(e), Broadcast(e)];
  }

  lemma DrainThenReveal(lower: string -> string, e: Event, s: Relay) returns (trace: seq<Relay>, steps: seq<Step>)
    requires s.(subs := map[]) == AlmostStored(e).(stored := {e}, hidden := {e}, queue := [e])
    ensures Run(lower, true, trace, steps) && steps == [Drain, Reveal(e)] && trace[0] == s
    ensures trace[2].(subs := map[]) == AlmostStored(e).(stored := {e})
  {
    var drained := Do(lower, true, s, Drain);
    var revealed := Do(lower, true, drained, Reveal(e));
    assert revealed.hidden == {};
    hide Do, Enabled;
    trace, steps := [s, drained, revealed], [Drain, Reveal(e)];
  }
}
