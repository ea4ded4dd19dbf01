/** The mirror loop and the cursor it persists for one upstream relay and scope. */
module Mirror {
  import opened Outcomes
  import opened Events

  const CURSOR_FALLBACK_WINDOW_SECS: nat := 900
  const MIRROR_SINCE_SKEW_SECS: nat := 300

  /** One message of the upstream, with the clock when it is handled, whether the event passes the
      relay's policy, and what ingesting it would return. */
  datatype Incoming =
    | EventMessage(event: Event, now: nat, valid: bool, ingest: Result<bool, string>)
    | EndOfStored
    | Noise

  /** How the connection ends when no message ends it: closed, or gone silent. */
  datatype Ending = Closed | Silent

  /** One write of the cursor file. */
  datatype Write = Write(value: nat, now: nat)

  function Min(a: nat, b: nat): nat {
    if a < b then a else b
  }

  function Max(a: nat, b: nat): nat {
    if a < b then b else a
  }

  function SatAdd(a: nat, b: nat): nat {
    Min(a + b, U64_MAX)
  }

  /** The upstream has ignored the requested window by more than the allowed skew. */
  predicate TooOld(since: nat, e: Event) {
    since > 0 && SatAdd(e.createdAt, MIRROR_SINCE_SKEW_SECS) < since
  }

  // ---------------------------------------------------- what the loop ought to do

  /** A valid event not older than 300 seconds before `since`, in 64 bits. */
  ghost predicate Wanted(since: nat, m: Incoming) {
    m.EventMessage? && m.valid && since <= m.event.createdAt + 300 && since <= 0xFFFF_FFFF_FFFF_FFFF
  }

  lemma TooOldMeans(since: nat, m: Incoming)
    ensures m.EventMessage? && m.valid && !TooOld(since, m.event) <==> Wanted(since, m)
  {
  }

  ghost predicate Fails(since: nat, m: Incoming) {
    Wanted(since, m) && m.ingest.Err?
  }

  ghost predicate Stops(since: nat, keepRunning: bool, m: Incoming) {
    Fails(since, m) || (m.EndOfStored? && !keepRunning)
  }

  /** How many messages come before the one that ends the loop. */
  ghost function Handled(since: nat, keepRunning: bool, ms: seq<Incoming>): (n: nat)
    ensures n <= |ms|
    ensures forall i :: 0 <= i < n ==> !Stops(since, keepRunning, ms[i])
    ensures n < |ms| ==> Stops(since, keepRunning, ms[n])
  {
    if ms == [] || Stops(since, keepRunning, ms[0]) then 0 else 1 + Handled(since, keepRunning, ms[1..])
  }

  /** The newest timestamp seen, never counting one beyond the clock at which it was seen. */
  ghost function Latest(since: nat, ms: seq<Incoming>): nat {
    if ms == [] then since
    else
      var before, m := Latest(since, ms[..|ms| - 1]), ms[|ms| - 1];
      if m.EventMessage? then Max(before, Min(m.event.createdAt, m.now)) else before
  }

  /** The time a message counts for: the event's, but none beyond the clock. */
  ghost predicate CountsFor(m: Incoming, time: nat) {
    && m.EventMessage? && time <= m.event.createdAt && time <= m.now
    && (time == m.event.createdAt || time == m.now)
  }

  /** It is the greatest of the starting point and the times that the messages count for. */
  lemma {:induction false} LatestMeans(since: nat, ms: seq<Incoming>)
    ensures since <= Latest(since, ms)
    ensures forall i, time: nat :: 0 <= i < |ms| && CountsFor(ms[i], time) ==> time <= Latest(since, ms)
    ensures Latest(since, ms) == since || exists i :: 0 <= i < |ms| && CountsFor(ms[i], Latest(since, ms))
  {
    if ms != [] {
      var front, m := ms[..|ms| - 1], ms[|ms| - 1];
      LatestMeans(since, front);
      forall i, time: nat | 0 <= i < |ms| && CountsFor(ms[i], time) ensures time <= Latest(since, ms) {
        if i < |front| {
          assert CountsFor(front[i], time);
        }
      }
      if Latest(since, ms) != Latest(since, front) {
        assert CountsFor(ms[|ms| - 1], Latest(since, ms));
      } else if i :| 0 <= i < |front| && CountsFor(front[i], Latest(since, front)) {
        assert CountsFor(ms[i], Latest(since, ms));
      }
    }
  }

  /** The wanted events, in order. */
  ghost function IngestedFrom(since: nat, ms: seq<Incoming>): seq<Event> {
    if ms == [] then []
    else if Wanted(since, ms[|ms| - 1]) then IngestedFrom(since, ms[..|ms| - 1]) + [ms[|ms| - 1].event]
    else IngestedFrom(since, ms[..|ms| - 1])
  }

  lemma {:induction false} IngestedMeans(since: nat, ms: seq<Incoming>, e: Event)
    ensures e in IngestedFrom(since, ms) <==> exists i :: 0 <= i < |ms| && Wanted(since, ms[i]) && ms[i].event == e
  {
    if ms != [] {
      var front := ms[..|ms| - 1];
      IngestedMeans(since, front, e);
      if i :| 0 <= i < |front| && Wanted(since, front[i]) && front[i].event == e {
        assert Wanted(since, ms[i]);
      }
      if i :| 0 <= i < |ms| && Wanted(since, ms[i]) && ms[i].event == e && i < |front| {
        assert Wanted(since, front[i]);
      }
    }
  }

  /** Where a cycle resumes that starts at `now`: the stored cursor, or 900 seconds back without one. */
  ghost function ResumesAt(cursor: Option<nat>, now: nat): nat {
    if cursor.Some? && cursor.value > 0 then cursor.value else if now >= 900 then now - 900 else 0
  }

  ghost predicate HasEvent(ms: seq<Incoming>) {
    exists i :: 0 <= i < |ms| && ms[i].EventMessage?
  }

  /** The clock readings of the messages, from `start` on, never go back. */
  ghost predicate ClockRuns(start: nat, ms: seq<Incoming>, end: nat) {
    && start <= end
    && (forall i :: 0 <= i < |ms| && ms[i].EventMessage? ==> start <= ms[i].now <= end)
    && (forall i, j :: 0 <= i < j < |ms| && ms[i].EventMessage? && ms[j].EventMessage? ==> ms[i].now <= ms[j].now)
  }

  lemma {:induction false} LatestWithinClock(since: nat, ms: seq<Incoming>, start: nat, now: nat)
    requires since <= start <= now
    requires forall i :: 0 <= i < |ms| && ms[i].EventMessage? ==> ms[i].now <= now
    ensures since <= Latest(since, ms) <= now
  {
    if ms != [] {
      LatestWithinClock(since, ms[..|ms| - 1], start, now);
    }
  }

  // -------------------------------------------------------------- the cursor file

  class MirrorCursor {
    var cursor: Option<nat>
    ghost var writes: seq<Write>

    /** The history of the cursor file: each write at least as large as the one before, and none
        beyond the clock of its moment; the file holds the last. */
    ghost predicate Valid()
      reads this
    {
      && (forall i, j :: 0 <= i < j < |writes| ==> writes[i].value <= writes[j].value && writes[i].now <= writes[j].now)
      && (forall i :: 0 <= i < |writes| ==> writes[i].value <= writes[i].now)
      && cursor == (if writes == [] then None else Some(writes[|writes| - 1].value))
    }

    /** Every write so far happened by this time. */
    ghost predicate WrittenBy(now: nat)
      reads this
    {
      forall i :: 0 <= i < |writes| ==> writes[i].now <= now
    }

    constructor ()
      ensures Valid() && cursor == None && writes == []
    {
      cursor, writes := None, [];
    }

    function ReadCursor(now: nat): Option<nat>
      reads this
    {
      if cursor.Some? then Some(Min(cursor.value, now)) else None
    }

    /** Where to resume: the stored cursor, or a short window back when there is none. */
    function CursorSince(now: nat): nat
      reads this
    {
      var stored := ReadCursor(now);
      if stored.Some? && stored.value > 0 then stored.value
      else if now > CURSOR_FALLBACK_WINDOW_SECS then now - CURSOR_FALLBACK_WINDOW_SECS else 0
    }

    method WriteCursor(value: nat, now: nat)
      requires Valid() && WrittenBy(now) && value <= now
      requires cursor.Some? ==> cursor.value <= value
      modifies this
      ensures Valid() && WrittenBy(now) && cursor == Some(value) && writes == old(writes) + [Write(value, now)]
    {
      ghost var last := if writes == [] then Write(0, 0) else writes[|writes| - 1];
      assert forall i :: 0 <= i < |writes| ==> writes[i].value <= last.value;
      cursor := Some(value);
      writes := writes + [Write(value, now)];
    }

    /** The event loop: after every event it has dealt with, the cursor file holds the newest timestamp
        so far; an event whose ingest fails ends the loop and leaves the file as it was. */
    method MirrorStream(since: nat, keepRunning: bool, ms: seq<Incoming>, ending: Ending, start: nat, ghost end: nat)
      returns (r: Result<nat, string>, ingested: seq<Event>)
      requires Valid() && WrittenBy(start) && since <= start && ClockRuns(start, ms, end)
      requires cursor.Some? ==> cursor.value <= since
      modifies this
      ensures Valid() && WrittenBy(end) && old(writes) <= writes
      ensures var n := Handled(since, keepRunning, ms);
        && cursor == (if HasEvent(ms[..n]) then Some(Latest(since, ms[..n])) else old(cursor))
        && (r == if n < |ms| && Fails(since, ms[n]) then Err(ms[n].ingest.error)
                 else if n == |ms| && ending == Silent then Err("mirror upstream went silent")
                 else Ok(Latest(since, ms[..n])))
        && ingested == IngestedFrom(since, ms[..n])
        && since <= Latest(since, ms[..n]) <= end
    {
      var latest, n, got := Stream(since, keepRunning, ms, start, end);
      ingested := got;
      assert ms[..|ms|] == ms;
      HandledFacts(since, keepRunning, ms);
      if n < |ms| && ms[n].EventMessage? {
        r := Err(ms[n].ingest.error);
      } else if n == |ms| && ending == Silent {
        r := Err("mirror upstream went silent");
      } else {
        r := Ok(latest);
      }
    }

    /** Where the loop stands after `i` messages. */
    ghost predicate Streaming(since: nat, ms: seq<Incoming>, i: nat, before: Option<nat>, latest: nat,
        ingested: seq<Event>, clock: nat, start: nat, end: nat)
      requires i <= |ms|
      reads this
    {
      && Valid() && WrittenBy(clock)
      && start <= clock <= end
      && (forall j :: i <= j < |ms| && ms[j].EventMessage? ==> clock <= ms[j].now <= end)
      && (forall j, k :: i <= j < k < |ms| && ms[j].EventMessage? && ms[k].EventMessage? ==> ms[j].now <= ms[k].now)
      && latest == Latest(since, ms[..i]) && since <= latest <= clock
      && (cursor.Some? ==> cursor.value <= latest)
      && cursor == (if HasEvent(ms[..i]) then Some(latest) else before)
      && ingested == IngestedFrom(since, ms[..i])
    }

    /** Walk the messages up to the one that ends the loop. */
    method Stream(since: nat, keepRunning: bool, ms: seq<Incoming>, start: nat, ghost end: nat)
      returns (latest: nat, n: nat, ingested: seq<Event>)
      requires Valid() && WrittenBy(start) && since <= start && ClockRuns(start, ms, end)
      requires cursor.Some? ==> cursor.value <= since
      modifies this
      ensures n == Handled(since, keepRunning, ms)
      ensures old(writes) <= writes
      ensures exists clock :: Streaming(since, ms, n, old(cursor), latest, ingested, clock, start, end)
    {
      latest, n, ingested := since, 0, [];
      ghost var clock: nat := start;
      ghost var before := cursor;
      assert ms[..0] == [];
      assert Streaming(since, ms, 0, before, latest, ingested, clock, start, end);
      hide HandledAtLeast, Streaming, Valid, WrittenBy, ClockRuns, Wanted, TooOld, Latest, IngestedFrom, HasEvent;
      while n < |ms|
        invariant n <= |ms| && HandledAtLeast(since, keepRunning, ms, n)
        invariant old(writes) <= writes
        invariant Streaming(since, ms, n, before, latest, ingested, clock, start, end)
      {
        TooOldMeans(since, ms[n]);
        if ms[n].EventMessage? && !TooOld(since, ms[n].event) && ms[n].valid && ms[n].ingest.Err? {
          break;
        }
        if ms[n].EndOfStored? && !keepRunning {
          break;
        }
        HandledMore(since, keepRunning, ms, n);
        latest, ingested, clock := Take(since, keepRunning, ms, n, before, latest, ingested, clock, start, end);
        n := n + 1;
      }
      HandledExactly(since, keepRunning, ms, n);
    }

    /** Deal with one message that does not end the loop. */
    method Take(since: nat, keepRunning: bool, ms: seq<Incoming>, i: nat, ghost before: Option<nat>, latest: nat,
        ingested: seq<Event>, ghost clock: nat, ghost start: nat, ghost end: nat)
      returns (latest': nat, ingested': seq<Event>, ghost clock': nat)
      requires i < |ms| && !Stops(since, keepRunning, ms[i])
      requires Streaming(since, ms, i, before, latest, ingested, clock, start, end)
      modifies this
      ensures Streaming(since, ms, i + 1, before, latest', ingested', clock', start, end)
      ensures old(writes) <= writes
    {
      latest', ingested', clock' := latest, ingested, clock;
      StreamStep(since, ms, i);
      hide Latest, HasEvent, IngestedFrom, Valid;
      var m := ms[i];
      if m.EventMessage? {
        latest' := Max(latest, Min(m.event.createdAt, m.now));
        TooOldMeans(since, m);
        if !TooOld(since, m.event) && m.valid {
          ingested' := ingested + [m.event];
        }
        WriteCursor(latest', m.now);
        clock' := m.now;
      }
    }

    static ghost predicate HandledAtLeast(since: nat, keepRunning: bool, ms: seq<Incoming>, n: nat) {
      n <= |ms| && forall i :: 0 <= i < n ==> !Stops(since, keepRunning, ms[i])
    }

    static lemma HandledFacts(since: nat, keepRunning: bool, ms: seq<Incoming>)
      ensures var n := Handled(since, keepRunning, ms); n < |ms| ==> (ms[n].EventMessage? <==> Fails(since, ms[n]))
    {
    }

    static lemma HandledMore(since: nat, keepRunning: bool, ms: seq<Incoming>, n: nat)
      requires HandledAtLeast(since, keepRunning, ms, n) && n < |ms| && !Stops(since, keepRunning, ms[n])
      ensures HandledAtLeast(since, keepRunning, ms, n + 1)
    {
    }

    static lemma HandledExactly(since: nat, keepRunning: bool, ms: seq<Incoming>, n: nat)
      requires HandledAtLeast(since, keepRunning, ms, n) && (n < |ms| ==> Stops(since, keepRunning, ms[n]))
      ensures n == Handled(since, keepRunning, ms)
    {
    }

    static lemma StreamStep(since: nat, ms: seq<Incoming>, i: nat)
      requires i < |ms|
      ensures Latest(since, ms[..i + 1]) ==
        if ms[i].EventMessage? then Max(Latest(since, ms[..i]), Min(ms[i].event.createdAt, ms[i].now)) else Latest(since, ms[..i])
      ensures HasEvent(ms[..i + 1]) <==> HasEvent(ms[..i]) || ms[i].EventMessage?
      ensures IngestedFrom(since, ms[..i + 1]) ==
        IngestedFrom(since, ms[..i]) + (if Wanted(since, ms[i]) then [ms[i].event] else [])
    {
      var small, large := ms[..i], ms[..i + 1];
      assert large == small + [ms[i]] && large[..|large| - 1] == small;
      if k :| 0 <= k < |small| && small[k].EventMessage? {
        assert large[k].EventMessage?;
      }
      if ms[i].EventMessage? {
        assert large[i].EventMessage?;
      }
    }

    /** One mirror cycle: choose where to resume, stream, and persist the result of a stream that ended well. */
    method MirrorOnce(keepRunning: bool, ms: seq<Incoming>, ending: Ending, start: nat, end: nat)
      returns (ok: bool, ingested: seq<Event>)
      requires Valid() && WrittenBy(start) && ClockRuns(start, ms, end)
      modifies this
      ensures Valid() && WrittenBy(end) && old(writes) <= writes
      ensures old(cursor).Some? ==> cursor.Some? && old(cursor).value <= cursor.value
      ensures cursor.Some? ==> cursor.value <= end
      ensures var since := ResumesAt(old(cursor), start);
        var n := Handled(since, keepRunning, ms);
        && ok == !((n < |ms| && Fails(since, ms[n])) || (n == |ms| && ending == Silent))
        && ingested == IngestedFrom(since, ms[..n])
        && cursor == (if ok || HasEvent(ms[..n]) then Some(Latest(since, ms[..n])) else old(cursor))
      ensures old(cursor).Some? && 0 < old(cursor).value <= U64_MAX ==>
        forall i :: (0 <= i < Handled(old(cursor).value, keepRunning, ms) && ms[i].EventMessage? && ms[i].valid
                     && ms[i].event.createdAt + 300 >= old(cursor).value) ==> ms[i].event in ingested
      ensures forall e :: e in ingested ==>
        exists i :: 0 <= i < |ms| && ms[i].EventMessage? && ms[i].event == e && ms[i].valid
    {
      var since := CursorSince(start);
      StoredCursorNotAhead(start);
      var r, got := MirrorStream(since, keepRunning, ms, ending, start, end);
      ingested := got;
      forall e {
        IngestedMeans(since, ms[..Handled(since, keepRunning, ms)], e);
      }
      hide IngestedFrom, Latest, Handled, HasEvent, CursorSince, ResumesAt, Stops;
      ok := r.Ok?;
      if ok {
        WriteCursor(r.value, end);
      }
    }

    /** A cycle resumes exactly at the stored cursor, which is never ahead of the clock. */
    lemma StoredCursorNotAhead(now: nat)
      requires Valid() && WrittenBy(now)
      ensures cursor.Some? ==> cursor.value <= now
      ensures cursor.Some? && cursor.value > 0 ==> CursorSince(now) == cursor.value
      ensures CursorSince(now) == ResumesAt(cursor, now) <= now
    {
    }
  }
}
