/** What a query ought to answer: which events are visible, which survive per address, in what order. */
module Answers {
  import opened Outcomes
  import opened Text
  import opened Sums
  import opened Events
  import opened EventOrder
  import opened Tombstones
  import opened Retention

  /** A store's configuration, with the functions it takes from elsewhere: the size of an
      event's file, signature verification, and Unicode lower-casing. */
  datatype Config = Config(
    verifySig: bool,
    caps: Caps,
    pinnedPubkeys: set<string>,
    pinnedIds: set<string>,
    protectPinned: bool,
    size: Event -> nat,
    verifies: Event -> bool,
    lower: string -> string)
  {
    predicate Protected(e: Event) {
      e.pubkey in pinnedPubkeys || e.id in pinnedIds
    }

    function Protection(): (r: Event -> bool)
      ensures forall e :: r(e) <==> e.pubkey in pinnedPubkeys || e.id in pinnedIds
    {
      e => Protected(e)
    }
  }

  /** The policy switches and the clock reading that one read works with. */
  datatype Policy = Policy(deletes: bool, expiration: bool, now: nat)

  predicate Visible(config: Config, byId: Slots, byAddress: Slots, e: Event, policy: Policy) {
    if config.Protected(e) && config.protectPinned then true
    else if policy.expiration && Expired(e, policy.now) && !config.Protected(e) then false
    else if !policy.deletes || e.kind == DELETE_KIND then true
    else if HiddenBySlot(Lookup(byId, e.id), e) then false
    else
      match Address(e)
      case Some(address) => !HiddenBySlot(Lookup(byAddress, address), e)
      case None => true
  }

  // ------------------------------------------------------------------ answers

  /** Among the matching events, only the newest of each address survives. */
  ghost predicate Survives(matching: set<Event>, e: Event) {
    && e in matching
    && (Address(e).Some? ==> forall f :: f in matching && Address(f) == Address(e) ==> !Older(e, f))
  }

  function Truncate(s: seq<Event>, limit: Option<nat>): (r: seq<Event>) {
    if limit.Some? && limit.value < |s| then s[..limit.value] else s
  }

  /** All survivors, strictly newest first. */
  ghost predicate ListsSurvivors(matching: set<Event>, full: seq<Event>) {
    Sorted(true, full) && forall e :: e in full <==> Survives(matching, e)
  }

  ghost predicate IsAnswer(matching: set<Event>, limit: Option<nat>, r: seq<Event>) {
    exists full :: ListsSurvivors(matching, full) && r == Truncate(full, limit)
  }

  lemma SurvivorListUnique(matching: set<Event>, a: seq<Event>, b: seq<Event>)
    requires ListsSurvivors(matching, a) && ListsSurvivors(matching, b)
    ensures a == b
  {
    assert Elems(a) == Elems(b);
    SortedUnique(true, a, b);
  }

  /** The matching events and the limit leave no choice of answer. */
  lemma AnswerUnique(matching: set<Event>, limit: Option<nat>, a: seq<Event>, b: seq<Event>)
    requires IsAnswer(matching, limit, a) && IsAnswer(matching, limit, b)
    ensures a == b
  {
    var x :| ListsSurvivors(matching, x) && a == Truncate(x, limit);
    var y :| ListsSurvivors(matching, y) && b == Truncate(y, limit);
    SurvivorListUnique(matching, x, y);
  }

  /** A smaller limit gives a prefix of what a larger limit, or none, gives. */
  lemma SmallerLimitGivesPrefix(matching: set<Event>, m: nat, limit: Option<nat>, a: seq<Event>, b: seq<Event>)
    requires IsAnswer(matching, Some(m), a) && IsAnswer(matching, limit, b)
    requires limit.Some? ==> m <= limit.value
    ensures a == if m < |b| then b[..m] else b
  {
    var x :| ListsSurvivors(matching, x) && a == Truncate(x, Some(m));
    var y :| ListsSurvivors(matching, y) && b == Truncate(y, limit);
    SurvivorListUnique(matching, x, y);
  }

  /** An answer in terms of its events: strictly newest first, nothing but matching events,
      at most one per address; and what an unlimited answer leaves out is superseded in it. */
  lemma AnswerContents(matching: set<Event>, limit: Option<nat>, r: seq<Event>)
    requires IdsDiffer(matching) && IsAnswer(matching, limit, r)
    ensures Sorted(true, r) && (limit.Some? ==> |r| <= limit.value)
    ensures forall i, j :: 0 <= i < j < |r| ==>
      r[j].createdAt < r[i].createdAt || (r[j].createdAt == r[i].createdAt && StrLess(r[j].id, r[i].id))
    ensures forall e :: e in r ==> e in matching
    ensures forall e, f :: e in r && f in r && Address(e).Some? && Address(e) == Address(f) ==> e == f
    ensures limit.None? ==> forall e :: e in matching && Address(e).None? ==> e in r
    ensures limit.None? ==> forall e :: e in matching && Address(e).Some? ==>
      exists f :: f in r && Address(f) == Address(e) && (f == e || Older(e, f))
  {
    var full :| ListsSurvivors(matching, full) && r == Truncate(full, limit);
    assert forall e :: e in r ==> e in full;
    forall e, f | e in r && f in r && Address(e).Some? && Address(e) == Address(f) ensures e == f {
      OlderTotal(e, f);
    }
    if limit.None? {
      forall e | e in matching && Address(e).Some?
        ensures exists f :: f in r && Address(f) == Address(e) && (f == e || Older(e, f))
      {
        var f := NewestAtAddress(matching, e);
      }
    }
  }

  lemma {:induction false} NewestAtAddress(matching: set<Event>, e: Event) returns (f: Event)
    requires IdsDiffer(matching) && e in matching && Address(e).Some?
    ensures Survives(matching, f) && Address(f) == Address(e) && (f == e || Older(e, f))
    decreases matching
  {
    if newer :| newer in matching && Address(newer) == Address(e) && Older(e, newer) {
      OlderStrict(e, newer);
      f := NewestAtAddress(matching - {e}, newer);
      OlderNotBack(e, newer, f);
    } else {
      f := e;
    }
  }

  lemma OlderNotBack(e: Event, newer: Event, f: Event)
    requires Older(e, newer) && (f == newer || Older(newer, f))
    ensures Older(e, f) && !Older(f, e)
  {
    if f != newer {
      OlderTransitive(e, newer, f);
    }
    OlderStrict(e, f);
  }
}
