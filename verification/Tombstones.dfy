/** Delete tombstones: one slot per deleted name, holding the newest delete event that names it. */
module Tombstones {
  import opened Outcomes
  import opened Text
  import opened Sums
  import opened Events

  datatype Tombstone = Tombstone(pubkey: string, createdAt: nat, deleteId: string)

  /** Tombstone files by name: an event id, or an address. */
  type Slots = map<string, Tombstone>

  function TombstoneOf(d: Event): Tombstone {
    Tombstone(d.pubkey, d.createdAt, d.id)
  }

  function Lookup(slots: Slots, name: string): Option<Tombstone> {
    if name in slots then Some(slots[name]) else None
  }

  /** The stored tombstone is at least as new as the incoming one. */
  predicate Outranks(existing: Tombstone, incoming: Tombstone) {
    existing.createdAt > incoming.createdAt
    || (existing.createdAt == incoming.createdAt && !StrLess(existing.deleteId, incoming.deleteId))
  }

  function WriteSlot(slots: Slots, name: string, t: Tombstone): Slots {
    if name in slots && Outranks(slots[name], t) then slots else slots[name := t]
  }

  /** Write `t` into the slot of every name the tags list under `key`. */
  function ApplyTags(key: string, slots: Slots, tags: seq<seq<string>>, t: Tombstone): Slots {
    if tags == [] then slots
    else
      var front := ApplyTags(key, slots, tags[..|tags| - 1], t);
      var tag := tags[|tags| - 1];
      if |tag| >= 2 && tag[0] == key then WriteSlot(front, tag[1], t) else front
  }

  function ApplyDelete(key: string, slots: Slots, d: Event): Slots {
    if d.kind == DELETE_KIND then ApplyTags(key, slots, d.tags, TombstoneOf(d)) else slots
  }

  function ApplyAll(key: string, slots: Slots, ds: seq<Event>): Slots {
    if ds == [] then slots
    else ApplyDelete(key, ApplyAll(key, slots, ds[..|ds| - 1]), ds[|ds| - 1])
  }

  // -------------------------------------------------- what a slot ought to hold

  ghost predicate Deletes(d: Event, key: string, name: string) {
    d.kind == 5 && HasTag(d, key, name)
  }

  ghost predicate IsNewestDelete(key: string, events: set<Event>, name: string, d: Event) {
    && d in events
    && Deletes(d, key, name)
    && forall x :: x in events && Deletes(x, key, name) ==> !Older(d, x)
  }

  /** Empty when nothing deletes the name; otherwise the greatest (created_at, id) delete naming it. */
  ghost predicate SlotHolds(key: string, events: set<Event>, name: string, slot: Option<Tombstone>) {
    match slot
    case None => forall d :: d in events ==> !Deletes(d, key, name)
    case Some(t) => exists d :: IsNewestDelete(key, events, name, d) && t == TombstoneOf(d)
  }

  ghost predicate SlotsHold(key: string, events: set<Event>, slots: Slots) {
    forall name :: SlotHolds(key, events, name, Lookup(slots, name))
  }

  /** An id is the hash of everything but the signature. */
  predicate SameHashed(a: Event, b: Event) {
    a.(sig := b.sig) == b
  }

  ghost predicate ContentAddressed(events: set<Event>) {
    forall a, b :: a in events && b in events && a.id == b.id ==> SameHashed(a, b)
  }

  // ------------------------------------------------------ the join, slot by slot

  function Joined(slot: Option<Tombstone>, t: Tombstone): Tombstone {
    if slot.Some? && Outranks(slot.value, t) then slot.value else t
  }

  lemma {:induction false} ApplyTagsAt(key: string, slots: Slots, tags: seq<seq<string>>, t: Tombstone, name: string)
    ensures Lookup(ApplyTags(key, slots, tags, t), name) ==
      if SomeTagIs(tags, key, name) then Some(Joined(Lookup(slots, name), t)) else Lookup(slots, name)
  {
    if tags != [] {
      var front, tag := tags[..|tags| - 1], tags[|tags| - 1];
      ApplyTagsAt(key, slots, front, t, name);
      assert SomeTagIs(front, key, name) ==> SomeTagIs(tags, key, name) by {
        if i :| 0 <= i < |front| && TagIs(front[i], key, name) {
          assert TagIs(tags[i], key, name);
        }
      }
      assert SomeTagIs(tags, key, name) ==> SomeTagIs(front, key, name) || TagIs(tag, key, name) by {
        if i :| 0 <= i < |tags| && TagIs(tags[i], key, name) && i < |front| {
          assert TagIs(front[i], key, name);
        }
      }
      if TagIs(tag, key, name) {
        assert TagIs(tags[|tags| - 1], key, name);
        assert !StrLess(t.deleteId, t.deleteId) by {
          if StrLess(t.deleteId, t.deleteId) { StrLessStrict(t.deleteId, t.deleteId); }
        }
      }
    }
  }

  /** One delete event more: the slots hold what they ought to for the larger set. */
  lemma ApplyDeleteHolds(key: string, events: set<Event>, slots: Slots, d: Event)
    requires SlotsHold(key, events, slots)
    ensures SlotsHold(key, events + {d}, ApplyDelete(key, slots, d))
  {
    var after := ApplyDelete(key, slots, d);
    forall name ensures SlotHolds(key, events + {d}, name, Lookup(after, name)) {
      if d.kind == DELETE_KIND {
        ApplyTagsAt(key, slots, d.tags, TombstoneOf(d), name);
      }
      var slot := Lookup(slots, name);
      assert SlotHolds(key, events, name, slot);
      if Deletes(d, key, name) {
        if slot.Some? {
          var w :| IsNewestDelete(key, events, name, w) && slot.value == TombstoneOf(w);
          JoinedIsNewest(key, events, name, w, d);
        } else {
          assert !Older(d, d) by { if Older(d, d) { OlderStrict(d, d); } }
          assert IsNewestDelete(key, events + {d}, name, d);
        }
      } else if slot.Some? {
        var w :| IsNewestDelete(key, events, name, w) && slot.value == TombstoneOf(w);
        assert IsNewestDelete(key, events + {d}, name, w);
      }
    }
  }

  lemma JoinedIsNewest(key: string, events: set<Event>, name: string, w: Event, d: Event)
    requires IsNewestDelete(key, events, name, w) && Deletes(d, key, name)
    ensures IsNewestDelete(key, events + {d}, name, if Outranks(TombstoneOf(w), TombstoneOf(d)) then w else d)
  {
    if Outranks(TombstoneOf(w), TombstoneOf(d)) {
      assert !Older(w, d);
    } else {
      OlderTotal(w, d);
      StrLessTotal(w.id, d.id);
      assert Older(w, d);
      forall x | x in events + {d} && Deletes(x, key, name) ensures !Older(d, x) {
        if Older(d, x) {
          if x == d { OlderStrict(d, x); } else { OlderTransitive(w, d, x); }
          assert false;
        }
      }
    }
  }

  /** A set of events decides its slots. */
  lemma SlotsUnique(key: string, events: set<Event>, a: Slots, b: Slots)
    requires ContentAddressed(events)
    requires SlotsHold(key, events, a) && SlotsHold(key, events, b)
    ensures a == b
  {
    forall name ensures Lookup(a, name) == Lookup(b, name) {
      assert SlotHolds(key, events, name, Lookup(a, name));
      assert SlotHolds(key, events, name, Lookup(b, name));
      if name in a && name in b {
        var v :| IsNewestDelete(key, events, name, v) && a[name] == TombstoneOf(v);
        var w :| IsNewestDelete(key, events, name, w) && b[name] == TombstoneOf(w);
        OlderTotal(v, w);
        assert v.id == w.id;
      }
    }
    forall name ensures name in a <==> name in b {
      assert Lookup(a, name) == Lookup(b, name);
    }
    forall name | name in a ensures a[name] == b[name] {
      assert Lookup(a, name) == Lookup(b, name);
    }
  }

  lemma {:induction false} ApplyAllHolds(key: string, events: set<Event>, slots: Slots, ds: seq<Event>)
    requires SlotsHold(key, events, slots)
    ensures SlotsHold(key, events + Elems(ds), ApplyAll(key, slots, ds))
  {
    if ds == [] {
      assert events + Elems(ds) == events;
    } else {
      var front := ds[..|ds| - 1];
      assert ds == front + [ds[|ds| - 1]];
      ApplyAllHolds(key, events, slots, front);
      ApplyDeleteHolds(key, events + Elems(front), ApplyAll(key, slots, front), ds[|ds| - 1]);
      assert events + Elems(front) + {ds[|ds| - 1]} == events + Elems(ds);
    }
  }

  /** Any order and any repetition of the same events leaves the same tombstones. */
  lemma TombstonesIgnoreOrder(key: string, ds: seq<Event>, es: seq<Event>)
    requires Elems(ds) == Elems(es)
    requires ContentAddressed(Elems(ds))
    ensures ApplyAll(key, map[], ds) == ApplyAll(key, map[], es)
  {
    assert SlotsHold(key, {}, map[]);
    ApplyAllHolds(key, {}, map[], ds);
    ApplyAllHolds(key, {}, map[], es);
    assert {} + Elems(ds) == Elems(ds);
    assert {} + Elems(es) == Elems(ds);
    SlotsUnique(key, Elems(ds), ApplyAll(key, map[], ds), ApplyAll(key, map[], es));
  }

  /** Applying a delete event that the slots already account for changes nothing. */
  lemma ReapplyChangesNothing(key: string, events: set<Event>, slots: Slots, d: Event)
    requires ContentAddressed(events) && SlotsHold(key, events, slots)
    requires exists s :: s in events && SameHashed(s, d)
    ensures ApplyDelete(key, slots, d) == slots
  {
    var s :| s in events && SameHashed(s, d);
    assert TombstoneOf(s) == TombstoneOf(d);
    assert ApplyDelete(key, slots, s) == ApplyDelete(key, slots, d);
    ApplyDeleteHolds(key, events, slots, s);
    assert events + {s} == events;
    SlotsUnique(key, events, ApplyDelete(key, slots, s), slots);
  }

  /** Every name the event deletes has a tombstone at least as new already. */
  ghost predicate AccountedFor(key: string, slots: Slots, d: Event) {
    forall name :: Deletes(d, key, name) ==> name in slots && Outranks(slots[name], TombstoneOf(d))
  }

  /** Storing an event without applying its delete leaves the slots right exactly when they
      already account for it. */
  lemma SkippedDeleteHarmlessIff(key: string, events: set<Event>, slots: Slots, d: Event)
    requires SlotsHold(key, events, slots)
    ensures SlotsHold(key, events + {d}, slots) <==> AccountedFor(key, slots, d)
  {
    if SlotsHold(key, events + {d}, slots) {
      forall name | Deletes(d, key, name) ensures name in slots && Outranks(slots[name], TombstoneOf(d)) {
        assert SlotHolds(key, events + {d}, name, Lookup(slots, name));
      }
    }
    if AccountedFor(key, slots, d) {
      forall name ensures SlotHolds(key, events + {d}, name, Lookup(slots, name)) {
        assert SlotHolds(key, events, name, Lookup(slots, name));
        if name in slots {
          var w :| IsNewestDelete(key, events, name, w) && slots[name] == TombstoneOf(w);
          assert IsNewestDelete(key, events + {d}, name, w);
        }
      }
    }
  }

  // ------------------------------------------------------------------ NIP-09

  /** How the store reads a slot: only the tombstone kept there, and only its own author's events. */
  predicate HiddenBySlot(slot: Option<Tombstone>, e: Event) {
    slot.Some? && slot.value.pubkey == e.pubkey && e.createdAt <= slot.value.createdAt
  }

  /** What NIP-09 asks: some delete request by the same author, not older than the event, names it. */
  ghost predicate HiddenByAuthor(key: string, events: set<Event>, name: string, e: Event) {
    exists d :: d in events && Deletes(d, key, name) && d.pubkey == e.pubkey && e.createdAt <= d.createdAt
  }

  /** The slot never hides more than NIP-09 does, and it hides as much exactly when
      the delete that won the slot was written by the event's own author. */
  lemma SlotAgainstNip09(key: string, events: set<Event>, name: string, slot: Option<Tombstone>, e: Event)
    requires SlotHolds(key, events, name, slot)
    ensures HiddenBySlot(slot, e) ==> HiddenByAuthor(key, events, name, e)
    ensures HiddenByAuthor(key, events, name, e) ==> slot.Some?
    ensures HiddenByAuthor(key, events, name, e) ==> (HiddenBySlot(slot, e) <==> slot.value.pubkey == e.pubkey)
  {
  }

  /** A later delete by somebody else takes the slot, and the author's own delete stops counting. */
  lemma ForeignDeleteUnhides() returns (e: Event, events: set<Event>, slot: Option<Tombstone>)
    ensures ContentAddressed(events) && SlotHolds("e", events, e.id, slot)
    ensures HiddenByAuthor("e", events, e.id, e) && !HiddenBySlot(slot, e)
  {
    e := Event("aaaa", "alice", 1, 10, [], "", "");
    var own := Event("bbbb", "alice", DELETE_KIND, 20, [["e", e.id]], "", "");
    var foreign := Event("cccc", "mallory", DELETE_KIND, 30, [["e", e.id]], "", "");
    events := {own, foreign};
    slot := Some(TombstoneOf(foreign));
    assert own.id[0] != foreign.id[0];
    assert TagIs(own.tags[0], "e", e.id) && TagIs(foreign.tags[0], "e", e.id);
    assert Deletes(own, "e", e.id) && Deletes(foreign, "e", e.id);
    assert !Older(foreign, own) && !Older(foreign, foreign) by {
      if Older(foreign, foreign) { OlderStrict(foreign, foreign); }
    }
    assert IsNewestDelete("e", events, e.id, foreign);
    assert e.pubkey[0] != foreign.pubkey[0];
  }
}
