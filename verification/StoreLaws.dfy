/** Laws that span several operations of the store, or several stores. */
module StoreLaws {
  import opened Outcomes
  import opened Sums
  import opened Text
  import opened Events
  import opened EventOrder
  import opened Tombstones
  import opened Retention
  import opened Answers
  import opened StoreIndex
  import opened EventStore
  import BlobStore

  /** Two configurations under which queries read alike. */
  ghost predicate ReadAlike(a: Config, b: Config) {
    && a.pinnedPubkeys == b.pinnedPubkeys && a.pinnedIds == b.pinnedIds
    && a.protectPinned == b.protectPinned && a.lower == b.lower
  }

  lemma StoredContentAddressed(events: map<string, Event>)
    requires KeyedById(events)
    ensures ContentAddressed(events.Values)
  {
  }

  // ------------------------------------------- what the stored events decide

  /** The stored events decide every index read and every tombstone, and after a rebuild every pointer. */
  lemma SameEventsSameMetadata(a: Store, b: Store)
    requires a.Valid() && b.Valid() && a.events == b.events
    ensures forall key :: ReadIds(a.index, key) == ReadIds(b.index, key)
    ensures a.DeletesApplied() && b.DeletesApplied() ==> a.byId == b.byId && a.byAddress == b.byAddress
    ensures LatestNewest(a.Stored(), a.latest) && LatestNewest(b.Stored(), b.latest) ==> a.latest == b.latest
  {
    IndexUnique(a.Stored(), a.index, b.index);
    StoredContentAddressed(a.events);
    if a.DeletesApplied() && b.DeletesApplied() {
      SlotsUnique("e", a.Stored(), a.byId, b.byId);
      SlotsUnique("a", a.Stored(), a.byAddress, b.byAddress);
    }
    if LatestNewest(a.Stored(), a.latest) && LatestNewest(b.Stored(), b.latest) {
      LatestUnique(a.Stored(), a.latest, b.latest);
    }
  }

  /** Stores that hold the same events and apply deletes give the same answer to every query. */
  lemma SameEventsSameAnswers(a: Store, b: Store, q: Query, policy: Policy, r: seq<Event>, s: seq<Event>)
    requires a.Valid() && b.Valid() && a.events == b.events
    requires a.DeletesApplied() && b.DeletesApplied()
    requires ReadAlike(a.config, b.config)
    requires IsAnswer(a.Matching(q, policy), q.limit, r) && IsAnswer(b.Matching(q, policy), q.limit, s)
    ensures r == s
  {
    SameEventsSameMatches(a.config, b.config, a.events, a.byId, a.byAddress, b.byId, b.byAddress, q, policy);
    hide IsAnswer, StoreValid, SlotsHold, Visible, Matches;
    AnswerUnique(a.Matching(q, policy), q.limit, r, s);
  }

  /** The stored events decide what a query matches. */
  lemma SameEventsSameMatches(a: Config, b: Config, events: map<string, Event>, byId: Slots, byAddress: Slots,
      byId': Slots, byAddress': Slots, q: Query, policy: Policy)
    requires KeyedById(events) && ReadAlike(a, b)
    requires SlotsHold("e", events.Values, byId) && SlotsHold("a", events.Values, byAddress)
    requires SlotsHold("e", events.Values, byId') && SlotsHold("a", events.Values, byAddress')
    ensures (set e | e in events.Values && Matches(a.lower, q, e) && Visible(a, byId, byAddress, e, policy))
         == (set e | e in events.Values && Matches(b.lower, q, e) && Visible(b, byId', byAddress', e, policy))
  {
    StoredContentAddressed(events);
    SlotsUnique("e", events.Values, byId, byId');
    SlotsUnique("a", events.Values, byAddress, byAddress');
  }

  /** What may happen to a store between two moments. */
  datatype Change = Arrive(ev: Event, deletes: bool, expiration: bool) | Prune | Rebuild | Refresh

  method ApplyChanges(store: Store, changes: seq<Change>, now: nat)
    requires store.Valid() && forall c :: c in changes && c.Arrive? ==> |c.ev.id| >= 4
    modifies store
    ensures store.Valid()
  {
    hide Store.Valid, Store.DeletesApplied;
    for i := 0 to |changes|
      invariant store.Valid()
    {
      match changes[i]
      case Arrive(ev, deletes, expiration) => var _ := store.IngestWithPolicy(ev, deletes, expiration, now);
      case Prune => var _ := store.EnforceRetention(now);
      case Rebuild => store.Reindex();
      case Refresh => var _ := store.RefreshStatsCache();
    }
  }

  /** Restoring a snapshot gives back the answer to every query that the source gave when the snapshot
      was taken, whatever has happened since to the store restored into, even if that is the source itself;
      and it gives back the blobs, the admin lists and the mirror cursors. */
  method BackupThenRestore(source: Store, target: Store, changes: seq<Change>, q: Query, policy: Policy, now: nat)
    returns (before: seq<Event>, after: seq<Event>)
    requires source.Valid() && source.DeletesApplied() && source.files.Valid() && target.Valid()
    requires forall c :: c in changes && c.Arrive? ==> |c.ev.id| >= 4
    requires ReadAlike(source.config, target.config) && source.files.contentSize == target.files.contentSize
    requires Store.PathSafe(q)
    modifies target, target.files
    ensures target.Valid() && target.DeletesApplied() && target.events == old(source.events)
    ensures target.carried == old(source.carried) && Store.BlobsRestored(target.files, old(source.files.metas), target.events)
    ensures IsAnswer(old(source.Matching(q, policy)), q.limit, before)
    ensures after == before
  {
    assert KeyedById(source.events) && BlobStore.MetasFiled(source.files.contentSize, source.files.metas);
    hide Store.Valid, SlotsHold, KeyedById, LatestNewest, ReadAlike, Store.PathSafe, IsAnswer, BlobStore.MetasFiled,
         Store.BlobsRestored, BlobStore.FileStore.Valid;
    before := source.QueryWithPolicy(q, policy);
    var backup := source.BackupTo(true);
    ApplyChanges(target, changes, now);
    var restored := target.RestoreFrom(backup.value);
    after := target.QueryWithPolicy(q, policy);
    SameEventsSameMatches(source.config, target.config, target.events, old(source.byId), old(source.byAddress),
      target.byId, target.byAddress, q, policy);
    AnswerUnique(target.Matching(q, policy), q.limit, after, before);
  }

  // --------------------------------------------------------- latest pointers

  /** Ingest writes pointers in arrival order, so it keeps them newest exactly when the event it
      stores is newer than every stored event it shares a pointer with. */
  lemma IngestKeepsNewestIff(stored: set<Event>, before: Latest, ev: Event, after: Latest)
    requires LatestNewest(stored, before) && LatestWith(before, ev, after)
    requires ev !in stored && IdsDiffer(stored + {ev})
    ensures LatestNewest(stored + {ev}, after) <==>
      forall f, key :: f in stored && CarriesLatest(f, key) && CarriesLatest(ev, key) ==> Older(f, ev)
  {
    if LatestNewest(stored + {ev}, after) {
      forall f, key | f in stored && CarriesLatest(f, key) && CarriesLatest(ev, key) ensures Older(f, ev) {
        assert PointerNewest(stored + {ev}, key, PointerAt(after, key));
        var w :| IsNewestCarrier(stored + {ev}, key, w) && w.id == ev.id;
        assert ev in stored + {ev} && w == ev;
        assert IsCarrier(stored + {ev}, key, f);
        OlderTotal(f, ev);
      }
    }
    if forall f, key :: f in stored && CarriesLatest(f, key) && CarriesLatest(ev, key) ==> Older(f, ev) {
      forall key ensures PointerNewest(stored + {ev}, key, PointerAt(after, key)) {
        assert PointerNewest(stored, key, PointerAt(before, key));
        if CarriesLatest(ev, key) {
          forall f | IsCarrier(stored + {ev}, key, f) ensures !Older(ev, f) {
            if Older(ev, f) { OlderStrict(ev, f); }
          }
          assert IsNewestCarrier(stored + {ev}, key, ev);
        } else {
          assert forall f :: IsCarrier(stored + {ev}, key, f) <==> IsCarrier(stored, key, f);
          if PointerAt(before, key).Some? {
            var w :| IsNewestCarrier(stored, key, w) && w.id == before[key];
            assert IsNewestCarrier(stored + {ev}, key, w);
          }
        }
      }
    }
  }

  // -------------------------------------------------------------- visibility

  /** A tag names the event: by its id, or by its address. */
  ghost predicate NamesEvent(key: string, name: string, e: Event) {
    (key == "e" && name == e.id) || (key == "a" && IsAddress(e, name))
  }

  /** Someone other than the author asked for this event's deletion, by id or by address. */
  ghost predicate DeletedByOthers(stored: set<Event>, e: Event) {
    exists key, name, d :: d in stored && Deletes(d, key, name) && NamesEvent(key, name, e) && d.pubkey != e.pubkey
  }

  /** The event's author asked for its deletion in a request not older than the event (NIP-09). */
  ghost predicate DeletedByAuthor(stored: set<Event>, e: Event) {
    exists key, name :: NamesEvent(key, name, e) && HiddenByAuthor(key, stored, name, e)
  }

  /** The newest deletion request for this name is by the event's author and not older than the event. */
  ghost predicate AuthorHasLastWord(key: string, stored: set<Event>, name: string, e: Event) {
    exists d :: IsNewestDelete(key, stored, name, d) && d.pubkey == e.pubkey && e.createdAt <= d.createdAt
  }

  /** The deletion requests that count: for each name of the event, only the newest one. */
  ghost predicate DeletedByLastWord(stored: set<Event>, e: Event) {
    exists key, name :: NamesEvent(key, name, e) && AuthorHasLastWord(key, stored, name, e)
  }

  /** What hides an event, exactly: expiry, for unprotected events, or a deletion request by its author
      that is the newest for its name. That is never more than NIP-09 asks, and as much when no one
      else's request competes for the same name. */
  lemma VisibilityMeetsNip09(config: Config, stored: set<Event>, byId: Slots, byAddress: Slots, e: Event, policy: Policy)
    requires ContentAddressed(stored)
    requires SlotsHold("e", stored, byId) && SlotsHold("a", stored, byAddress)
    ensures var pinned := e.pubkey in config.pinnedPubkeys || e.id in config.pinnedIds;
      Visible(config, byId, byAddress, e, policy) <==>
        || (pinned && config.protectPinned)
        || ((policy.expiration && HasExpired(e, policy.now) ==> pinned)
            && !(policy.deletes && e.kind != 5 && DeletedByLastWord(stored, e)))
    ensures DeletedByLastWord(stored, e) ==> DeletedByAuthor(stored, e)
    ensures !DeletedByOthers(stored, e) ==> (DeletedByLastWord(stored, e) <==> DeletedByAuthor(stored, e))
  {
    ExpiredMeans(e, policy.now);
    forall key, name | NamesEvent(key, name, e)
      ensures AuthorHasLastWord(key, stored, name, e) <==> HiddenBySlot(Lookup(if key == "e" then byId else byAddress, name), e)
      ensures AuthorHasLastWord(key, stored, name, e) ==> HiddenByAuthor(key, stored, name, e)
      ensures !DeletedByOthers(stored, e) && HiddenByAuthor(key, stored, name, e) ==> AuthorHasLastWord(key, stored, name, e)
    {
      LastWordIsSlot(key, stored, if key == "e" then byId else byAddress, name, e);
    }
    assert NamesEvent("e", e.id, e);
    forall name ensures NamesEvent("a", name, e) <==> Address(e) == Some(name) {
      AddressMeans(e, name);
    }
    hide AuthorHasLastWord, HiddenByAuthor, DeletedByOthers, SlotsHold, Expired, HasExpired, Address, HiddenBySlot, NamesEvent;
  }

  /** The author deletes an event by its address: no older, the newest request for that text, and the text is
      the kind's numeral, the author and the first `d` value. The event is hidden. */
  lemma AddressDeleteHides(config: Config, stored: set<Event>, byId: Slots, byAddress: Slots, e: Event, policy: Policy,
      d: Event, text: string, numeral: string, i: nat, j: nat)
    requires ContentAddressed(stored)
    requires SlotsHold("e", stored, byId) && SlotsHold("a", stored, byAddress)
    requires IsFirstTag(e.tags, "d", i) && IsNumeral(numeral, e.kind)
    requires text == numeral + ":" + e.pubkey + ":" + e.tags[i][1]
    requires d in stored && d.kind == 5 && d.pubkey == e.pubkey && e.createdAt <= d.createdAt
    requires j < |d.tags| && |d.tags[j]| >= 2 && d.tags[j][0] == "a" && d.tags[j][1] == text
    requires forall x, k ::
      (x in stored && x.kind == 5 && 0 <= k < |x.tags| && |x.tags[k]| >= 2 && x.tags[k][0] == "a" && x.tags[k][1] == text)
      ==> x == d || Older(x, d)
    requires policy.deletes && e.kind != 5
    requires config.protectPinned ==> e.pubkey !in config.pinnedPubkeys && e.id !in config.pinnedIds
    ensures !Visible(config, byId, byAddress, e, policy)
  {
    assert AddressParts(e, text, numeral, i);
    assert NamesEvent("a", text, e);
    assert TagIs(d.tags[j], "a", text);
    assert IsNewestDelete("a", stored, text, d) by {
      forall x | x in stored && Deletes(x, "a", text) ensures !Older(d, x) {
        var k :| 0 <= k < |x.tags| && TagIs(x.tags[k], "a", text);
        OlderStrictOrSame(x, d);
      }
    }
    assert AuthorHasLastWord("a", stored, text, e);
    hide Visible, IsNewestDelete, NamesEvent, SlotsHold, ContentAddressed, Older;
    VisibilityMeetsNip09(config, stored, byId, byAddress, e, policy);
  }

  lemma OlderStrictOrSame(x: Event, d: Event)
    requires x == d || Older(x, d)
    ensures !Older(d, x)
  {
    if Older(d, x) {
      OlderStrict(d, x);
    }
  }

  /** What a query matches, in terms of the stored events alone. */
  lemma MatchingMeans(store: Store, q: Query, policy: Policy, e: Event)
    requires store.Valid() && store.DeletesApplied()
    ensures e in store.Matching(q, policy) <==>
      var pinned := e.pubkey in store.config.pinnedPubkeys || e.id in store.config.pinnedIds;
      && e in store.Stored() && Matches(store.config.lower, q, e)
      && ((pinned && store.config.protectPinned)
          || ((policy.expiration && HasExpired(e, policy.now) ==> pinned)
              && !(policy.deletes && e.kind != 5 && DeletedByLastWord(store.Stored(), e))))
  {
    StoredContentAddressed(store.events);
    hide Matches, Visible, SlotsHold, ContentAddressed, KeyedById, DeletedByLastWord, HasExpired;
    VisibilityMeetsNip09(store.config, store.Stored(), store.byId, store.byAddress, e, policy);
  }

  lemma LastWordIsSlot(key: string, stored: set<Event>, slots: Slots, name: string, e: Event)
    requires ContentAddressed(stored) && SlotsHold(key, stored, slots)
    ensures HiddenBySlot(Lookup(slots, name), e) <==> AuthorHasLastWord(key, stored, name, e)
    ensures AuthorHasLastWord(key, stored, name, e) ==> HiddenByAuthor(key, stored, name, e)
    ensures (forall d :: d in stored && Deletes(d, key, name) ==> d.pubkey == e.pubkey) ==>
      (AuthorHasLastWord(key, stored, name, e) <==> HiddenByAuthor(key, stored, name, e))
  {
    assert SlotHolds(key, stored, name, Lookup(slots, name));
    if name in slots {
      var w :| IsNewestDelete(key, stored, name, w) && slots[name] == TombstoneOf(w);
      forall d | IsNewestDelete(key, stored, name, d) ensures TombstoneOf(d) == TombstoneOf(w) {
        OlderTotal(d, w);
      }
    }
  }

  /** Once hidden, always hidden: as events arrive and time passes, an event deleted only by its
      own author, or expired, does not come back. */
  lemma HiddenForGood(config: Config, before: set<Event>, after: set<Event>,
      byId: Slots, byAddress: Slots, byId': Slots, byAddress': Slots, e: Event, policy: Policy, later: nat)
    requires before <= after && policy.now <= later
    requires SlotsHold("e", before, byId) && SlotsHold("a", before, byAddress)
    requires SlotsHold("e", after, byId') && SlotsHold("a", after, byAddress')
    requires !DeletedByOthers(after, e)
    requires !Visible(config, byId, byAddress, e, policy)
    ensures !Visible(config, byId', byAddress', e, policy.(now := later))
  {
    StillHidden("e", before, after, byId, byId', e.id, e);
    if Address(e).Some? {
      AddressMeans(e, Address(e).value);
      StillHidden("a", before, after, byAddress, byAddress', Address(e).value, e);
    }
  }

  lemma StillHidden(key: string, before: set<Event>, after: set<Event>, slots: Slots, slots': Slots, name: string, e: Event)
    requires before <= after && SlotsHold(key, before, slots) && SlotsHold(key, after, slots')
    requires NamesEvent(key, name, e) && !DeletedByOthers(after, e)
    ensures HiddenBySlot(Lookup(slots, name), e) ==> HiddenBySlot(Lookup(slots', name), e)
  {
    assert SlotHolds(key, before, name, Lookup(slots, name)) && SlotHolds(key, after, name, Lookup(slots', name));
  }

  /** The newest deletion request for this name is by the author and newer than the event. */
  ghost predicate NewerLastWord(key: string, stored: set<Event>, name: string, e: Event) {
    exists d :: IsNewestDelete(key, stored, name, d) && d.pubkey == e.pubkey && Older(e, d)
  }

  ghost predicate DeletedByNewerWord(stored: set<Event>, e: Event) {
    exists key, name :: NamesEvent(key, name, e) && NewerLastWord(key, stored, name, e)
  }

  /** The newest deletion request for this name among those left is by the author, of the event's own second. */
  ghost predicate TiedLastWord(key: string, stored: set<Event>, name: string, e: Event) {
    exists d :: IsNewestDelete(key, stored, name, d) && d.pubkey == e.pubkey && d.createdAt == e.createdAt
  }

  /** Retention and one name of an unprotected event that stays: the deletion in force, `w`, still hides the
      event exactly when it stays too, or when it had the event's own second and another of that second, by
      the author, is the newest left. It is sure to stay when it is newer than the event. */
  lemma LastWordAfterPruning(key: string, config: Config, records: seq<Event>, k: nat, name: string, e: Event, w: Event)
    requires Sorted(false, records) && ContentAddressed(Elems(records))
    requires var kept := AfterRemoving(config.Protection(), records, k); e in kept && !config.Protected(e)
    requires IsNewestDelete(key, Elems(records), name, w) && w.pubkey == e.pubkey && e.createdAt <= w.createdAt
    ensures var kept := AfterRemoving(config.Protection(), records, k);
      && (Older(e, w) ==> w in kept)
      && (w !in kept ==> w.createdAt == e.createdAt)
      && (AuthorHasLastWord(key, Elems(kept), name, e) <==> w in kept || TiedLastWord(key, Elems(kept), name, e))
  {
    var kept := AfterRemoving(config.Protection(), records, k);
    KeptSorted(config.Protection(), records, k);
    if Older(e, w) {
      NewerStays(config.Protection(), records, k, e, w);
    }
    if w in kept {
      assert IsNewestDelete(key, Elems(kept), name, w);
    } else {
      assert w.createdAt == e.createdAt;
      forall d | IsNewestDelete(key, Elems(kept), name, d) && e.createdAt <= d.createdAt ensures d.createdAt == e.createdAt {
        assert d in Elems(records) && !Older(w, d);
      }
    }
  }

  /** Retention never brings back an unprotected event that its author's newer deletion request hides. */
  method RetentionKeepsHidden(store: Store, now: nat) returns (removed: nat)
    requires store.Valid() && store.DeletesApplied()
    modifies store
    ensures store.Valid() && store.DeletesApplied()
    ensures forall e, policy: Policy ::
      (e in store.Stored() && !store.config.Protected(e) && e.kind != 5 && policy.deletes
       && DeletedByNewerWord(old(store.Stored()), e)) ==> !Visible(store.config, store.byId, store.byAddress, e, policy)
  {
    ghost var before := store.events;
    var records := store.SortedEventRecords();
    removed := store.EnforceRetention(now);
    StoredContentAddressed(before);
    StoredContentAddressed(store.events);
    forall e, policy: Policy | e in store.Stored() && !store.config.Protected(e) && e.kind != 5 && policy.deletes
                               && DeletedByNewerWord(before.Values, e)
      ensures !Visible(store.config, store.byId, store.byAddress, e, policy)
    {
      StaysDeleted(store.config, records, removed, e);
      VisibilityMeetsNip09(store.config, store.Stored(), store.byId, store.byAddress, e, policy);
    }
  }

  lemma StaysDeleted(config: Config, records: seq<Event>, k: nat, e: Event)
    requires Sorted(false, records) && ContentAddressed(Elems(records)) && !config.Protected(e)
    requires e in AfterRemoving(config.Protection(), records, k) && DeletedByNewerWord(Elems(records), e)
    ensures DeletedByLastWord(Elems(AfterRemoving(config.Protection(), records, k)), e)
  {
    var key, name :| NamesEvent(key, name, e) && NewerLastWord(key, Elems(records), name, e);
    var w :| IsNewestDelete(key, Elems(records), name, w) && w.pubkey == e.pubkey && Older(e, w);
    LastWordAfterPruning(key, config, records, k, name, e, w);
  }

  /** Equal seconds are the exception: a note and its deletion of the same second, the deletion first by id,
      in a store that keeps one event. Retention drops the deletion, and the note is visible again. */
  lemma TieReveals(config: Config, now: nat) returns (d: Event, e: Event, byId: Slots)
    requires config.pinnedPubkeys == {} && config.pinnedIds == {} && config.caps == Caps(Some(1), None)
    ensures Sorted(false, [d, e]) && IsCut(config.caps, config.size, config.Protection(), [d, e], 1)
    ensures AfterRemoving(config.Protection(), [d, e], 1) == [e]
    ensures SlotsHold("e", {d, e}, byId) && SlotsHold("a", {d, e}, map[])
    ensures !Visible(config, byId, map[], e, Policy(true, true, now))
    ensures SlotsHold("e", {e}, map[]) && SlotsHold("a", {e}, map[])
    ensures Visible(config, map[], map[], e, Policy(true, true, now))
  {
    e := Event("bbbb", "alice", 1, 10, [], "", "");
    d := Event("aaaa", "alice", DELETE_KIND, 10, [["e", e.id]], "", "");
    assert d.id[0] < e.id[0];
    OneTagSlot(map[], d, e.id);
    byId := map[e.id := TombstoneOf(d)];
    assert SlotsHold("e", {e}, map[]);
    ApplyDeleteHolds("e", {e}, map[], d);
    assert {e} + {d} == {d, e};
    assert forall name :: !HasTag(d, "a", name);
    assert [d, e][1..] == [e] && [e][1..] == [];
    assert AfterRemoving(config.Protection(), [e], 0) == [e];
    RemovingNone(config.Protection(), [d, e]);
    assert Only(config.Protection(), false, [e]) == [e];
  }

  /** The author's deletion request hides the note until someone else's later one takes the tombstone. */
  lemma ForeignDeleteReveals(config: Config, now: nat)
    returns (e: Event, before: set<Event>, after: set<Event>, byId: Slots, byId': Slots, none: Slots)
    requires config.pinnedPubkeys == {} && config.pinnedIds == {}
    ensures before <= after && e in before && IdsDiffer(after)
    ensures SlotsHold("e", before, byId) && SlotsHold("a", before, none)
    ensures SlotsHold("e", after, byId') && SlotsHold("a", after, none)
    ensures !Visible(config, byId, none, e, Policy(true, true, now)) && Visible(config, byId', none, e, Policy(true, true, now))
  {
    e := Event("aaaa", "alice", 1, 10, [], "", "");
    var own := Event("bbbb", "alice", DELETE_KIND, 20, [["e", e.id]], "", "");
    var foreign := Event("cccc", "mallory", DELETE_KIND, 30, [["e", e.id]], "", "");
    before, after := {e, own}, {e, own, foreign};
    none := map[];
    byId := ApplyDelete("e", map[], own);
    byId' := ApplyDelete("e", byId, foreign);
    OneTagSlot(map[], own, e.id);
    OneTagSlot(byId, foreign, e.id);
    hide ApplyDelete;
    assert e.id[0] != own.id[0] && own.id[0] != foreign.id[0] && e.id[0] != foreign.id[0];
    assert e.pubkey[0] != foreign.pubkey[0];
    assert byId == map[e.id := TombstoneOf(own)] && byId' == map[e.id := TombstoneOf(foreign)];
    assert Visible(config, byId', none, e, Policy(true, true, now)) && !Visible(config, byId, none, e, Policy(true, true, now));
    SlotsOfThree(e, own, foreign, byId, byId');
  }

  lemma OneTagSlot(slots: Slots, d: Event, id: string)
    requires d.kind == DELETE_KIND && d.tags == [["e", id]]
    ensures ApplyDelete("e", slots, d) == WriteSlot(slots, id, TombstoneOf(d))
  {
    assert d.tags[..0] == [] && ApplyTags("e", slots, [], TombstoneOf(d)) == slots;
    assert d.tags[0][1] == id;
  }

  lemma SlotsOfThree(e: Event, own: Event, foreign: Event, byId: Slots, byId': Slots)
    requires e.kind != DELETE_KIND && byId == ApplyDelete("e", map[], own) && byId' == ApplyDelete("e", byId, foreign)
    requires own.tags == [["e", e.id]] == foreign.tags
    ensures SlotsHold("e", {e, own}, byId) && SlotsHold("a", {e, own}, map[])
    ensures SlotsHold("e", {e, own, foreign}, byId') && SlotsHold("a", {e, own, foreign}, map[])
  {
    assert forall name :: !HasTag(own, "a", name) && !HasTag(foreign, "a", name);
    assert SlotsHold("e", {e}, map[]);
    hide ApplyDelete;
    ApplyDeleteHolds("e", {e}, map[], own);
    assert {e} + {own} == {e, own} && {e, own} + {foreign} == {e, own, foreign};
    ApplyDeleteHolds("e", {e, own}, byId, foreign);
  }

  /** At one moment, visibility depends on the stored events alone. */
  lemma VisibilityFollowsEvents(config: Config, events: map<string, Event>,
      byId: Slots, byAddress: Slots, byId': Slots, byAddress': Slots, e: Event, policy: Policy)
    requires KeyedById(events)
    requires SlotsHold("e", events.Values, byId) && SlotsHold("a", events.Values, byAddress)
    requires SlotsHold("e", events.Values, byId') && SlotsHold("a", events.Values, byAddress')
    ensures Visible(config, byId, byAddress, e, policy) == Visible(config, byId', byAddress', e, policy)
  {
    StoredContentAddressed(events);
    SlotsUnique("e", events.Values, byId, byId');
    SlotsUnique("a", events.Values, byAddress, byAddress');
  }

  // --------------------------------------------------------------- retention

  /** Running retention again, with nothing stored in between, removes nothing and changes no event. */
  method RetainTwice(store: Store, now: nat, later: nat) returns (first: nat, second: nat)
    requires store.Valid()
    modifies store
    ensures store.Valid() && second == 0
    ensures forall records :: Sorted(false, records) && Elems(records) == old(store.Stored()) ==>
      store.Stored() == Elems(AfterRemoving(store.config.Protection(), records, first))
  {
    var protected := store.config.Protection();
    var records := store.SortedEventRecords();
    first := store.EnforceRetention(now);
    var kept := AfterRemoving(protected, records, first);
    KeptSorted(protected, records, first);
    second := store.EnforceRetention(later);
    SecondPassRemovesNothing(store.config.caps, store.config.size, protected, records, first);
    RemovingNone(protected, kept);
    forall r | Sorted(false, r) && Elems(r) == Elems(records) ensures r == records {
      SortedUnique(false, r, records);
    }
  }

  // ---------------------------------------------------------- retention status

  /** Without a stats cache the status never warns, so the status file tells the truth about the caps
      exactly when there is a cache, or no cap is exceeded. */
  lemma StatusTruthfulIff(store: Store)
    requires store.Valid()
    ensures store.stats.None? ==> !store.status.overEvents && !store.status.overBytes
    ensures ((store.status.overEvents || store.status.overBytes) <==> store.OverCaps())
            <==> (store.stats.Some? || !store.OverCaps())
  {
  }

  /** A run that shows the stale status: a fresh store has no cache, and ingest does not create one. */
  method FreshStoreUnderreports(config: Config, ev: Event) returns (store: Store)
    requires config.caps == Caps(Some(0), None) && !config.verifySig && |ev.id| >= 4
    ensures fresh(store) && store.Valid() && store.events == map[ev.id := ev]
    ensures !store.status.overEvents && !store.status.overBytes && store.OverCaps()
  {
    var files := new BlobStore.FileStore(hash => 0);
    store := new Store(config, files);
    var stored := store.IngestWithPolicy(ev, true, false, 0);
  }
}
