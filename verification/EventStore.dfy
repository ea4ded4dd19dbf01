/** The file-backed event store: each directory is a field, each operation updates it in place. */
module EventStore {
  import opened Outcomes
  import opened Text
  import opened Sums
  import opened Events
  import opened EventOrder
  import opened Tombstones
  import opened Retention
  import opened Answers
  import opened StoreIndex
  import BlobStore

  datatype State = Disabled | Warning | Fine

  datatype PassOutcome = NoCaps | WithinLimits | Busy | Changed | Applied(removed: nat)

  /** The retention status file. */
  datatype Status = Status(
    state: State,
    currentEvents: nat,
    currentBytes: nat,
    overEvents: bool,
    overBytes: bool,
    lastPruneAt: Option<nat>,
    lastPruneRemoved: Option<nat>)

  datatype Snapshot = Snapshot(format: string, events: map<string, Event>, blobs: BlobStore.Metas, carried: map<string, string>)

  const SNAPSHOT_FORMAT := "stonr-store-snapshot-v1"

  /** The stats cache. */
  datatype Totals = Totals(count: nat, bytes: nat)

  /** Both totals after one file of this size is gone, with saturating subtraction. */
  function WithoutOne(totals: Totals, bytes: nat): Totals {
    Totals(if totals.count > 0 then totals.count - 1 else 0, if totals.bytes > bytes then totals.bytes - bytes else 0)
  }

  ghost function TrueTotals(config: Config, events: map<string, Event>): Totals {
    Totals(|events|, SetSum(config.size, events.Values))
  }

  /** The status reports the totals, warns of each cap that they pass, and is off when no cap is set. */
  function BuildStatus(caps: Caps, count: nat, bytes: nat): (s: Status)
    ensures s.overEvents <==> caps.maxEvents != None && caps.maxEvents.value < count
    ensures s.overBytes <==> caps.maxBytes != None && caps.maxBytes.value < bytes
    ensures s.state == Disabled <==> caps == Caps(None, None)
    ensures s.state == Warning <==> !WithinCaps(caps, count, bytes)
    ensures s.currentEvents == count && s.currentBytes == bytes && s.lastPruneAt == s.lastPruneRemoved == None
  {
    var overEvents := caps.maxEvents.Some? && count > caps.maxEvents.value;
    var overBytes := caps.maxBytes.Some? && bytes > caps.maxBytes.value;
    var state := if caps.Disabled() then Disabled else if overEvents || overBytes then Warning else Fine;
    Status(state, count, bytes, overEvents, overBytes, None, None)
  }

  /** The status says what these counts say; only the record of the last prune is free. */
  predicate StatusOf(caps: Caps, s: Status, count: nat, bytes: nat) {
    s.(lastPruneAt := None, lastPruneRemoved := None) == BuildStatus(caps, count, bytes)
  }

  function OrElse<T>(a: Option<T>, b: Option<T>): Option<T> {
    if a.Some? then a else b
  }

  /** A stats cache holds the true totals, and the status file repeats the cache. Without a cache the
      status repeats the totals of some earlier moment at which no cap was exceeded: it may lag behind,
      but never runs ahead. */
  ghost predicate StatsExact(config: Config, events: map<string, Event>, stats: Option<Totals>, status: Status) {
    && (stats.Some? ==> stats.value == TrueTotals(config, events))
    && (stats.Some? ==> StatusOf(config.caps, status, stats.value.count, stats.value.bytes))
    && StatusOf(config.caps, status, status.currentEvents, status.currentBytes)
    && status.currentEvents <= TrueTotals(config, events).count
    && status.currentBytes <= TrueTotals(config, events).bytes
    && (stats.None? ==> WithinCaps(config.caps, status.currentEvents, status.currentBytes))
  }

  ghost predicate StoreValid(config: Config, events: map<string, Event>, index: Index, latest: Latest,
      stats: Option<Totals>, status: Status)
  {
    && KeyedById(events)
    && IndexExact(events.Values, index)
    && LatestSound(events.Values, latest)
    && StatsExact(config, events, stats, status)
  }

  /** One event more: the totals grow by one and by its size. */
  lemma TotalsGrow(size: Event -> nat, events: map<string, Event>, ev: Event)
    requires KeyedById(events) && |ev.id| >= 4 && ev.id !in events
    ensures |events[ev.id := ev]| == |events| + 1
    ensures SetSum(size, events[ev.id := ev].Values) == SetSum(size, events.Values) + size(ev)
  {
    StoreOne(events, ev);
    SetSumTake(size, events[ev.id := ev].Values, ev);
    assert events.Values + {ev} - {ev} == events.Values;
  }

  predicate InAll(sets: seq<set<string>>, id: string) {
    forall i :: 0 <= i < |sets| ==> id in sets[i]
  }

  lemma SomeTagExtends(tags: seq<seq<string>>, i: nat, key: string)
    requires i < |tags|
    ensures forall v :: SomeTagIs(tags[..i + 1], key, v) <==> SomeTagIs(tags[..i], key, v) || TagIs(tags[i], key, v)
  {
  }

  class Store {
    const config: Config
    /** The blob store under the same root. */
    const files: BlobStore.FileStore
    var events: map<string, Event>
    /** The files under `admin` and `cursor`, by path: snapshots carry them, and nothing here reads them. */
    var carried: map<string, string>
    var index: Index
    var latest: Latest
    var byId: Slots
    var byAddress: Slots
    var stats: Option<Totals>
    var status: Status

    ghost function Stored(): set<Event>
      reads this
    {
      events.Values
    }

    /** What every operation keeps, in every run: files are named by their event's id, index files
        list exactly the events that carry their key, latest pointers name carriers, and the stats
        cache, when there is one, holds the exact count and byte total. */
    ghost predicate Valid()
      reads this
    {
      StoreValid(config, events, index, latest, stats, status)
    }

    /** The tombstones are those of the stored delete events, no more and no fewer. */
    ghost predicate DeletesApplied()
      reads this
    {
      SlotsHold("e", Stored(), byId) && SlotsHold("a", Stored(), byAddress)
    }

    /** An initialised, empty store: no cache yet, and a status of zero. */
    constructor (config: Config, files: BlobStore.FileStore)
      ensures this.config == config && this.files == files && events == map[] && stats == None
      ensures status == BuildStatus(config.caps, 0, 0)
      ensures Valid() && DeletesApplied()
    {
      this.config, this.files := config, files;
      events, carried, index, latest, byId, byAddress, stats := map[], map[], map[], map[], map[], map[], None;
      status := BuildStatus(config.caps, 0, 0);
      new;
      assert Stored() == {};
    }

    // ------------------------------------------------------------- ingest

    /** Store an event without delete or expiration policy. */
    method Ingest(ev: Event) returns (r: Result<(), string>)
      requires Valid() && |ev.id| >= 4
      modifies this`events, this`index, this`latest, this`byId, this`byAddress, this`stats, this`status
      ensures Valid()
      ensures r.Ok? <==> !config.verifySig || config.verifies(ev)
      ensures events == if r.Ok? && ev.id !in old(events) then old(events)[ev.id := ev] else old(events)
      ensures events != old(events) ==> LatestWith(old(latest), ev, latest)
      ensures events == old(events) ==> latest == old(latest)
      ensures byId == old(byId) && byAddress == old(byAddress)
      ensures old(DeletesApplied()) ==> (DeletesApplied() <==> events == old(events) || old(TombstonesCover(ev)))
    {
      var stored := IngestLocked(ev);
      r := if stored.Ok? then Ok(()) else Err(stored.error);
      if old(DeletesApplied()) {
        UnappliedIngest(old(events), events, ev);
      }
    }

    /** The tombstones account for this event already, if it is a delete event at all. */
    ghost predicate TombstonesCover(ev: Event)
      reads this
    {
      AccountedFor("e", byId, ev) && AccountedFor("a", byAddress, ev)
    }

    lemma UnappliedIngest(before: map<string, Event>, after: map<string, Event>, ev: Event)
      requires SlotsHold("e", before.Values, byId) && SlotsHold("a", before.Values, byAddress)
      requires after == before || (KeyedById(before) && |ev.id| >= 4 && ev.id !in before && after == before[ev.id := ev])
      ensures SlotsHold("e", after.Values, byId) && SlotsHold("a", after.Values, byAddress)
              <==> after == before || TombstonesCover(ev)
    {
      if after != before {
        StoreOne(before, ev);
        SkippedDeleteHarmlessIff("e", before.Values, byId, ev);
        SkippedDeleteHarmlessIff("a", before.Values, byAddress, ev);
      }
    }

    method IngestWithPolicy(ev: Event, deletes: bool, expiration: bool, now: nat) returns (r: Result<bool, string>)
      requires Valid() && |ev.id| >= 4
      modifies this`events, this`index, this`latest, this`byId, this`byAddress, this`stats, this`status
      ensures Valid()
      ensures r.Err? <==> config.verifySig && !config.verifies(ev)
                          && !(expiration && ev.kind != 5 && HasExpired(ev, now))
      ensures r == Ok(true) <==> (config.verifySig ==> config.verifies(ev)) && ev.id !in old(events)
                                 && !(expiration && ev.kind != 5 && HasExpired(ev, now))
      ensures events == if r == Ok(true) then old(events)[ev.id := ev] else old(events)
      ensures r != Ok(true) ==> index == old(index) && latest == old(latest) && stats == old(stats) && status == old(status)
      ensures r == Ok(true) ==> LatestWith(old(latest), ev, latest)
      ensures old(stats).Some? <==> stats.Some?
      ensures stats.None? ==> status == old(status)
      ensures byId == if deletes && r.Ok? then ApplyDelete("e", old(byId), ev) else old(byId)
      ensures byAddress == if deletes && r.Ok? then ApplyDelete("a", old(byAddress), ev) else old(byAddress)
      ensures (old(DeletesApplied()) && deletes
               && (ev.id in old(events) ==> SameHashed(old(events)[ev.id], ev))) ==> DeletesApplied()
      ensures old(DeletesApplied()) && !deletes ==>
        (DeletesApplied() <==> events == old(events) || old(TombstonesCover(ev)))
    {
      ExpiredMeans(ev, now);
      if expiration && ev.kind != DELETE_KIND && Expired(ev, now) {
        return Ok(false);
      }
      r := IngestLocked(ev);
      hide SlotsHold, ApplyDelete, StoreValid, LatestWith, Expired, HasExpired, AccountedFor;
      if r.Ok? {
        if deletes && ev.kind == DELETE_KIND {
          ApplyDeleteEvent(ev);
        }
        if old(DeletesApplied()) && deletes && (ev.id in old(events) ==> SameHashed(old(events)[ev.id], ev)) {
          IngestKeepsTombstones(old(events), events, ev, old(byId), byId, old(byAddress), byAddress);
        }
      }
      if old(DeletesApplied()) && !deletes {
        UnappliedIngest(old(events), events, ev);
      }
    }

    static lemma IngestKeepsTombstones(before: map<string, Event>, after: map<string, Event>, ev: Event,
        ids: Slots, ids': Slots, addresses: Slots, addresses': Slots)
      requires KeyedById(before) && |ev.id| >= 4
      requires SlotsHold("e", before.Values, ids) && SlotsHold("a", before.Values, addresses)
      requires ids' == ApplyDelete("e", ids, ev) && addresses' == ApplyDelete("a", addresses, ev)
      requires ev.id in before ==> SameHashed(before[ev.id], ev)
      requires after == if ev.id in before then before else before[ev.id := ev]
      ensures SlotsHold("e", after.Values, ids') && SlotsHold("a", after.Values, addresses')
    {
      StoredFacts(before);
      if ev.id in before {
        assert before[ev.id] in before.Values;
        ReapplyChangesNothing("e", before.Values, ids, ev);
        ReapplyChangesNothing("a", before.Values, addresses, ev);
      } else {
        StoreOne(before, ev);
        ApplyDeleteHolds("e", before.Values, ids, ev);
        ApplyDeleteHolds("a", before.Values, addresses, ev);
      }
    }

    method IngestLocked(ev: Event) returns (r: Result<bool, string>)
      requires Valid() && |ev.id| >= 4
      modifies this`events, this`index, this`latest, this`stats, this`status
      ensures Valid()
      ensures r.Err? <==> config.verifySig && !config.verifies(ev)
      ensures r == Ok(true) <==> r.Ok? && ev.id !in old(events)
      ensures events == if r == Ok(true) then old(events)[ev.id := ev] else old(events)
      ensures r == Ok(true) ==> LatestWith(old(latest), ev, latest)
      ensures r != Ok(true) ==> index == old(index) && latest == old(latest) && stats == old(stats) && status == old(status)
      ensures old(stats).Some? <==> stats.Some?
      ensures stats.None? ==> status == old(status)
    {
      if config.verifySig && !config.verifies(ev) {
        return Err("invalid event");
      }
      if ev.id in events {
        return Ok(false);
      }
      events := events[ev.id := ev];
      IndexEvent(ev);
      BumpStatsCache(config.size(ev));
      IngestStep(config, old(events), ev, old(index), index, old(latest), latest);
      r := Ok(true);
    }

    static lemma IngestStep(config: Config, events: map<string, Event>, ev: Event, index0: Index, index1: Index,
        latest0: Latest, latest1: Latest)
      requires KeyedById(events) && |ev.id| >= 4 && ev.id !in events
      requires IndexExact(events.Values, index0) && IndexedWith(index0, ev, index1)
      requires LatestSound(events.Values, latest0) && LatestWith(latest0, ev, latest1)
      ensures KeyedById(events[ev.id := ev])
      ensures IndexExact(events[ev.id := ev].Values, index1)
      ensures LatestSound(events[ev.id := ev].Values, latest1)
      ensures TrueTotals(config, events[ev.id := ev]) ==
        Totals(TrueTotals(config, events).count + 1, TrueTotals(config, events).bytes + config.size(ev))
    {
      StoreOne(events, ev);
      IndexGrows(events.Values, index0, ev, index1);
      LatestGrowsSound(events.Values, latest0, ev, latest1);
      TotalsGrow(config.size, events, ev);
    }

    /** Append the event's id to the index files of its author, kind and tags, and point the
        latest pointer of each `d` tag at it. */
    method IndexEvent(ev: Event)
      modifies this`index, this`latest
      ensures IndexedWith(old(index), ev, index)
      ensures LatestWith(old(latest), ev, latest)
    {
      index := AppendIndex(index, ByAuthor(ev.pubkey), ev.id);
      index := AppendIndex(index, ByKind(ev.kind), ev.id);
      for i := 0 to |ev.tags|
        invariant IndexedWith(old(index), ev.(tags := ev.tags[..i]), index)
        invariant LatestWith(old(latest), ev.(tags := ev.tags[..i]), latest)
      {
        var fields := ev.tags[i];
        ghost var indexBefore, latestBefore := index, latest;
        if |fields| >= 2 {
          if fields[0] == "d" {
            index := AppendIndex(index, ByTag("d", fields[1]), ev.id);
            latest := latest[LatestKey(ev.pubkey, ev.kind, fields[1]) := ev.id];
          } else if fields[0] == "t" {
            index := AppendIndex(index, ByTag("t", fields[1]), ev.id);
          } else {
            index := AppendIndex(index, ByTag(fields[0], fields[1]), ev.id);
          }
        }
        IndexStep(old(index), indexBefore, index, ev, i);
        LatestStep(old(latest), latestBefore, latest, ev, i);
      }
      assert ev.tags[..|ev.tags|] == ev.tags;
    }

    static lemma IndexStep(start: Index, before: Index, after: Index, ev: Event, i: nat)
      requires i < |ev.tags|
      requires IndexedWith(start, ev.(tags := ev.tags[..i]), before)
      requires after == if |ev.tags[i]| >= 2 then AppendIndex(before, ByTag(ev.tags[i][0], ev.tags[i][1]), ev.id) else before
      ensures IndexedWith(start, ev.(tags := ev.tags[..i + 1]), after)
    {
    }

    static lemma LatestStep(start: Latest, before: Latest, after: Latest, ev: Event, i: nat)
      requires i < |ev.tags|
      requires LatestWith(start, ev.(tags := ev.tags[..i]), before)
      requires after == if |ev.tags[i]| >= 2 && ev.tags[i][0] == "d"
                        then before[LatestKey(ev.pubkey, ev.kind, ev.tags[i][1]) := ev.id] else before
      ensures LatestWith(start, ev.(tags := ev.tags[..i + 1]), after)
    {
      SomeTagExtends(ev.tags, i, "d");
      var small, large := ev.(tags := ev.tags[..i]), ev.(tags := ev.tags[..i + 1]);
      forall key
        ensures PointerAt(after, key) == if CarriesLatest(large, key) then Some(ev.id) else PointerAt(start, key)
      {
        assert PointerAt(before, key) == if CarriesLatest(small, key) then Some(ev.id) else PointerAt(start, key);
        assert CarriesLatest(large, key) <==>
          CarriesLatest(small, key) || (ev.pubkey == key.pubkey && ev.kind == key.kind && TagIs(ev.tags[i], "d", key.d));
      }
    }

    method ApplyDeleteEvent(ev: Event)
      modifies this`byId, this`byAddress
      ensures byId == ApplyDelete("e", old(byId), ev)
      ensures byAddress == ApplyDelete("a", old(byAddress), ev)
    {
      if ev.kind != DELETE_KIND {
        return;
      }
      var tombstone := TombstoneOf(ev);
      for i := 0 to |ev.tags|
        invariant byId == ApplyTags("e", old(byId), ev.tags[..i], tombstone)
        invariant byAddress == ApplyTags("a", old(byAddress), ev.tags[..i], tombstone)
      {
        var fields := ev.tags[i];
        assert ev.tags[..i + 1][..i] == ev.tags[..i];
        if |fields| >= 2 && fields[0] == "e" {
          byId := WriteSlot(byId, fields[1], tombstone);
        } else if |fields| >= 2 && fields[0] == "a" {
          byAddress := WriteSlot(byAddress, fields[1], tombstone);
        }
      }
      assert ev.tags[..|ev.tags|] == ev.tags;
    }

    // -------------------------------------------------------- stats cache

    method BumpStatsCache(addedBytes: nat)
      modifies this`stats, this`status
      ensures old(stats).Some? ==> stats == Some(Totals(old(stats).value.count + 1, old(stats).value.bytes + addedBytes))
      ensures old(stats).Some? ==> StatusOf(config.caps, status, stats.value.count, stats.value.bytes)
      ensures old(stats).None? ==> stats == None && status == old(status)
    {
      if stats.Some? {
        WriteStatsCache(stats.value.count + 1, stats.value.bytes + addedBytes);
      }
    }

    method WriteStatsCache(count: nat, bytes: nat)
      modifies this`stats, this`status
      ensures stats == Some(Totals(count, bytes))
      ensures StatusOf(config.caps, status, count, bytes)
      ensures status.lastPruneAt == old(status).lastPruneAt && status.lastPruneRemoved == old(status).lastPruneRemoved
    {
      stats := Some(Totals(count, bytes));
      WriteStatus(count, bytes, None, None);
    }

    method WriteStatus(count: nat, bytes: nat, pruneAt: Option<nat>, pruneRemoved: Option<nat>)
      modifies this`status
      ensures StatusOf(config.caps, status, count, bytes)
      ensures status.lastPruneAt == OrElse(pruneAt, old(status).lastPruneAt)
      ensures status.lastPruneRemoved == OrElse(pruneRemoved, old(status).lastPruneRemoved)
    {
      var existing := status;
      status := BuildStatus(config.caps, count, bytes).(
        lastPruneAt := OrElse(pruneAt, existing.lastPruneAt),
        lastPruneRemoved := OrElse(pruneRemoved, existing.lastPruneRemoved));
    }

    static lemma RefreshStep(config: Config, events: map<string, Event>, unseen: set<string>, id: string)
      requires KeyedById(events) && id in unseen && unseen <= events.Keys
      ensures TrueTotals(config, events - (unseen - {id})) ==
        Totals(TrueTotals(config, events - unseen).count + 1, TrueTotals(config, events - unseen).bytes + config.size(events[id]))
    {
      assert KeyedById(events - unseen) && events[id].id == id && |id| >= 4;
      hide KeyedById;
      TotalsGrow(config.size, events - unseen, events[id]);
      assert events - (unseen - {id}) == (events - unseen)[id := events[id]];
    }

    /** Count the event files and their bytes, in whatever order the walk yields them. */
    static method CountFiles(config: Config, events: map<string, Event>) returns (totals: Totals)
      requires KeyedById(events)
      ensures totals == TrueTotals(config, events)
    {
      totals := Totals(0, 0);
      var unseen := events.Keys;
      assert events - unseen == map[];
      while unseen != {}
        invariant unseen <= events.Keys
        invariant totals == TrueTotals(config, events - unseen)
        decreases unseen
      {
        var id :| id in unseen;
        RefreshStep(config, events, unseen, id);
        unseen := unseen - {id};
        totals := Totals(totals.count + 1, totals.bytes + config.size(events[id]));
      }
      assert events - unseen == events;
    }

    method RefreshStatsCache() returns (totals: Totals)
      requires Valid()
      modifies this`stats, this`status
      ensures Valid() && stats == Some(totals)
      ensures totals == TrueTotals(config, events)
    {
      totals := CountFiles(config, events);
      WriteStatsCache(totals.count, totals.bytes);
    }

    // ------------------------------------------------------------ rebuild

    /** Read the event files with these ids, in whatever order, skipping ids that have no file. */
    static method LoadFiles(files: map<string, Event>, ids: set<string>) returns (r: seq<Event>)
      requires KeyedById(files) && forall id :: id in ids ==> |id| >= 4
      ensures DistinctIds(r) && forall e :: e in r <==> e in files.Values && e.id in ids
    {
      r := [];
      var unread := ids;
      StoredFacts(files);
      while unread != {}
        invariant unread <= ids
        invariant DistinctIds(r)
        invariant forall e :: e in r <==> e in files.Values && e.id in ids && e.id !in unread
      {
        var id :| id in unread;
        unread := unread - {id};
        if id in files {
          r := r + [files[id]];
        }
      }
    }

    method SortedEventRecords() returns (r: seq<Event>)
      requires KeyedById(events)
      ensures Sorted(false, r) && Elems(r) == Stored()
    {
      StoredFacts(events);
      var loaded := LoadFiles(events, events.Keys);
      SortSorts(false, loaded);
      r := SortEvents(false, loaded);
      assert Elems(loaded) == Stored();
    }

    /** Throw the derived structures away and build them from these records. */
    method RebuildFromRecords(records: seq<Event>)
      requires Sorted(false, records)
      modifies this`index, this`latest, this`byId, this`byAddress, this`stats, this`status
      ensures IndexExact(Elems(records), index)
      ensures LatestNewest(Elems(records), latest)
      ensures SlotsHold("e", Elems(records), byId) && SlotsHold("a", Elems(records), byAddress)
      ensures stats == Some(Totals(|records|, SeqSum(config.size, records)))
      ensures StatusOf(config.caps, status, |records|, SeqSum(config.size, records))
    {
      index, latest, byId, byAddress := map[], map[], map[], map[];
      ghost var done: set<Event> := {};
      for i := 0 to |records|
        invariant done == Elems(records[..i])
        invariant IndexExact(done, index)
        invariant LatestNewest(done, latest)
        invariant SlotsHold("e", done, byId) && SlotsHold("a", done, byAddress)
      {
        var record := records[i];
        ghost var index0, latest0, byId0, byAddress0 := index, latest, byId, byAddress;
        IndexEvent(record);
        if record.kind == DELETE_KIND {
          ApplyDeleteEvent(record);
        }
        RebuildStep(done, record, index0, index, latest0, latest, byId0, byAddress0);
        assert records[..i + 1] == records[..i] + [record];
        done := done + {record};
      }
      assert records[..|records|] == records;
      WriteStatsCache(|records|, SeqSum(config.size, records));
    }

    static lemma RebuildStep(done: set<Event>, record: Event, index0: Index, index1: Index,
        latest0: Latest, latest1: Latest, byId0: Slots, byAddress0: Slots)
      requires IndexExact(done, index0) && IndexedWith(index0, record, index1)
      requires LatestNewest(done, latest0) && LatestWith(latest0, record, latest1)
      requires forall f :: f in done ==> Older(f, record)
      requires SlotsHold("e", done, byId0) && SlotsHold("a", done, byAddress0)
      ensures IndexExact(done + {record}, index1)
      ensures LatestNewest(done + {record}, latest1)
      ensures SlotsHold("e", done + {record}, ApplyDelete("e", byId0, record))
      ensures SlotsHold("a", done + {record}, ApplyDelete("a", byAddress0, record))
    {
      IndexGrows(done, index0, record, index1);
      LatestGrowsNewest(done, latest0, record, latest1);
      ApplyDeleteHolds("e", done, byId0, record);
      ApplyDeleteHolds("a", done, byAddress0, record);
    }

    method RebuildMetadata()
      requires KeyedById(events)
      modifies this`index, this`latest, this`byId, this`byAddress, this`stats, this`status
      ensures Valid() && DeletesApplied() && LatestNewest(Stored(), latest)
      ensures stats == Some(TrueTotals(config, events))
    {
      var records := SortedEventRecords();
      RebuildFromRecords(records);
      StoredFacts(events);
      SortedFacts(false, records);
      SeqSumIsSetSum(config.size, records);
      NewestIsSound(Stored(), latest);
    }

    /** Rebuild the derived structures. The index files read as before; the tombstones are as before
        exactly when every stored delete had been applied and nothing else had. */
    method Reindex()
      requires Valid()
      modifies this`index, this`latest, this`byId, this`byAddress, this`stats, this`status
      ensures Valid() && DeletesApplied() && LatestNewest(Stored(), latest)
      ensures stats == Some(TrueTotals(config, events))
      ensures forall key :: ReadIds(index, key) == ReadIds(old(index), key)
      ensures byId == old(byId) && byAddress == old(byAddress) <==> old(DeletesApplied())
    {
      RebuildMetadata();
      StoredFacts(events);
      forall key ensures ReadIds(index, key) == ReadIds(old(index), key) {
        forall id ensures id in ReadIds(index, key) <==> id in ReadIds(old(index), key) {
        }
      }
      if old(DeletesApplied()) {
        SlotsUnique("e", Stored(), byId, old(byId));
        SlotsUnique("a", Stored(), byAddress, old(byAddress));
      }
    }

    // ---------------------------------------------------------- retention

    /** Apply the caps now: remove the oldest unprotected events, and only as many as it takes. */
    method EnforceRetention(now: nat) returns (removed: nat)
      requires Valid()
      modifies this`events, this`index, this`latest, this`byId, this`byAddress, this`stats, this`status
      ensures Valid()
      ensures old(DeletesApplied()) || removed > 0 ==> DeletesApplied()
      ensures forall records :: Sorted(false, records) && Elems(records) == old(Stored()) ==>
        && IsCut(config.caps, config.size, config.Protection(), records, removed)
        && Stored() == Elems(AfterRemoving(config.Protection(), records, removed))
      ensures PrunedBy(config.caps, config.size, config.Protection(), old(Stored()), Stored(), removed)
      ensures Stored() <= old(Stored()) && removed == |old(Stored()) - Stored()|
      ensures (exists e :: e in Stored() && e.pubkey !in config.pinnedPubkeys && e.id !in config.pinnedIds) ==>
        && (config.caps.maxEvents.Some? ==> |Stored()| <= config.caps.maxEvents.value)
        && (config.caps.maxBytes.Some? ==> SetSum(config.size, Stored()) <= config.caps.maxBytes.value)
      ensures removed > 0 ==> exists last ::
        && IsLastToGo(old(Stored()), Stored(), last)
        && ((config.caps.maxEvents.Some? && |Stored()| + 1 > config.caps.maxEvents.value)
            || (config.caps.maxBytes.Some? && SetSum(config.size, Stored()) + config.size(last) > config.caps.maxBytes.value))
      ensures config.caps != Caps(None, None) ==> stats == Some(TrueTotals(config, events))
      ensures config.caps == Caps(None, None) ==> stats == old(stats)
    {
      if config.caps.Disabled() {
        var current := if stats.Some? then stats.value else Totals(0, 0);
        WriteStatus(current.count, current.bytes, None, None);
        removed := 0;
        forall records | Sorted(false, records) && Elems(records) == Stored()
          ensures IsCut(config.caps, config.size, config.Protection(), records, removed)
          ensures AfterRemoving(config.Protection(), records, removed) == records
        {
          RemovingNone(config.Protection(), records);
        }
      } else {
        var sorted := SortedEventRecords();
        removed := EnforceRetentionFromRecords(sorted, now);
        forall records | Sorted(false, records) && Elems(records) == old(Stored()) ensures records == sorted {
          SortedUnique(false, records, sorted);
        }
      }
      hide *;
      PrunedMeans(config, old(Stored()), Stored(), removed);
    }

    static lemma PrunedMeans(config: Config, before: set<Event>, after: set<Event>, removed: nat)
      requires PrunedBy(config.caps, config.size, config.Protection(), before, after, removed)
      ensures after <= before && removed == |before - after|
      ensures (exists e :: e in after && e.pubkey !in config.pinnedPubkeys && e.id !in config.pinnedIds) ==>
        && (config.caps.maxEvents.Some? ==> |after| <= config.caps.maxEvents.value)
        && (config.caps.maxBytes.Some? ==> SetSum(config.size, after) <= config.caps.maxBytes.value)
      ensures removed > 0 ==> exists last ::
        && IsLastToGo(before, after, last)
        && ((config.caps.maxEvents.Some? && |after| + 1 > config.caps.maxEvents.value)
            || (config.caps.maxBytes.Some? && SetSum(config.size, after) + config.size(last) > config.caps.maxBytes.value))
    {
      assert |before - after| == |before| - |after|;
    }

    /** The background pass with nothing running beside it: it looks first and takes the lock only to
        act, and with an exact stats cache, or none, it never finds that anything changed. */
    method EnforceRetentionBackground(lockFree: bool, now: nat) returns (r: PassOutcome)
      requires Valid()
      modifies this`events, this`index, this`latest, this`byId, this`byAddress, this`stats, this`status
      ensures Valid()
      ensures r == NoCaps <==> config.caps == Caps(None, None)
      ensures r == WithinLimits <==> config.caps != Caps(None, None) && !old(OverCaps())
      ensures r == Busy <==> old(OverCaps()) && !lockFree
      ensures r.Applied? <==> old(OverCaps()) && lockFree
      ensures r.Applied? ==> forall records :: Sorted(false, records) && Elems(records) == old(Stored()) ==>
        && IsCut(config.caps, config.size, config.Protection(), records, r.removed)
        && Stored() == Elems(AfterRemoving(config.Protection(), records, r.removed))
      ensures r.Applied? ==> PrunedBy(config.caps, config.size, config.Protection(), old(Stored()), Stored(), r.removed)
      ensures r == WithinLimits ==> StatusOf(config.caps, status, TrueTotals(config, events).count, TrueTotals(config, events).bytes)
      ensures !r.Applied? ==> events == old(events) && stats == old(stats) && index == old(index) && latest == old(latest)
      ensures !r.Applied? || r.removed == 0 ==> byId == old(byId) && byAddress == old(byAddress)
      ensures r.Applied? && r.removed > 0 ==> DeletesApplied()
    {
      if config.caps.Disabled() {
        var current := if stats.Some? then stats.value else Totals(0, 0);
        WriteStatus(current.count, current.bytes, None, None);
        return NoCaps;
      }
      var records := SortedEventRecords();
      RecordsTotal(config, events, records);
      var totals := Totals(|records|, SeqSum(config.size, records));
      if !config.caps.Exceeded(totals.count, totals.bytes) {
        WriteStatus(totals.count, totals.bytes, None, None);
        return WithinLimits;
      }
      if !lockFree {
        return Busy;
      }
      if stats.Some? && stats.value != totals {
        return Changed;
      }
      var removed := EnforceRetentionFromRecords(records, now);
      r := Applied(removed);
      forall sorted | Sorted(false, sorted) && Elems(sorted) == old(Stored()) ensures sorted == records {
        SortedUnique(false, sorted, records);
      }
    }

    /** The true totals exceed a cap. */
    ghost predicate OverCaps()
      reads this
    {
      !WithinCaps(config.caps, |events|, SetSum(config.size, Stored()))
    }

    static lemma RecordsTotal(config: Config, events: map<string, Event>, records: seq<Event>)
      requires KeyedById(events) && Sorted(false, records) && Elems(records) == events.Values
      ensures Totals(|records|, SeqSum(config.size, records)) == TrueTotals(config, events)
    {
      StoredFacts(events);
      SortedFacts(false, records);
      SeqSumIsSetSum(config.size, records);
    }

    method EnforceRetentionFromRecords(records: seq<Event>, now: nat) returns (removed: nat)
      requires Valid()
      requires Sorted(false, records) && Elems(records) == Stored()
      modifies this`events, this`index, this`latest, this`byId, this`byAddress, this`stats, this`status
      ensures Valid()
      ensures IsCut(config.caps, config.size, config.Protection(), records, removed)
      ensures Stored() == Elems(AfterRemoving(config.Protection(), records, removed))
      ensures PrunedBy(config.caps, config.size, config.Protection(), Elems(records), Stored(), removed)
      ensures stats == Some(TrueTotals(config, events))
      ensures status.lastPruneAt == Some(now) && status.lastPruneRemoved == Some(removed)
      ensures removed == 0 ==> events == old(events) && index == old(index) && latest == old(latest)
      ensures removed == 0 ==> byId == old(byId) && byAddress == old(byAddress)
      ensures removed > 0 ==> DeletesApplied() && LatestNewest(Stored(), latest)
    {
      var kept, totals, dropped := PruneRecords(records);
      removed := dropped;
      PruneEnds(config, records, old(events), events, kept, totals, removed);
      CutInNumbers(config.caps, config.size, config.Protection(), records, removed);
      hide PrunedBy, Pruning, IsCut, AfterRemoving, Sorted, KeyedById, SlotsHold, IndexExact, LatestNewest, LatestSound, TrueTotals,
           StatsExact;
      if removed > 0 {
        RebuildFromRecords(kept);
        NewestIsSound(Stored(), latest);
      } else {
        WriteStatsCache(totals.count, totals.bytes);
      }
      WriteStatus(totals.count, totals.bytes, Some(now), Some(removed));
      CacheMakesExact(config, events, totals, status);
    }

    static lemma CacheMakesExact(config: Config, events: map<string, Event>, totals: Totals, status: Status)
      requires totals == TrueTotals(config, events) && StatusOf(config.caps, status, totals.count, totals.bytes)
      ensures StatsExact(config, events, Some(totals), status)
    {
    }

    /** Where the loop stands: the files left are those of the records kept or not yet walked. */
    static ghost predicate Pruning(config: Config, records: seq<Event>, events: map<string, Event>,
        kept: seq<Event>, rest: seq<Event>, totals: Totals, removed: nat)
    {
      && Walked(config.caps, config.size, config.Protection(), records, kept, rest, removed)
      && totals == Totals(|kept + rest|, SeqSum(config.size, kept + rest))
      && KeyedById(events)
      && Sorted(false, kept + rest)
      && events.Values == Elems(kept + rest)
    }

    static lemma PruneBegins(config: Config, records: seq<Event>, events: map<string, Event>)
      requires KeyedById(events) && Sorted(false, records) && Elems(records) == events.Values
      ensures Pruning(config, records, events, [], records, Totals(|records|, SeqSum(config.size, records)), 0)
    {
      RemovingNone(config.Protection(), records);
      assert [] + records == records;
    }

    static lemma PruneStep(config: Config, records: seq<Event>, events: map<string, Event>,
        kept: seq<Event>, record: Event, rest: seq<Event>, totals: Totals, removed: nat)
      requires Pruning(config, records, events, kept, [record] + rest, totals, removed)
      ensures config.caps.Exceeded(totals.count, totals.bytes) && !config.Protected(record) ==>
        Pruning(config, records, events - {record.id}, kept, rest, WithoutOne(totals, config.size(record)), removed + 1)
      ensures !(config.caps.Exceeded(totals.count, totals.bytes) && !config.Protected(record)) ==>
        Pruning(config, records, events, kept + [record], rest, totals, removed)
    {
      if config.caps.Exceeded(totals.count, totals.bytes) && !config.Protected(record) {
        WalkRemoves(config.caps, config.size, config.Protection(), records, kept, record, rest, removed);
        DropStep(events, kept, record, rest);
      } else {
        WalkKeeps(config.caps, config.size, config.Protection(), records, kept, record, rest, removed);
      }
    }

    static lemma PruneEnds(config: Config, records: seq<Event>, before: map<string, Event>, events: map<string, Event>,
        kept: seq<Event>, totals: Totals, removed: nat)
      requires KeyedById(before) && before.Values == Elems(records)
      requires Pruning(config, records, events, kept, [], totals, removed)
      ensures KeyedById(events)
      ensures removed == 0 ==> events == before
      ensures kept == AfterRemoving(config.Protection(), records, removed)
      ensures IsCut(config.caps, config.size, config.Protection(), records, removed)
      ensures totals == Totals(|kept|, SeqSum(config.size, kept)) == TrueTotals(config, events)
      ensures config.caps.Exceeded(totals.count, totals.bytes) ==> forall e :: e in kept ==> config.Protected(e)
      ensures events.Values == Elems(kept) && Sorted(false, kept)
    {
      assert kept + [] == kept;
      WalkEnds(config.caps, config.size, config.Protection(), records, kept, removed);
      StoredFacts(events);
      SortedFacts(false, kept);
      SeqSumIsSetSum(config.size, kept);
      if removed == 0 {
        RemovingNone(config.Protection(), records);
        SameValues(before, events);
      }
    }

    static lemma SameValues(a: map<string, Event>, b: map<string, Event>)
      requires KeyedById(a) && KeyedById(b) && a.Values == b.Values
      ensures a == b
    {
      StoredFacts(a);
      StoredFacts(b);
      forall id | id in a ensures id in b && b[id] == a[id] {
        assert a[id] in b.Values;
      }
      forall id | id in b ensures id in a {
        assert b[id] in a.Values;
      }
    }

    /** The retention loop: walk the records oldest first and delete the file of each unprotected
        one for as long as a cap is exceeded. */
    method PruneRecords(records: seq<Event>) returns (kept: seq<Event>, totals: Totals, removed: nat)
      requires KeyedById(events)
      requires Sorted(false, records) && Elems(records) == events.Values
      modifies this`events
      ensures Pruning(config, records, events, kept, [], totals, removed)
    {
      totals := Totals(|records|, SeqSum(config.size, records));
      kept, removed := [], 0;
      var rest := records;
      PruneBegins(config, records, events);
      hide *;
      while rest != []
        invariant Pruning(config, records, events, kept, rest, totals, removed)
        decreases |rest|
      {
        var record := rest[0];
        assert rest == [record] + rest[1..];
        rest := rest[1..];
        PruneStep(config, records, events, kept, record, rest, totals, removed);
        if config.caps.Exceeded(totals.count, totals.bytes) && !config.Protected(record) {
          events := events - {record.id};
          totals := WithoutOne(totals, config.size(record));
          removed := removed + 1;
        } else {
          kept := kept + [record];
        }
      }
    }

    static lemma DropStep(events: map<string, Event>, kept: seq<Event>, record: Event, rest: seq<Event>)
      requires KeyedById(events)
      requires Sorted(false, kept + ([record] + rest))
      requires events.Values == Elems(kept + ([record] + rest))
      ensures KeyedById(events - {record.id})
      ensures Sorted(false, kept + rest)
      ensures (events - {record.id}).Values == Elems(kept + rest)
    {
      SortedWithout(kept, record, rest);
      assert record in events.Values by {
        assert (kept + ([record] + rest))[|kept|] == record;
      }
      RecordStored(events, record);
      RemoveOne(events, record);
    }

    static lemma RecordStored(events: map<string, Event>, record: Event)
      requires KeyedById(events) && record in events.Values
      ensures record.id in events && events[record.id] == record
    {
    }

    static lemma SortedWithout(kept: seq<Event>, record: Event, rest: seq<Event>)
      requires Sorted(false, kept + ([record] + rest))
      ensures Sorted(false, kept + rest)
      ensures Elems(kept + rest) == Elems(kept + ([record] + rest)) - {record}
    {
      var all, left := kept + ([record] + rest), kept + rest;
      forall i, j | 0 <= i < j < |left| ensures Before(false, left[i], left[j]) {
        assert left[i] == all[if i < |kept| then i else i + 1];
        assert left[j] == all[if j < |kept| then j else j + 1];
      }
      SortedFacts(false, all);
      assert all[|kept|] == record;
      forall k | 0 <= k < |left| ensures left[k] != record {
        assert left[k] == all[if k < |kept| then k else k + 1];
      }
      assert Elems(all) == Elems(left) + {record};
    }

    // ---------------------------------------------------- backup, restore

    /** A snapshot holds the events, the blobs with their metadata, and the files that are carried along;
        everything derived from the events is left out. */
    method BackupTo(destinationEmpty: bool) returns (r: Result<Snapshot, string>)
      ensures r.Ok? <==> destinationEmpty
      ensures r.Ok? ==> r.value == Snapshot(SNAPSHOT_FORMAT, events, files.metas, carried)
    {
      if !destinationEmpty {
        return Err("backup destination must be empty");
      }
      r := Ok(Snapshot(SNAPSHOT_FORMAT, events, files.metas, carried));
    }

    /** The blobs are the snapshot's, with owners and expiry, and with the references that the stored events make. */
    static ghost predicate BlobsRestored(files: BlobStore.FileStore, blobs: BlobStore.Metas, events: map<string, Event>)
      reads files
    {
      && files.Valid() && files.metas.Keys == blobs.Keys
      && forall h :: h in files.metas ==> files.metas[h] == blobs[h].(refs := BlobStore.ReferrersIn(events.Values, h))
    }

    method RestoreFrom(snapshot: Snapshot) returns (r: Result<(), string>)
      requires Valid() && KeyedById(snapshot.events) && BlobStore.MetasFiled(files.contentSize, snapshot.blobs)
      modifies this, files
      ensures Valid()
      ensures r.Ok? <==> snapshot.format == SNAPSHOT_FORMAT
      ensures r.Err? ==> unchanged(this) && unchanged(files)
      ensures r.Ok? ==> events == snapshot.events && carried == snapshot.carried && BlobsRestored(files, snapshot.blobs, events)
      ensures r.Ok? ==> DeletesApplied() && LatestNewest(Stored(), latest) && stats == Some(TrueTotals(config, events))
    {
      if snapshot.format != SNAPSHOT_FORMAT {
        return Err("unsupported backup format");
      }
      hide *;
      Replace(snapshot);
      r := Ok(());
    }

    /** Throw everything away, copy the snapshot's files, and rebuild what is derived from them. */
    method Replace(snapshot: Snapshot)
      requires KeyedById(snapshot.events) && BlobStore.MetasFiled(files.contentSize, snapshot.blobs)
      modifies this, files
      ensures Valid() && events == snapshot.events && carried == snapshot.carried && BlobsRestored(files, snapshot.blobs, events)
      ensures DeletesApplied() && LatestNewest(Stored(), latest)
      ensures stats == Some(TrueTotals(config, events))
    {
      index, latest, byId, byAddress := map[], map[], map[], map[];
      stats, status := None, BuildStatus(config.caps, 0, 0);
      events, carried := snapshot.events, snapshot.carried;
      hide *;
      RebuildMetadata();
      RestoreBlobs(snapshot.blobs);
      var _ := RefreshStatsCache();
    }

    method RestoreBlobs(blobs: BlobStore.Metas)
      requires KeyedById(events) && BlobStore.MetasFiled(files.contentSize, blobs)
      modifies files
      ensures BlobsRestored(files, blobs, events)
    {
      StoredFacts(events);
      var records := LoadFiles(events, events.Keys);
      assert Elems(records) == events.Values;
      files.RestoreBlobs(blobs, records);
      forall h {
        BlobStore.ReferrersOfSet(records, h);
      }
    }

    // ------------------------------------------------------------ queries

    /** The plain scan: every stored event that passes every clause and is visible. */
    ghost function Matching(q: Query, policy: Policy): set<Event>
      reads this
    {
      set e | e in Stored() && Matches(config.lower, q, e) && Visible(config, byId, byAddress, e, policy)
    }

    /** A query reads an event file at a path cut from the first four characters of its id, so a
        query that only lists ids must list ids that long; any other clause filters shorter ones out. */
    static predicate PathSafe(q: Query) {
      q.ids.Some? && q.OnlyIds() ==> forall id :: id in q.ids.value ==> |id| >= 4
    }

    /** The indexed query answers exactly as the plain scan does. */
    method QueryWithPolicy(q: Query, policy: Policy) returns (r: seq<Event>)
      requires Valid() && PathSafe(q)
      ensures IsAnswer(Matching(q, policy), q.limit, r)
    {
      var candidates := QueryCandidates(q);
      var ids, addresses := byId, byAddress;
      var visible := e => Visible(config, ids, addresses, e, policy);
      r := FilterSortAndLimit(config.lower, candidates, q, visible);
      assert Matching(q, policy) == Passing(config.lower, candidates, q, visible);
    }

    /** A query without delete or expiration policy. */
    method Query(q: Query) returns (r: seq<Event>)
      requires Valid() && PathSafe(q)
      ensures IsAnswer((set e | e in Stored() && Matches(config.lower, q, e)), q.limit, r)
    {
      r := QueryWithPolicy(q, Policy(false, false, 0));
      assert Matching(q, Policy(false, false, 0)) == (set e | e in Stored() && Matches(config.lower, q, e));
    }

    /** Index lookup and intersection find exactly the stored events that pass every index clause. */
    method QueryCandidates(q: Query) returns (r: seq<Event>)
      requires Valid() && PathSafe(q)
      ensures DistinctIds(r)
      ensures forall e :: e in r <==> e in Stored() && PassesIndexClauses(q, e)
    {
      var files := index;
      var read := key => ReadIds(files, key);
      StoredFacts(events);
      r := FindCandidates(q, read, events);
      forall e | e in Stored() ensures FoundUnder(q, read, e.id) <==> PassesIndexClauses(q, e) {
        LookupBetween(q, Stored(), Stored(), read, e);
      }
    }

    /** A whole query that holds no lock: the index files read as `read` says, each whenever its turn
        comes, `files` are the event files found, and `visible` is what each look at the tombstones says. */
    static method UnlockedQuery(lower: string -> string, q: Query, read: IndexKey -> set<string>, files: map<string, Event>,
        visible: Event -> bool)
      returns (r: seq<Event>)
      requires KeyedById(files) && PathSafe(q)
      requires forall key, id :: id in read(key) ==> |id| >= 4
      ensures IsAnswer(Found(lower, q, read, files.Values, visible), q.limit, r)
    {
      var candidates := FindCandidates(q, read, files);
      r := FilterSortAndLimit(lower, candidates, q, visible);
      assert Found(lower, q, read, files.Values, visible) == Passing(lower, candidates, q, visible);
    }

    static method AuthorSet(read: IndexKey -> set<string>, authors: seq<string>) returns (ids: set<string>)
      ensures forall id :: id in ids <==> exists a :: a in authors && id in read(ByAuthor(a))
    {
      ids := {};
      for i := 0 to |authors|
        invariant forall id :: id in ids <==> exists a :: a in authors[..i] && id in read(ByAuthor(a))
      {
        ids := ids + read(ByAuthor(authors[i]));
        assert authors[..i + 1] == authors[..i] + [authors[i]];
      }
      assert authors[..|authors|] == authors;
    }

    static method KindSet(read: IndexKey -> set<string>, kinds: seq<nat>) returns (ids: set<string>)
      ensures forall id :: id in ids <==> exists k :: k in kinds && id in read(ByKind(k))
    {
      ids := {};
      for i := 0 to |kinds|
        invariant forall id :: id in ids <==> exists k :: k in kinds[..i] && id in read(ByKind(k))
      {
        ids := ids + read(ByKind(kinds[i]));
        assert kinds[..i + 1] == kinds[..i] + [kinds[i]];
      }
      assert kinds[..|kinds|] == kinds;
    }

    static method TagSet(read: IndexKey -> set<string>, key: string, values: seq<string>) returns (ids: set<string>)
      ensures forall id :: id in ids <==> ReadUnderOneOf(read, id, key, values)
    {
      ids := {};
      for i := 0 to |values|
        invariant forall id :: id in ids <==> ReadUnderOneOf(read, id, key, values[..i])
      {
        ids := ids + read(ByTag(key, values[i]));
        assert values[..i + 1] == values[..i] + [values[i]];
      }
      assert values[..|values|] == values;
    }

    static lemma InAllAppend(sets: seq<set<string>>, s: set<string>)
      ensures forall id :: InAll(sets + [s], id) <==> InAll(sets, id) && id in s
    {
      forall id ensures InAll(sets + [s], id) <==> InAll(sets, id) && id in s {
        if InAll(sets + [s], id) {
          assert forall i :: 0 <= i < |sets| ==> sets[i] == (sets + [s])[i];
          assert (sets + [s])[|sets|] == s;
        }
      }
    }

    /** One set per clause of `q`: their common ids are those found under every clause. */
    static ghost predicate SetsFor(read: IndexKey -> set<string>, q: Query, sets: seq<set<string>>) {
      && (forall id :: InAll(sets, id) <==> FoundUnder(q, read, id))
      && (sets == [] <==> q.ids.None? && q.OnlyIds())
    }

    static lemma AddSet(read: IndexKey -> set<string>, small: Query, large: Query, sets: seq<set<string>>, s: set<string>)
      requires SetsFor(read, small, sets) && !large.OnlyIds()
      requires forall id :: FoundUnder(large, read, id) <==> FoundUnder(small, read, id) && id in s
      ensures SetsFor(read, large, sets + [s])
    {
      InAllAppend(sets, s);
    }

    /** One id set per clause, in clause order. */
    static method CollectSets(q: Query, read: IndexKey -> set<string>) returns (sets: seq<set<string>>)
      ensures SetsFor(read, q, sets)
    {
      sets := CollectFieldSets(q, read);
      assert q.tags[..0] == [];
      for i := 0 to |q.tags|
        invariant SetsFor(read, q.(tags := q.tags[..i]), sets)
      {
        var ids := TagSet(read, q.tags[i].0, q.tags[i].1);
        ClauseStep(q, read, i);
        AddSet(read, q.(tags := q.tags[..i]), q.(tags := q.tags[..i + 1]), sets, ids);
        sets := sets + [ids];
      }
      assert q.tags[..|q.tags|] == q.tags;
      assert q.(tags := q.tags[..|q.tags|]) == q;
    }

    /** The sets of the clauses other than the general tag clauses. */
    static method CollectFieldSets(q: Query, read: IndexKey -> set<string>) returns (sets: seq<set<string>>)
      ensures SetsFor(read, q.(tags := []), sets)
    {
      sets := [];
      ghost var with := q.(authors := None, kinds := None, d := None, t := None, tags := []);
      if q.ids.Some? {
        InAllAppend([], set id | id in q.ids.value);
        sets := [] + [set id | id in q.ids.value];
      }
      assert SetsFor(read, with, sets);
      hide SetsFor;
      if q.authors.Some? {
        var ids := AuthorSet(read, q.authors.value);
        AddSet(read, with, with.(authors := q.authors), sets, ids);
        sets := sets + [ids];
      }
      with := with.(authors := q.authors);
      if q.kinds.Some? {
        var ids := KindSet(read, q.kinds.value);
        AddSet(read, with, with.(kinds := q.kinds), sets, ids);
        sets := sets + [ids];
      }
      with := with.(kinds := q.kinds);
      if q.d.Some? {
        AddSet(read, with, with.(d := q.d), sets, read(ByTag("d", q.d.value)));
        sets := sets + [read(ByTag("d", q.d.value))];
      }
      with := with.(d := q.d);
      if q.t.Some? {
        AddSet(read, with, with.(t := q.t), sets, read(ByTag("t", q.t.value)));
        sets := sets + [read(ByTag("t", q.t.value))];
      }
      assert with.(t := q.t) == q.(tags := []);
    }

    static lemma ClauseStep(q: Query, read: IndexKey -> set<string>, i: nat)
      requires i < |q.tags|
      ensures forall id :: FoundUnder(q.(tags := q.tags[..i + 1]), read, id) <==>
        FoundUnder(q.(tags := q.tags[..i]), read, id) && ReadUnderOneOf(read, id, q.tags[i].0, q.tags[i].1)
    {
      var small, large := q.tags[..i], q.tags[..i + 1];
      assert large == small + [q.tags[i]];
      forall id
        ensures (forall j :: 0 <= j < |large| ==> ReadUnderOneOf(read, id, large[j].0, large[j].1)) <==>
          (forall j :: 0 <= j < |small| ==> ReadUnderOneOf(read, id, small[j].0, small[j].1))
          && ReadUnderOneOf(read, id, q.tags[i].0, q.tags[i].1)
      {
        if forall j :: 0 <= j < |large| ==> ReadUnderOneOf(read, id, large[j].0, large[j].1) {
          assert forall j :: 0 <= j < |small| ==> small[j] == large[j];
          assert large[i] == q.tags[i];
        }
      }
    }

    /** Start with the first set and intersect each further one. */
    static method Intersect(sets: seq<set<string>>) returns (ids: set<string>)
      requires sets != []
      ensures forall id :: id in ids <==> InAll(sets, id)
    {
      ids := sets[0];
      for i := 1 to |sets|
        invariant forall id :: id in ids <==> InAll(sets[..i], id)
      {
        InAllAppend(sets[..i], sets[i]);
        assert sets[..i + 1] == sets[..i] + [sets[i]];
        ids := ids * sets[i];
      }
      assert sets[..|sets|] == sets;
    }

    /** Intersect the sets of all clauses and load the event files found; without a clause, load all. */
    static method FindCandidates(q: Query, read: IndexKey -> set<string>, files: map<string, Event>) returns (r: seq<Event>)
      requires KeyedById(files) && PathSafe(q)
      requires forall key, id :: id in read(key) ==> |id| >= 4
      ensures DistinctIds(r)
      ensures forall e :: e in r <==> e in files.Values && FoundUnder(q, read, e.id)
    {
      StoredFacts(files);
      var sets := CollectSets(q, read);
      if sets == [] {
        assert forall id :: InAll(sets, id);
        r := LoadFiles(files, files.Keys);
        return;
      }
      var ids := Intersect(sets);
      forall id | id in ids ensures |id| >= 4 {
        assert FoundUnder(q, read, id);
        LongEnough(q, read, id);
      }
      r := LoadFiles(files, ids);
    }

    static lemma LongEnough(q: Query, read: IndexKey -> set<string>, id: string)
      requires PathSafe(q) && FoundUnder(q, read, id) && !(q.ids.None? && q.OnlyIds())
      requires forall key, id :: id in read(key) ==> |id| >= 4
      ensures |id| >= 4
    {
      if q.tags != [] {
        assert ReadUnderOneOf(read, id, q.tags[0].0, q.tags[0].1);
      }
    }

    static ghost function Passing(lower: string -> string, candidates: seq<Event>, q: Query, visible: Event -> bool): set<Event> {
      set e | e in candidates && PassesFilters(lower, q, e) && visible(e)
    }

    /** Drop what the filters and the policy hide, sort newest first, keep the newest of each address, cut. */
    static method FilterSortAndLimit(lower: string -> string, candidates: seq<Event>, q: Query, visible: Event -> bool)
      returns (r: seq<Event>)
      requires DistinctIds(candidates)
      ensures IsAnswer(Passing(lower, candidates, q, visible), q.limit, r)
    {
      var filtered: seq<Event> := [];
      for i := 0 to |candidates|
        invariant forall e :: e in filtered <==> e in candidates[..i] && PassesFilters(lower, q, e) && visible(e)
        invariant DistinctIds(filtered)
      {
        var event := candidates[i];
        forall e | e in filtered ensures e.id != event.id {
          assert e in candidates[..i];
        }
        assert candidates[..i + 1] == candidates[..i] + [event];
        if q.since.Some? && event.createdAt < q.since.value { continue; }
        if q.until.Some? && event.createdAt > q.until.value { continue; }
        if q.search.Some? {
          ContainsMeans(lower(event.content), lower(q.search.value));
        }
        if q.search.Some? && !Contains(lower(event.content), lower(q.search.value)) { continue; }
        if !visible(event) { continue; }
        filtered := filtered + [event];
      }
      assert candidates[..|candidates|] == candidates;
      SortSorts(true, filtered);
      var sorted := SortEvents(true, filtered);
      ghost var matching := Passing(lower, candidates, q, visible);
      assert Elems(sorted) == matching by {
        assert Elems(sorted) == Elems(filtered);
      }
      var kept := RetainNewestPerAddress(sorted);
      assert ListsSurvivors(matching, kept);
      r := Truncate(kept, q.limit);
    }

    /** Keep the first, that is the newest, event of each address, and every event without one. */
    static method RetainNewestPerAddress(sorted: seq<Event>) returns (kept: seq<Event>)
      requires Sorted(true, sorted)
      ensures ListsSurvivors(Elems(sorted), kept)
    {
      kept := [];
      var seen: set<string> := {};
      for i := 0 to |sorted|
        invariant forall a :: a in seen <==> exists j :: 0 <= j < i && Address(sorted[j]) == Some(a)
        invariant KeptSoFar(sorted, i, kept)
      {
        var event := sorted[i];
        FirstSurvives(sorted, i);
        if Address(event).Some? && Address(event).value in seen {
          RetainStep(sorted, i, kept, kept);
          continue;
        }
        RetainStep(sorted, i, kept, kept + [event]);
        kept := kept + [event];
        if Address(event).Some? {
          seen := seen + {Address(event).value};
        }
      }
      assert sorted[..|sorted|] == sorted;
    }

    static ghost predicate KeptSoFar(sorted: seq<Event>, i: nat, kept: seq<Event>)
      requires i <= |sorted|
    {
      Sorted(true, kept) && forall e :: e in kept <==> e in sorted[..i] && Survives(Elems(sorted), e)
    }

    static lemma RetainStep(sorted: seq<Event>, i: nat, kept: seq<Event>, kept': seq<Event>)
      requires Sorted(true, sorted) && i < |sorted| && KeptSoFar(sorted, i, kept)
      requires kept' == if Survives(Elems(sorted), sorted[i]) then kept + [sorted[i]] else kept
      ensures KeptSoFar(sorted, i + 1, kept')
    {
      assert sorted[..i + 1] == sorted[..i] + [sorted[i]];
      forall e | e in kept ensures Before(true, e, sorted[i]) {
        assert e in sorted[..i];
      }
    }

    static lemma FirstSurvives(sorted: seq<Event>, i: nat)
      requires Sorted(true, sorted) && i < |sorted|
      ensures Survives(Elems(sorted), sorted[i]) <==>
        (Address(sorted[i]).Some? ==> forall j :: 0 <= j < i ==> Address(sorted[j]) != Address(sorted[i]))
    {
      var e := sorted[i];
      assert e in Elems(sorted);
      if j :| 0 <= j < i && Address(sorted[j]) == Address(e) {
        assert Before(true, sorted[j], e) && sorted[j] in Elems(sorted);
      }
      forall f | f in Elems(sorted) && Older(e, f) ensures exists j :: 0 <= j < i && sorted[j] == f {
        var j :| 0 <= j < |sorted| && sorted[j] == f;
        if j > i {
          BeforeLaws(true, e, f, f);
          OlderStrict(e, f);
        } else if j == i {
          OlderStrict(e, f);
        }
      }
    }
  }
}
