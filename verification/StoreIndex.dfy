/** The derived structures around the stored events, and what each ought to contain. */
module StoreIndex {
  import opened Outcomes
  import opened Events

  /** One index file: its directory and name. Tag values and addresses are hashed into
      file names; the hash is taken to be injective, so the value itself is the name. */
  datatype IndexKey = ByAuthor(pubkey: string) | ByKind(kind: nat) | ByTag(key: string, value: string)

  /** Index files hold one id per line, in the order the lines were appended. */
  type Index = map<IndexKey, seq<string>>

  datatype LatestKey = LatestKey(pubkey: string, kind: nat, d: string)

  type Latest = map<LatestKey, string>

  ghost predicate Carries(e: Event, key: IndexKey) {
    match key
    case ByAuthor(pubkey) => e.pubkey == pubkey
    case ByKind(kind) => e.kind == kind
    case ByTag(k, v) => HasTag(e, k, v)
  }

  ghost predicate CarriesLatest(e: Event, key: LatestKey) {
    e.pubkey == key.pubkey && e.kind == key.kind && HasTag(e, "d", key.d)
  }

  function ReadIds(index: Index, key: IndexKey): set<string> {
    if key in index then set id | id in index[key] else {}
  }

  function AppendIndex(index: Index, key: IndexKey, id: string): (r: Index)
    ensures forall k :: ReadIds(r, k) == ReadIds(index, k) + (if k == key then {id} else {})
  {
    index[key := (if key in index then index[key] else []) + [id]]
  }

  // ------------------------------------------------- what ought to be there

  ghost predicate KeyedById(events: map<string, Event>) {
    forall id :: id in events ==> events[id].id == id && |id| >= 4
  }

  ghost predicate IndexExact(stored: set<Event>, index: Index) {
    forall key, id :: id in ReadIds(index, key) <==> exists e :: e in stored && e.id == id && Carries(e, key)
  }

  function PointerAt(latest: Latest, key: LatestKey): Option<string> {
    if key in latest then Some(latest[key]) else None
  }

  ghost predicate IsCarrier(stored: set<Event>, key: LatestKey, e: Event) {
    e in stored && CarriesLatest(e, key)
  }

  ghost predicate IsNewestCarrier(stored: set<Event>, key: LatestKey, e: Event) {
    IsCarrier(stored, key, e) && forall f :: IsCarrier(stored, key, f) ==> !Older(e, f)
  }

  ghost predicate PointerSound(stored: set<Event>, key: LatestKey, pointer: Option<string>) {
    match pointer
    case None => forall e :: !IsCarrier(stored, key, e)
    case Some(id) => exists e :: IsCarrier(stored, key, e) && e.id == id
  }

  ghost predicate PointerNewest(stored: set<Event>, key: LatestKey, pointer: Option<string>) {
    match pointer
    case None => forall e :: !IsCarrier(stored, key, e)
    case Some(id) => exists e :: IsNewestCarrier(stored, key, e) && e.id == id
  }

  /** Each pointer names a stored event that carries its key, and every carried key has a pointer. */
  ghost predicate LatestSound(stored: set<Event>, latest: Latest) {
    forall key :: PointerSound(stored, key, PointerAt(latest, key))
  }

  /** Each pointer names the greatest (created_at, id) event that carries its key. */
  ghost predicate LatestNewest(stored: set<Event>, latest: Latest) {
    forall key :: PointerNewest(stored, key, PointerAt(latest, key))
  }

  // -------------------------------------------------------- one event more

  ghost predicate IndexedWith(before: Index, e: Event, after: Index) {
    forall key :: ReadIds(after, key) == ReadIds(before, key) + (if Carries(e, key) then {e.id} else {})
  }

  ghost predicate LatestWith(before: Latest, e: Event, after: Latest) {
    forall key :: PointerAt(after, key) == if CarriesLatest(e, key) then Some(e.id) else PointerAt(before, key)
  }

  lemma IndexGrows(stored: set<Event>, before: Index, e: Event, after: Index)
    requires IndexExact(stored, before) && IndexedWith(before, e, after)
    ensures IndexExact(stored + {e}, after)
  {
  }

  lemma LatestGrowsSound(stored: set<Event>, before: Latest, e: Event, after: Latest)
    requires LatestSound(stored, before) && LatestWith(before, e, after)
    ensures LatestSound(stored + {e}, after)
  {
    forall key ensures PointerSound(stored + {e}, key, PointerAt(after, key)) {
      assert PointerSound(stored, key, PointerAt(before, key));
      if CarriesLatest(e, key) {
        assert IsCarrier(stored + {e}, key, e);
      } else {
        assert forall f :: IsCarrier(stored + {e}, key, f) <==> IsCarrier(stored, key, f);
      }
    }
  }

  /** Events indexed oldest first leave each pointer at the newest carrier. */
  lemma LatestGrowsNewest(stored: set<Event>, before: Latest, e: Event, after: Latest)
    requires LatestNewest(stored, before) && LatestWith(before, e, after)
    requires forall f :: f in stored ==> Older(f, e)
    ensures LatestNewest(stored + {e}, after)
  {
    forall key ensures PointerNewest(stored + {e}, key, PointerAt(after, key)) {
      assert PointerNewest(stored, key, PointerAt(before, key));
      PointerGrowsNewest(stored, key, PointerAt(before, key), e);
    }
  }

  lemma PointerGrowsNewest(stored: set<Event>, key: LatestKey, pointer: Option<string>, e: Event)
    requires PointerNewest(stored, key, pointer)
    requires forall f :: f in stored ==> Older(f, e)
    ensures PointerNewest(stored + {e}, key, if CarriesLatest(e, key) then Some(e.id) else pointer)
  {
    if CarriesLatest(e, key) {
      forall f | IsCarrier(stored + {e}, key, f) ensures !Older(e, f) {
        if Older(e, f) {
          OlderStrict(e, f);
        }
      }
      assert IsNewestCarrier(stored + {e}, key, e);
    } else {
      assert forall f :: IsCarrier(stored + {e}, key, f) <==> IsCarrier(stored, key, f);
      if pointer.Some? {
        var f :| IsNewestCarrier(stored, key, f) && f.id == pointer.value;
        assert IsNewestCarrier(stored + {e}, key, f);
      }
    }
  }

  /** The stored events decide what every index file reads as. */
  lemma IndexUnique(stored: set<Event>, i: Index, j: Index)
    requires IndexExact(stored, i) && IndexExact(stored, j)
    ensures forall key :: ReadIds(i, key) == ReadIds(j, key)
  {
  }

  /** The stored events decide where the newest pointers point. */
  lemma LatestUnique(stored: set<Event>, l: Latest, m: Latest)
    requires LatestNewest(stored, l) && LatestNewest(stored, m)
    ensures l == m
  {
    forall key ensures PointerAt(l, key) == PointerAt(m, key) {
      assert PointerNewest(stored, key, PointerAt(l, key));
      assert PointerNewest(stored, key, PointerAt(m, key));
      if key in l && key in m {
        var e :| IsNewestCarrier(stored, key, e) && e.id == l[key];
        var f :| IsNewestCarrier(stored, key, f) && f.id == m[key];
        OlderTotal(e, f);
      }
    }
    SamePointers(l, m);
  }

  lemma SamePointers(l: Latest, m: Latest)
    requires forall key :: PointerAt(l, key) == PointerAt(m, key)
    ensures l == m
  {
    forall key ensures key in l <==> key in m {
      assert PointerAt(l, key) == PointerAt(m, key);
    }
    forall key | key in l ensures l[key] == m[key] {
      assert PointerAt(l, key) == PointerAt(m, key);
    }
  }

  lemma NewestIsSound(stored: set<Event>, latest: Latest)
    requires LatestNewest(stored, latest)
    ensures LatestSound(stored, latest)
  {
  }

  // ---------------------------------------------------------------- lookups

  ghost predicate ReadUnderOneOf(read: IndexKey -> set<string>, id: string, key: string, values: seq<string>) {
    exists v :: v in values && id in read(ByTag(key, v))
  }

  /** The id is listed for every clause of the query, in index files that read as `read` says. */
  ghost predicate FoundUnder(q: Query, read: IndexKey -> set<string>, id: string) {
    && (q.ids.Some? ==> id in q.ids.value)
    && (q.authors.Some? ==> exists a :: a in q.authors.value && id in read(ByAuthor(a)))
    && (q.kinds.Some? ==> exists k :: k in q.kinds.value && id in read(ByKind(k)))
    && (q.d.Some? ==> id in read(ByTag("d", q.d.value)))
    && (q.t.Some? ==> id in read(ByTag("t", q.t.value)))
    && (forall i :: 0 <= i < |q.tags| ==> ReadUnderOneOf(read, id, q.tags[i].0, q.tags[i].1))
  }

  /** What a query finds that works with such reads, finds the files `files` on disk, and sees `visible`. */
  ghost function Found(lower: string -> string, q: Query, read: IndexKey -> set<string>, files: set<Event>,
      visible: Event -> bool): set<Event>
  {
    set e | e in files && FoundUnder(q, read, e.id) && PassesFilters(lower, q, e) && visible(e)
  }

  /** What a reader without the lock may see of the index files: each file is read at some moment
      between a state `before` and a state `after`. */
  ghost predicate ReadBetween(before: set<Event>, after: set<Event>, read: IndexKey -> set<string>) {
    && (forall key, e :: e in before && Carries(e, key) ==> e.id in read(key))
    && (forall key, id :: id in read(key) ==> exists e :: e in after && e.id == id && Carries(e, key))
  }

  /** A lookup that overlaps ingests misses nothing that was stored before it began and finds nothing
      that fails a clause. */
  lemma LookupBetween(q: Query, before: set<Event>, after: set<Event>, read: IndexKey -> set<string>, e: Event)
    requires before <= after && IdsDiffer(after) && ReadBetween(before, after, read)
    ensures e in before && PassesIndexClauses(q, e) ==> FoundUnder(q, read, e.id)
    ensures e in after && FoundUnder(q, read, e.id) ==> PassesIndexClauses(q, e)
  {
  }

  // ------------------------------------------------------- maps keyed by id

  lemma StoredFacts(events: map<string, Event>)
    requires KeyedById(events)
    ensures IdsDiffer(events.Values)
    ensures forall e :: e in events.Values <==> e.id in events && events[e.id] == e
    ensures |events.Values| == |events|
  {
    CountValues(events);
  }

  lemma {:induction false} CountValues(events: map<string, Event>)
    requires KeyedById(events)
    ensures |events.Values| == |events|
    decreases |events|
  {
    if events != map[] {
      var id :| id in events;
      var rest := events - {id};
      CountValues(rest);
      assert events.Values == rest.Values + {events[id]} by {
        forall e | e in events.Values ensures e in rest.Values + {events[id]} {
          assert e.id in events && events[e.id] == e;
          if e.id != id { assert e.id in rest && rest[e.id] == e; }
        }
      }
      assert events[id] !in rest.Values;
    } else {
      assert events.Values == {};
    }
  }

  lemma StoreOne(events: map<string, Event>, e: Event)
    requires KeyedById(events) && |e.id| >= 4 && e.id !in events
    ensures KeyedById(events[e.id := e])
    ensures events[e.id := e].Values == events.Values + {e}
    ensures e !in events.Values
  {
  }

  lemma RemoveOne(events: map<string, Event>, e: Event)
    requires KeyedById(events) && e.id in events && events[e.id] == e
    ensures KeyedById(events - {e.id})
    ensures (events - {e.id}).Values == events.Values - {e}
  {
  }
}
