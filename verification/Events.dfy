/** Nostr events, their tags and addresses, and the filters that select them. */
module Events {
  import opened Outcomes
  import opened Text

  const U64_MAX: nat := 0xFFFF_FFFF_FFFF_FFFF

  const DELETE_KIND: nat := 5

  datatype Event = Event(
    id: string,
    pubkey: string,
    kind: nat,
    createdAt: nat,
    tags: seq<seq<string>>,
    content: string,
    sig: string)

  /** A tag counts only when it has a key and a value; further fields are ignored. */
  ghost predicate TagIs(tag: seq<string>, key: string, value: string) {
    |tag| >= 2 && tag[0] == key && tag[1] == value
  }

  ghost predicate SomeTagIs(tags: seq<seq<string>>, key: string, value: string) {
    exists i :: 0 <= i < |tags| && TagIs(tags[i], key, value)
  }

  ghost predicate HasTag(e: Event, key: string, value: string) {
    SomeTagIs(e.tags, key, value)
  }

  lemma SomeTagUnfolds(tags: seq<seq<string>>, key: string)
    requires tags != []
    ensures forall v :: SomeTagIs(tags, key, v) <==> TagIs(tags[0], key, v) || SomeTagIs(tags[1..], key, v)
  {
  }

  /** The value of the first tag with this key. */
  function FirstTag(tags: seq<seq<string>>, key: string): (r: Option<string>)
    ensures r.Some? ==> SomeTagIs(tags, key, r.value)
    ensures r.None? ==> forall v :: !SomeTagIs(tags, key, v)
  {
    if tags == [] then None
    else if |tags[0]| >= 2 && tags[0][0] == key then
      assert TagIs(tags[0], key, tags[0][1]);
      Some(tags[0][1])
    else
      SomeTagUnfolds(tags, key);
      FirstTag(tags[1..], key)
  }

  /** Tag `i` has this key and a value, and no tag before it has. */
  ghost predicate IsFirstTag(tags: seq<seq<string>>, key: string, i: nat) {
    && i < |tags| && |tags[i]| >= 2 && tags[i][0] == key
    && forall j :: 0 <= j < i ==> !(|tags[j]| >= 2 && tags[j][0] == key)
  }

  /** The first tag with a key and a value decides; a bare key before it does not count. */
  lemma {:induction false} FirstTagIsFirst(tags: seq<seq<string>>, key: string, i: nat)
    requires IsFirstTag(tags, key, i)
    ensures FirstTag(tags, key) == Some(tags[i][1])
  {
    if i > 0 {
      FirstTagIsFirst(tags[1..], key, i - 1);
    }
  }

  lemma {:induction false} FirstTagFound(tags: seq<seq<string>>, key: string) returns (i: nat)
    requires FirstTag(tags, key).Some?
    ensures IsFirstTag(tags, key, i) && FirstTag(tags, key) == Some(tags[i][1])
  {
    if |tags[0]| >= 2 && tags[0][0] == key {
      i := 0;
    } else {
      i := FirstTagFound(tags[1..], key);
      i := i + 1;
    }
  }

  /** What is found is the value of the first such tag; without one nothing is. */
  lemma FirstTagMeans(tags: seq<seq<string>>, key: string)
    ensures forall i: nat :: IsFirstTag(tags, key, i) ==> FirstTag(tags, key) == Some(tags[i][1])
    ensures FirstTag(tags, key).Some? ==> exists i: nat :: IsFirstTag(tags, key, i)
  {
    forall i: nat | IsFirstTag(tags, key, i) {
      FirstTagIsFirst(tags, key, i);
    }
    if FirstTag(tags, key).Some? {
      var i := FirstTagFound(tags, key);
    }
  }

  /** The address of a replaceable event: kind, author and first `d` tag. */
  function Address(e: Event): Option<string> {
    match FirstTag(e.tags, "d")
    case Some(d) => Some(Decimal(e.kind) + [':'] + (e.pubkey + [':'] + d))
    case None => None
  }

  /** The numeral of the kind, the author, and the value of the first `d` tag, which is tag `i`. */
  ghost predicate AddressParts(e: Event, text: string, numeral: string, i: nat) {
    IsFirstTag(e.tags, "d", i) && IsNumeral(numeral, e.kind) && text == numeral + ":" + e.pubkey + ":" + e.tags[i][1]
  }

  /** An address, spelled out: the three parts separated by colons. */
  ghost predicate IsAddress(e: Event, text: string) {
    exists numeral: string, i: nat :: AddressParts(e, text, numeral, i)
  }

  lemma AddressMeans(e: Event, text: string)
    ensures Address(e) == Some(text) <==> IsAddress(e, text)
  {
    DecimalIsNumeral(e.kind);
    if FirstTag(e.tags, "d").Some? {
      var i := FirstTagFound(e.tags, "d");
      var whole := Decimal(e.kind) + ":" + e.pubkey + ":" + e.tags[i][1];
      assert Address(e).value == whole;
      assert AddressParts(e, whole, Decimal(e.kind), i);
    }
    if IsAddress(e, text) {
      var numeral: string, i: nat :| AddressParts(e, text, numeral, i);
      FirstTagIsFirst(e.tags, "d", i);
      NumeralUnique(numeral, e.kind);
      assert Address(e).value == text;
    }
  }

  /** The first expiration tag that is a number. */
  function Expiration(tags: seq<seq<string>>): Option<nat> {
    if tags == [] then None
    else if |tags[0]| >= 2 && tags[0][0] == "expiration" && ParseUnsigned(tags[0][1], U64_MAX).Some? then
      ParseUnsigned(tags[0][1], U64_MAX)
    else Expiration(tags[1..])
  }

  predicate IsExpiration(tag: seq<string>) {
    |tag| >= 2 && tag[0] == "expiration" && ParseUnsigned(tag[1], U64_MAX).Some?
  }

  /** Later expiration tags do not count, and neither do earlier ones that are not numbers. */
  lemma {:induction false} ExpirationIsFirstNumber(tags: seq<seq<string>>, i: nat)
    requires i < |tags| && IsExpiration(tags[i])
    requires forall j :: 0 <= j < i ==> !IsExpiration(tags[j])
    ensures Expiration(tags) == ParseUnsigned(tags[i][1], U64_MAX)
  {
    if i > 0 {
      assert !IsExpiration(tags[0]);
      ExpirationIsFirstNumber(tags[1..], i - 1);
    }
  }

  predicate Expired(e: Event, now: nat) {
    match Expiration(e.tags)
    case Some(at) => at <= now
    case None => false
  }

  /** The tag is an expiration that reads as the number `at`, of 64 bits. */
  ghost predicate ExpiresAt(tag: seq<string>, at: nat) {
    && |tag| >= 2 && tag[0] == "expiration" && at <= 0xFFFF_FFFF_FFFF_FFFF
    && exists digits: string :: ReadsAs(tag[1], digits, at)
  }

  /** Tag `i` is the first expiration that reads as a number, and the number is `at`. */
  ghost predicate ExpiresFirst(tags: seq<seq<string>>, i: nat, at: nat) {
    && i < |tags| && ExpiresAt(tags[i], at)
    && forall j: nat, other: nat :: j < i ==> !ExpiresAt(tags[j], other)
  }

  ghost predicate HasExpired(e: Event, now: nat) {
    exists i: nat, at: nat :: ExpiresFirst(e.tags, i, at) && at <= now
  }

  lemma ExpiresMeans(tag: seq<string>, at: nat)
    ensures ExpiresAt(tag, at) <==> IsExpiration(tag) && ParseUnsigned(tag[1], U64_MAX) == Some(at)
  {
    if |tag| >= 2 {
      ParseMeans(tag[1], U64_MAX, at);
    }
  }

  /** An event has expired when the first of its expirations that reads as a number has been reached. */
  lemma ExpiredMeans(e: Event, now: nat)
    ensures Expired(e, now) <==> HasExpired(e, now)
  {
    if i: nat, at: nat :| ExpiresFirst(e.tags, i, at) && at <= now {
      FirstExpirationDecides(e.tags, i, at);
    }
    if Expiration(e.tags).Some? {
      var i := FirstExpiration(e.tags);
      assert ExpiresFirst(e.tags, i, Expiration(e.tags).value);
    }
  }

  lemma FirstExpirationDecides(tags: seq<seq<string>>, i: nat, at: nat)
    requires ExpiresFirst(tags, i, at)
    ensures Expiration(tags) == Some(at)
  {
    hide ParseUnsigned, ExpiresAt;
    ExpiresMeans(tags[i], at);
    forall j: nat | j < i ensures !IsExpiration(tags[j]) {
      if IsExpiration(tags[j]) {
        ExpiresMeans(tags[j], ParseUnsigned(tags[j][1], U64_MAX).value);
        assert false;
      }
    }
    ExpirationIsFirstNumber(tags, i);
  }

  lemma {:induction false} FirstExpiration(tags: seq<seq<string>>) returns (i: nat)
    requires Expiration(tags).Some?
    ensures ExpiresFirst(tags, i, Expiration(tags).value)
  {
    hide ParseUnsigned, ExpiresAt;
    ExpiresMeans(tags[0], Expiration(tags).value);
    if IsExpiration(tags[0]) {
      i := 0;
    } else {
      i := FirstExpiration(tags[1..]);
      forall other: nat ensures !ExpiresAt(tags[0], other) {
        ExpiresMeans(tags[0], other);
      }
      i := i + 1;
    }
  }

  /** Equal addresses mean equal kind, author and `d` value, for authors written without a colon. */
  lemma AddressNamesItsParts(e: Event, f: Event)
    requires Address(e).Some? && Address(f).Some?
    requires ':' !in e.pubkey && ':' !in f.pubkey
    ensures Address(e) == Address(f) <==>
      e.kind == f.kind && e.pubkey == f.pubkey && FirstTag(e.tags, "d") == FirstTag(f.tags, "d")
  {
    if Address(e) == Address(f) {
      var de, df := FirstTag(e.tags, "d").value, FirstTag(f.tags, "d").value;
      assert Decimal(e.kind) + [':'] + (e.pubkey + [':'] + de) == Decimal(f.kind) + [':'] + (f.pubkey + [':'] + df);
      assert ':' !in Decimal(e.kind) && ':' !in Decimal(f.kind);
      SeparatedInjective(Decimal(e.kind), e.pubkey + [':'] + de, Decimal(f.kind), f.pubkey + [':'] + df, ':');
      SeparatedInjective(e.pubkey, de, f.pubkey, df, ':');
      DecimalInjective(e.kind, f.kind);
    }
  }

  // ------------------------------------------------------------------ age

  predicate Older(a: Event, b: Event) {
    a.createdAt < b.createdAt || (a.createdAt == b.createdAt && StrLess(a.id, b.id))
  }

  /** The time decides, and in the same second the first difference of the ids. */
  lemma OlderMeans(a: Event, b: Event)
    ensures Older(a, b) <==>
      a.createdAt < b.createdAt || (a.createdAt == b.createdAt && exists k: nat :: DiffersFirstAt(a.id, b.id, k))
  {
    StrLessMeans(a.id, b.id);
  }

  lemma OlderTotal(a: Event, b: Event)
    ensures a.id == b.id || Older(a, b) || Older(b, a)
  {
    StrLessTotal(a.id, b.id);
  }

  lemma OlderTransitive(a: Event, b: Event, c: Event)
    requires Older(a, b) && Older(b, c)
    ensures Older(a, c)
  {
    if a.createdAt == b.createdAt == c.createdAt {
      StrLessTransitive(a.id, b.id, c.id);
    }
  }

  lemma OlderStrict(a: Event, b: Event)
    requires Older(a, b)
    ensures !Older(b, a) && a != b
  {
    if a.createdAt == b.createdAt {
      StrLessStrict(a.id, b.id);
    }
  }

  /** Distinct events of this set have distinct ids. */
  ghost predicate IdsDiffer(s: set<Event>) {
    forall a, b :: a in s && b in s && a.id == b.id ==> a == b
  }

  // -------------------------------------------------------------- filters

  datatype Query = Query(
    ids: Option<seq<string>>,
    authors: Option<seq<string>>,
    kinds: Option<seq<nat>>,
    d: Option<string>,
    t: Option<string>,
    tags: seq<(string, seq<string>)>,
    search: Option<string>,
    since: Option<nat>,
    until: Option<nat>,
    limit: Option<nat>)
  {
    predicate HasTagFilters() {
      d.Some? || t.Some? || tags != []
    }

    /** Only the `ids` clause can be present. */
    predicate OnlyIds() {
      authors.None? && kinds.None? && !HasTagFilters()
    }
  }

  /** The event carries one of the listed values under this tag key. */
  ghost predicate CarriesOneOf(e: Event, key: string, values: seq<string>) {
    exists v :: v in values && HasTag(e, key, v)
  }

  /** The clauses a stored query answers from its indexes. */
  ghost predicate PassesIndexClauses(q: Query, e: Event) {
    && (q.ids.Some? ==> e.id in q.ids.value)
    && (q.authors.Some? ==> e.pubkey in q.authors.value)
    && (q.kinds.Some? ==> e.kind in q.kinds.value)
    && (q.d.Some? ==> HasTag(e, "d", q.d.value))
    && (q.t.Some? ==> HasTag(e, "t", q.t.value))
    && (forall i :: 0 <= i < |q.tags| ==> CarriesOneOf(e, q.tags[i].0, q.tags[i].1))
  }

  /** The clauses a stored query checks on each event it has loaded. */
  ghost predicate PassesFilters(lower: string -> string, q: Query, e: Event) {
    && (q.since.Some? ==> e.createdAt >= q.since.value)
    && (q.until.Some? ==> e.createdAt <= q.until.value)
    && (q.search.Some? ==> exists i :: OccursAt(lower(e.content), lower(q.search.value), i))
  }

  ghost predicate Matches(lower: string -> string, q: Query, e: Event) {
    PassesIndexClauses(q, e) && PassesFilters(lower, q, e)
  }

  /** The matcher for live events: one pass over the event, clause by clause, with no `ids` clause. */
  predicate LiveMatches(lower: string -> string, e: Event, q: Query) {
    if q.authors.Some? && e.pubkey !in q.authors.value then false
    else if q.kinds.Some? && e.kind !in q.kinds.value then false
    else if q.since.Some? && e.createdAt < q.since.value then false
    else if q.until.Some? && e.createdAt > q.until.value then false
    else if q.search.Some? && !Contains(lower(e.content), lower(q.search.value)) then false
    else if q.d.Some? && !(exists i :: 0 <= i < |e.tags| && |e.tags[i]| >= 2 && e.tags[i][0] == "d" && e.tags[i][1] == q.d.value) then false
    else if q.t.Some? && !(exists i :: 0 <= i < |e.tags| && |e.tags[i]| >= 2 && e.tags[i][0] == "t" && e.tags[i][1] == q.t.value) then false
    else LiveTagClauses(e, q.tags)
  }

  predicate LiveTagClauses(e: Event, clauses: seq<(string, seq<string>)>) {
    clauses == []
    || ((exists i :: 0 <= i < |e.tags| && |e.tags[i]| >= 2 && e.tags[i][0] == clauses[0].0 && e.tags[i][1] in clauses[0].1)
        && LiveTagClauses(e, clauses[1..]))
  }

  lemma {:induction false} LiveTagClausesMeaning(e: Event, clauses: seq<(string, seq<string>)>)
    ensures LiveTagClauses(e, clauses) <==>
      forall i :: 0 <= i < |clauses| ==> CarriesOneOf(e, clauses[i].0, clauses[i].1)
  {
    if clauses != [] {
      var key, values := clauses[0].0, clauses[0].1;
      LiveTagClausesMeaning(e, clauses[1..]);
      if CarriesOneOf(e, key, values) {
        var v :| v in values && HasTag(e, key, v);
        var i :| 0 <= i < |e.tags| && TagIs(e.tags[i], key, v);
        assert e.tags[i][0] == key && e.tags[i][1] in values;
      }
      if i :| 0 <= i < |e.tags| && |e.tags[i]| >= 2 && e.tags[i][0] == key && e.tags[i][1] in values {
        assert TagIs(e.tags[i], key, e.tags[i][1]);
        assert HasTag(e, key, e.tags[i][1]);
      }
      assert forall i :: 1 <= i < |clauses| ==> clauses[i] == clauses[1..][i - 1];
    }
  }

  /** Live matching is stored matching without the `ids` clause. */
  lemma LiveAgreesWithStored(lower: string -> string, e: Event, q: Query)
    ensures LiveMatches(lower, e, q) <==> Matches(lower, q.(ids := None), e)
    ensures q.ids.None? ==> (LiveMatches(lower, e, q) <==> Matches(lower, q, e))
    ensures Matches(lower, q, e) ==> LiveMatches(lower, e, q)
    ensures LiveMatches(lower, e, q) ==> (Matches(lower, q, e) <==> q.ids.None? || e.id in q.ids.value)
  {
    LiveTagClausesMeaning(e, q.tags);
    if q.search.Some? {
      ContainsMeans(lower(e.content), lower(q.search.value));
    }
    LiveTagMeans(e, "d", if q.d.Some? then q.d.value else "");
    LiveTagMeans(e, "t", if q.t.Some? then q.t.value else "");
    hide Contains, OccursAt, LiveTagClauses, CarriesOneOf, HasTag;
  }

  lemma LiveTagMeans(e: Event, key: string, value: string)
    ensures HasTag(e, key, value) <==>
      exists i :: 0 <= i < |e.tags| && |e.tags[i]| >= 2 && e.tags[i][0] == key && e.tags[i][1] == value
  {
    if i :| 0 <= i < |e.tags| && |e.tags[i]| >= 2 && e.tags[i][0] == key && e.tags[i][1] == value {
      assert TagIs(e.tags[i], key, value);
    }
  }
}
