/** The blob store: metadata, blob files and reference files, with per-owner quotas and pruning. */
module BlobStore {
  import opened Outcomes
  import opened Sums
  import opened Text
  import opened Events

  const FILE_METADATA_KIND: nat := 1063

  datatype BlobMeta = BlobMeta(
    sha256: string,
    size: nat,
    mime: string,
    uploadedAt: nat,
    originalName: Option<string>,
    owners: set<string>,
    refs: set<string>,
    expiresAt: Option<nat>)

  /** An upload after its temporary file has been hashed and measured. */
  datatype Upload = Upload(
    hash: string,
    size: nat,
    filename: Option<string>,
    mime: string,
    owner: Option<string>,
    expiresAt: Option<nat>)

  datatype FileSettings = FileSettings(
    mimeAllowed: string -> bool,
    hashAllowed: string -> bool,
    maxBytes: nat,
    quota: Option<nat>,
    keepReferencedOnly: bool)

  datatype Summary = Summary(removed: nat, kept: nat)

  datatype RefFile = RefFile(hash: string, eventId: string)

  type Metas = map<string, BlobMeta>

  // ------------------------------------------------------------ saturating sums

  function SatAdd(a: nat, b: nat): nat {
    if a + b > U64_MAX then U64_MAX else a + b
  }

  function Sat(a: nat): nat {
    if a > U64_MAX then U64_MAX else a
  }

  /** Comparing saturated sums with a limit decides as the true sums do, for every sum,
      exactly when the limit is below the largest 64-bit number. */
  lemma SaturationHarmlessIff(limit: nat)
    requires limit <= U64_MAX
    ensures (forall used: nat, extra: nat :: (SatAdd(Sat(used), extra) > limit) == (used + extra > limit)) <==> limit < U64_MAX
  {
    if limit == U64_MAX {
      var used: nat, extra: nat := U64_MAX, 1;
      assert (SatAdd(Sat(used), extra) > limit) != (used + extra > limit);
    }
  }

  // --------------------------------------------------------------------- usage

  function OwnedSize(metas: Metas, owner: string): string -> nat {
    hash => if hash in metas && owner in metas[hash].owners then metas[hash].size else 0
  }

  /** The true sum of the sizes of the blobs this owner owns. */
  ghost function OwnedBytes(metas: Metas, owner: string): nat {
    SetSum(OwnedSize(metas, owner), metas.Keys)
  }

  ghost predicate WithinQuota(metas: Metas, limit: nat) {
    forall owner :: OwnedBytes(metas, owner) <= limit
  }

  /** Fewer blobs and fewer owners never make anyone own more. */
  lemma OwningLess(before: Metas, after: Metas, limit: nat)
    requires forall h :: h in after ==> h in before && after[h].size == before[h].size && after[h].owners <= before[h].owners
    requires WithinQuota(before, limit)
    ensures WithinQuota(after, limit)
  {
    forall owner ensures OwnedBytes(after, owner) <= limit {
      SumAtMost(OwnedSize(after, owner), OwnedSize(before, owner), after.Keys);
      SetSumGrows(OwnedSize(before, owner), after.Keys, before.Keys);
      assert OwnedBytes(before, owner) <= limit;
    }
  }

  lemma {:induction false} SumAtMost(f: string -> nat, g: string -> nat, s: set<string>)
    requires forall x :: x in s ==> f(x) <= g(x)
    ensures SetSum(f, s) <= SetSum(g, s)
    decreases s
  {
    if s != {} {
      var x :| x in s;
      SetSumTake(f, s, x);
      SetSumTake(g, s, x);
      SumAtMost(f, g, s - {x});
    }
  }

  /** Writing one blob's metadata changes an owner's usage by what changes in that blob. */
  lemma UsageAfterWrite(metas: Metas, hash: string, m: BlobMeta, owner: string)
    ensures OwnedBytes(metas[hash := m], owner) + OwnedSize(metas, owner)(hash) ==
      OwnedBytes(metas, owner) + (if owner in m.owners then m.size else 0)
  {
    var after := metas[hash := m];
    var f, g := OwnedSize(metas, owner), OwnedSize(after, owner);
    var others := metas.Keys - {hash};
    SetSumTake(g, after.Keys, hash);
    assert after.Keys - {hash} == others;
    SetSumSame(f, g, others);
    if hash in metas {
      SetSumTake(f, metas.Keys, hash);
    } else {
      assert others == metas.Keys;
    }
  }

  // -------------------------------------------------------------------- uploads

  /** The metadata an upload leaves, given what was there for its hash. */
  function MetaFor(existing: Option<BlobMeta>, upload: Upload, now: nat): BlobMeta {
    var meta := if existing.Some? then existing.value
                else BlobMeta(upload.hash, upload.size, upload.mime, now, upload.filename, {}, {}, upload.expiresAt);
    meta.(
      size := upload.size,
      mime := upload.mime,
      expiresAt := if meta.expiresAt.Some? then meta.expiresAt else upload.expiresAt,
      originalName := if meta.originalName.Some? then meta.originalName else upload.filename,
      owners := if upload.owner.Some? then meta.owners + {upload.owner.value} else meta.owners)
  }

  /** Uploading the same file again, at whatever time, changes nothing; and of two uploads of the same
      content and type the order matters only for the time, the name and the expiry that came first. */
  lemma UploadsSettle(existing: Option<BlobMeta>, u: Upload, v: Upload, now: nat, later: nat)
    requires u.hash == v.hash && u.size == v.size && u.mime == v.mime
    ensures var m := MetaFor(existing, u, now);
      && m.mime == u.mime && (u.owner.Some? ==> u.owner.value in m.owners)
      && (existing.Some? ==> m.uploadedAt == existing.value.uploadedAt && m.refs == existing.value.refs && existing.value.owners <= m.owners)
    ensures MetaFor(Some(MetaFor(existing, u, now)), u, later) == MetaFor(existing, u, now)
    ensures var both, other := MetaFor(Some(MetaFor(existing, u, now)), v, later), MetaFor(Some(MetaFor(existing, v, later)), u, now);
      && both.owners == other.owners && both.refs == other.refs && both.size == other.size && both.mime == other.mime
      && (u.expiresAt.Some? && existing.None? ==> both.expiresAt == u.expiresAt)
      && (u.filename.Some? && existing.None? ==> both.originalName == u.filename)
      && (existing.Some? && existing.value.expiresAt.Some? ==> both == other.(originalName := both.originalName))
  {
  }

  function ExistingIn(metas: Metas, hash: string): Option<BlobMeta> {
    if hash in metas then Some(metas[hash]) else None
  }

  /** What an upload would add to its owner's usage. */
  function AdditionalIn(metas: Metas, upload: Upload): nat {
    if upload.hash !in metas then upload.size
    else if upload.owner.Some? && upload.owner.value in metas[upload.hash].owners then 0
    else metas[upload.hash].size
  }

  // ---------------------------------------------------------------- references

  /** The event names this blob: by its first `x` (or else `ox`) tag when it is file metadata, or in an `imeta` tag. */
  ghost predicate References(e: Event, hash: string) {
    || (e.kind == 1063 && NamedByTag(e, hash))
    || exists i :: 0 <= i < |e.tags| && ImetaNames(e.tags[i], hash)
  }

  function MetadataHash(e: Event): Option<string> {
    if FirstTag(e.tags, "x").Some? then FirstTag(e.tags, "x") else FirstTag(e.tags, "ox")
  }

  ghost predicate NamedByTag(e: Event, hash: string) {
    || (exists i: nat :: IsFirstTag(e.tags, "x", i) && e.tags[i][1] == hash)
    || ((forall i: nat :: !IsFirstTag(e.tags, "x", i)) && exists i: nat :: IsFirstTag(e.tags, "ox", i) && e.tags[i][1] == hash)
  }

  lemma MetadataHashMeans(e: Event, hash: string)
    ensures MetadataHash(e) == Some(hash) <==> NamedByTag(e, hash)
  {
    FirstTagMeans(e.tags, "x");
    FirstTagMeans(e.tags, "ox");
    hide FirstTag, IsFirstTag;
  }

  ghost predicate FieldNames(field: string, hash: string) {
    field == "x " + hash || field == "ox " + hash
  }

  ghost predicate ImetaNames(tag: seq<string>, hash: string) {
    tag != [] && tag[0] == "imeta" && exists j :: 1 <= j < |tag| && FieldNames(tag[j], hash)
  }

  function StripPrefix(field: string, prefix: string): Option<string> {
    if prefix <= field then Some(field[|prefix|..]) else None
  }

  lemma StripPrefixMeans(field: string, prefix: string, rest: string)
    ensures StripPrefix(field, prefix) == Some(rest) <==> field == prefix + rest
  {
  }

  method ImetaHashes(tag: seq<string>) returns (hashes: seq<string>)
    ensures forall h :: h in hashes <==> ImetaNames(tag, h)
  {
    hashes := [];
    if tag == [] || tag[0] != "imeta" {
      return;
    }
    for j := 1 to |tag|
      invariant forall h :: h in hashes <==> exists k :: 1 <= k < j && FieldNames(tag[k], h)
    {
      var field := tag[j];
      forall h ensures FieldNames(field, h) <==> StripPrefix(field, "x ") == Some(h) || StripPrefix(field, "ox ") == Some(h) {
        StripPrefixMeans(field, "x ", h);
        StripPrefixMeans(field, "ox ", h);
      }
      ghost var before := hashes;
      if StripPrefix(field, "x ").Some? {
        hashes := hashes + [StripPrefix(field, "x ").value];
      }
      if StripPrefix(field, "ox ").Some? {
        hashes := hashes + [StripPrefix(field, "ox ").value];
      }
      assert forall h :: h in hashes <==> h in before || FieldNames(field, h);
    }
  }

  /** The blobs an event names, sorted and without repeats. */
  method ReferencedHashes(e: Event) returns (hashes: seq<string>)
    ensures Ascending(hashes)
    ensures forall h :: h in hashes <==> References(e, h)
  {
    var found: seq<string> := [];
    if e.kind == FILE_METADATA_KIND && MetadataHash(e).Some? {
      found := [MetadataHash(e).value];
    }
    ghost var first := found;
    forall h ensures h in first <==> e.kind == 1063 && NamedByTag(e, h) {
      MetadataHashMeans(e, h);
    }
    for i := 0 to |e.tags|
      invariant forall h :: h in found <==> h in first || exists k :: 0 <= k < i && ImetaNames(e.tags[k], h)
    {
      var more := ImetaHashes(e.tags[i]);
      found := found + more;
    }
    hashes := SortedDistinct(found);
    assert forall h :: h in hashes <==> h in Elems(hashes);
    assert forall h :: h in found <==> h in Elems(found);
  }

  ghost function Referrers(events: seq<Event>, hash: string): set<string> {
    set i | 0 <= i < |events| && References(events[i], hash) :: events[i].id
  }

  ghost function ReferrersIn(events: set<Event>, hash: string): set<string> {
    set e | e in events && References(e, hash) :: e.id
  }

  lemma ReferrersOfSet(events: seq<Event>, hash: string)
    ensures Referrers(events, hash) == ReferrersIn(Elems(events), hash)
  {
    forall id | id in ReferrersIn(Elems(events), hash) ensures id in Referrers(events, hash) {
      var e :| e in Elems(events) && References(e, hash) && e.id == id;
      var i :| 0 <= i < |events| && events[i] == e;
    }
  }

  // ------------------------------------------------------------------- pruning

  predicate IsExpired(m: BlobMeta, now: nat) {
    m.expiresAt.Some? && now >= m.expiresAt.value
  }

  predicate Denied(settings: FileSettings, m: BlobMeta) {
    !settings.hashAllowed(m.sha256) || !settings.mimeAllowed(m.mime)
  }

  /** What pruning keeps: not expired, not denied, and owned or referenced when the mode asks for that. */
  ghost predicate Keeps(settings: FileSettings, m: BlobMeta, now: nat) {
    && (m.expiresAt == None || now < m.expiresAt.value)
    && settings.hashAllowed(m.sha256) && settings.mimeAllowed(m.mime)
    && (settings.keepReferencedOnly ==> m.owners != {} || m.refs != {})
  }

  ghost function Pruned(settings: FileSettings, metas: Metas, now: nat): Metas {
    map h | h in metas && Keeps(settings, metas[h], now) :: metas[h]
  }

  ghost function SummaryOf(settings: FileSettings, metas: Metas, now: nat): (s: Summary)
    ensures s.removed + s.kept == |metas|
  {
    assert Pruned(settings, metas, now).Keys <= metas.Keys;
    SubsetOfEqualSize(Pruned(settings, metas, now).Keys, metas.Keys);
    assert |Pruned(settings, metas, now)| == |Pruned(settings, metas, now).Keys| <= |metas.Keys| == |metas|;
    Summary(|metas| - |Pruned(settings, metas, now)|, |Pruned(settings, metas, now)|)
  }

  /** Pruning again at the same moment finds nothing to remove. */
  lemma PruneSettles(settings: FileSettings, metas: Metas, now: nat)
    ensures Pruned(settings, Pruned(settings, metas, now), now) == Pruned(settings, metas, now)
    ensures SummaryOf(settings, Pruned(settings, metas, now), now) == Summary(0, |Pruned(settings, metas, now)|)
  {
  }

  // -------------------------------------------------------------------- the store

  function RefFilesOf(metas: Metas): set<RefFile> {
    set h, id | h in metas && id in metas[h].refs :: RefFile(h, id)
  }

  /** Metadata is filed under its hash and knows the blob's size. */
  ghost predicate MetasFiled(contentSize: string -> nat, metas: Metas) {
    forall h :: h in metas ==> metas[h].sha256 == h && metas[h].size == contentSize(h)
  }

  class FileStore {
    /** The size of the content with a given hash: a hash stands for one content. */
    const contentSize: string -> nat
    var metas: Metas
    var blobs: set<string>
    var refFiles: set<RefFile>

    /** Metadata is filed under its hash and knows the blob's size; blob files and reference
        files are exactly those the metadata speaks of. */
    ghost predicate Valid()
      reads this
    {
      && MetasFiled(contentSize, metas)
      && blobs == metas.Keys
      && refFiles == RefFilesOf(metas)
    }

    constructor (contentSize: string -> nat)
      ensures Valid() && metas == map[] && this.contentSize == contentSize
    {
      this.contentSize := contentSize;
      metas, blobs, refFiles := map[], {}, {};
    }

    /** Add up the sizes of an owner's blobs, in whatever order the walk yields them, saturating. */
    method OwnerUsage(owner: string) returns (total: nat)
      ensures total == Sat(OwnedBytes(metas, owner))
    {
      total := 0;
      var unread := metas.Keys;
      ghost var size := OwnedSize(metas, owner);
      assert metas.Keys - unread == {};
      while unread != {}
        invariant unread <= metas.Keys
        invariant total == Sat(SetSum(size, metas.Keys - unread))
        decreases unread
      {
        var hash :| hash in unread;
        SetSumTake(size, metas.Keys - (unread - {hash}), hash);
        assert metas.Keys - (unread - {hash}) - {hash} == metas.Keys - unread;
        unread := unread - {hash};
        if owner in metas[hash].owners {
          total := SatAdd(total, metas[hash].size);
        }
      }
      assert metas.Keys - unread == metas.Keys;
    }

    function Additional(upload: Upload): nat
      reads this
    {
      AdditionalIn(metas, upload)
    }

    /** The true usage would exceed the quota; the largest 64-bit number is no quota at all. */
    ghost predicate OverQuota(settings: FileSettings, upload: Upload)
      reads this
    {
      upload.owner.Some? && settings.quota.Some? && settings.quota.value < U64_MAX
      && OwnedBytes(metas, upload.owner.value) + Additional(upload) > settings.quota.value
    }

    function Existing(hash: string): Option<BlobMeta>
      reads this
    {
      ExistingIn(metas, hash)
    }

    /** Store an upload, unless policy or the owner's quota forbids it. */
    method StoreUpload(upload: Upload, settings: FileSettings, now: nat) returns (r: Result<BlobMeta, string>)
      requires Valid() && upload.size == contentSize(upload.hash)
      requires settings.quota.Some? ==> settings.quota.value <= U64_MAX
      modifies this
      ensures Valid()
      ensures r.Ok? <==> settings.mimeAllowed(upload.mime) && upload.size <= settings.maxBytes
                         && settings.hashAllowed(upload.hash) && !old(OverQuota(settings, upload))
      ensures r.Ok? ==> r.value == MetaFor(old(Existing(upload.hash)), upload, now) && metas == old(metas)[upload.hash := r.value]
      ensures r.Ok? && upload.hash !in old(metas) ==>
        r.value == BlobMeta(upload.hash, upload.size, upload.mime, now, upload.filename,
                            if upload.owner.Some? then {upload.owner.value} else {}, {}, upload.expiresAt)
      ensures r.Ok? && upload.hash in old(metas) ==>
        var was := old(metas)[upload.hash];
        && r.value.sha256 == upload.hash && r.value.size == upload.size && r.value.mime == upload.mime
        && r.value.uploadedAt == was.uploadedAt && r.value.refs == was.refs
        && (forall o :: o in r.value.owners <==> o in was.owners || upload.owner == Some(o))
        && (was.originalName.Some? ==> r.value.originalName == was.originalName)
        && (was.originalName.None? ==> r.value.originalName == upload.filename)
        && (was.expiresAt.Some? ==> r.value.expiresAt == was.expiresAt)
        && (was.expiresAt.None? ==> r.value.expiresAt == upload.expiresAt)
      ensures r.Err? ==> metas == old(metas)
      ensures settings.quota.Some? && settings.quota.value < U64_MAX && old(WithinQuota(metas, settings.quota.value)) ==>
        WithinQuota(metas, settings.quota.value)
      ensures upload.owner.None? ==> forall limit :: old(WithinQuota(metas, limit)) ==> WithinQuota(metas, limit)
    {
      if !settings.mimeAllowed(upload.mime) {
        return Err("blocked: MIME type not allowed");
      }
      if upload.size > settings.maxBytes {
        return Err("blocked: file exceeds max size");
      }
      if !settings.hashAllowed(upload.hash) {
        return Err("blocked: file hash denylisted");
      }
      var blocked := QuotaBlocks(upload, settings);
      if blocked {
        return Err("blocked: blob quota exceeded");
      }
      var meta := MetaFor(Existing(upload.hash), upload, now);
      UploadUsage(upload, meta, now);
      hide WithinQuota, OwnedBytes, RefFilesOf;
      blobs := blobs + {upload.hash};
      metas := metas[upload.hash := meta];
      r := Ok(meta);
    }

    /** An upload adds exactly `Additional` to its owner's usage, and nothing to anyone else's. */
    lemma UploadUsage(upload: Upload, meta: BlobMeta, now: nat)
      requires Valid() && upload.size == contentSize(upload.hash) && meta == MetaFor(Existing(upload.hash), upload, now)
      ensures forall o :: (OwnedBytes(metas[upload.hash := meta], o) ==
                           OwnedBytes(metas, o) + (if upload.owner == Some(o) then Additional(upload) else 0))
      ensures RefFilesOf(metas[upload.hash := meta]) == RefFilesOf(metas)
      ensures forall limit ::
        WithinQuota(metas, limit)
        && (upload.owner.Some? ==> OwnedBytes(metas, upload.owner.value) + Additional(upload) <= limit) ==>
        WithinQuota(metas[upload.hash := meta], limit)
    {
      forall o ensures OwnedBytes(metas[upload.hash := meta], o) ==
        OwnedBytes(metas, o) + (if upload.owner == Some(o) then Additional(upload) else 0)
      {
        UsageAfterWrite(metas, upload.hash, meta, o);
      }
      forall limit | WithinQuota(metas, limit)
                     && (upload.owner.Some? ==> OwnedBytes(metas, upload.owner.value) + Additional(upload) <= limit)
        ensures WithinQuota(metas[upload.hash := meta], limit)
      {
        var after := metas[upload.hash := meta];
        forall o ensures OwnedBytes(after, o) <= limit {
          assert OwnedBytes(metas, o) <= limit;
        }
      }
    }

    /** The comparison of saturated sums that decides about an upload. */
    method QuotaBlocks(upload: Upload, settings: FileSettings) returns (blocked: bool)
      requires settings.quota.Some? ==> settings.quota.value <= U64_MAX
      ensures blocked == OverQuota(settings, upload)
    {
      blocked := false;
      if upload.owner.Some? && settings.quota.Some? {
        var usage := OwnerUsage(upload.owner.value);
        blocked := SatAdd(usage, Additional(upload)) > settings.quota.value;
      }
    }

    method AddReference(hash: string, eventId: string)
      requires Valid()
      modifies this`metas, this`refFiles
      ensures Valid() && metas.Keys == old(metas.Keys)
      ensures forall h :: h in metas ==>
        metas[h] == old(metas[h]).(refs := old(metas[h]).refs + (if h == hash then {eventId} else {}))
    {
      if hash !in metas {
        return;
      }
      var meta := metas[hash];
      meta := meta.(refs := meta.refs + {eventId});
      metas := metas[hash := meta];
      refFiles := refFiles + {RefFile(hash, eventId)};
    }

    method AddEventReferences(e: Event)
      requires Valid()
      modifies this`metas, this`refFiles
      ensures Valid() && metas.Keys == old(metas.Keys)
      ensures forall h :: h in metas ==>
        metas[h] == old(metas[h]).(refs := old(metas[h]).refs + (if References(e, h) then {e.id} else {}))
    {
      var hashes := ReferencedHashes(e);
      for i := 0 to |hashes|
        invariant Valid() && metas.Keys == old(metas.Keys)
        invariant forall h :: h in metas ==>
          metas[h] == old(metas[h]).(refs := old(metas[h]).refs + (if h in hashes[..i] then {e.id} else {}))
      {
        AddReference(hashes[i], e.id);
        assert hashes[..i + 1] == hashes[..i] + [hashes[i]];
      }
      assert hashes[..|hashes|] == hashes;
    }

    method ClearReferences()
      requires Valid()
      modifies this`metas, this`refFiles
      ensures Valid() && metas.Keys == old(metas.Keys)
      ensures forall h :: h in metas ==> metas[h] == old(metas[h]).(refs := {})
    {
      refFiles := {};
      var unread := metas.Keys;
      while unread != {}
        invariant metas.Keys == old(metas.Keys) && unread <= metas.Keys && refFiles == {}
        invariant forall h :: h in metas ==> metas[h] == if h in unread then old(metas[h]) else old(metas[h]).(refs := {})
        decreases unread
      {
        var hash :| hash in unread;
        unread := unread - {hash};
        var meta := metas[hash];
        meta := meta.(refs := {});
        metas := metas[hash := meta];
      }
      forall h | h in metas ensures metas[h].refs == {} {
        assert metas[h] == old(metas[h]).(refs := {});
      }
      assert RefFilesOf(metas) == {};
    }

    /** Make every blob's references exactly the given events that name it. */
    method RebuildReferences(events: seq<Event>)
      requires Valid()
      modifies this`metas, this`refFiles
      ensures Valid() && metas.Keys == old(metas.Keys)
      ensures forall h :: h in metas ==> metas[h] == old(metas[h]).(refs := Referrers(events, h))
      ensures forall limit :: old(WithinQuota(metas, limit)) ==> WithinQuota(metas, limit)
    {
      ClearReferences();
      for i := 0 to |events|
        invariant Valid() && metas.Keys == old(metas.Keys)
        invariant forall h :: h in metas ==> metas[h] == old(metas[h]).(refs := Referrers(events[..i], h))
      {
        AddEventReferences(events[i]);
        forall h ensures Referrers(events[..i + 1], h) ==
            Referrers(events[..i], h) + (if References(events[i], h) then {events[i].id} else {}) {
          ReferrersStep(events, i, h);
        }
      }
      assert events[..|events|] == events;
      forall limit | old(WithinQuota(metas, limit)) ensures WithinQuota(metas, limit) {
        OwningLess(old(metas), metas, limit);
      }
    }

    /** Put a snapshot's blobs in place of everything here, and rebuild their references. */
    method RestoreBlobs(snapshot: Metas, events: seq<Event>)
      requires MetasFiled(contentSize, snapshot)
      modifies this
      ensures Valid() && metas.Keys == snapshot.Keys
      ensures forall h :: h in metas ==> metas[h] == snapshot[h].(refs := Referrers(events, h))
    {
      metas, blobs, refFiles := snapshot, snapshot.Keys, RefFilesOf(snapshot);
      RebuildReferences(events);
    }

    static lemma ReferrersStep(events: seq<Event>, i: nat, h: string)
      requires i < |events|
      ensures Referrers(events[..i + 1], h) ==
        Referrers(events[..i], h) + (if References(events[i], h) then {events[i].id} else {})
    {
    }

    method RemoveBlob(hash: string)
      requires Valid()
      modifies this
      ensures Valid() && metas == old(metas) - {hash}
    {
      blobs := blobs - {hash};
      metas := metas - {hash};
      refFiles := set r | r in refFiles && r.hash != hash;
    }

    /** Drop one owner's claim; remove the blob when nobody owns or references it and the mode says so. */
    method DeleteForOwner(hash: string, owner: string, settings: FileSettings) returns (r: Result<bool, string>)
      requires Valid()
      modifies this
      ensures Valid()
      ensures r == (if hash !in old(metas) then Ok(false)
                    else if owner !in old(metas[hash]).owners then Err("blocked: uploader does not own file")
                    else Ok(true))
      ensures r != Ok(true) ==> metas == old(metas)
      ensures r == Ok(true) ==>
        metas == if old(metas[hash]).owners == {owner} && old(metas[hash]).refs == {} && settings.keepReferencedOnly
                 then old(metas) - {hash}
                 else old(metas)[hash := old(metas[hash]).(owners := old(metas[hash]).owners - {owner})]
      ensures forall limit :: old(WithinQuota(metas, limit)) ==> WithinQuota(metas, limit)
    {
      if hash !in metas {
        return Ok(false);
      }
      var meta := metas[hash];
      if owner !in meta.owners {
        return Err("blocked: uploader does not own file");
      }
      meta := meta.(owners := meta.owners - {owner});
      if meta.owners == {} && meta.refs == {} && settings.keepReferencedOnly {
        RemoveBlob(hash);
      } else {
        metas := metas[hash := meta];
        assert RefFilesOf(metas) == RefFilesOf(old(metas));
      }
      forall limit | old(WithinQuota(metas, limit)) ensures WithinQuota(metas, limit) {
        OwningLess(old(metas), metas, limit);
      }
      r := Ok(true);
    }

    /** Remove every blob that is expired, denied, or neither owned nor referenced; a dry run only counts. */
    method Prune(settings: FileSettings, now: nat, dryRun: bool) returns (summary: Summary)
      requires Valid()
      modifies this
      ensures Valid()
      ensures summary == SummaryOf(settings, old(metas), now)
      ensures metas == if dryRun then old(metas) else Pruned(settings, old(metas), now)
      ensures forall limit :: old(WithinQuota(metas, limit)) ==> WithinQuota(metas, limit)
    {
      summary := Summary(0, 0);
      var unread := metas.Keys;
      ghost var before := metas;
      PruneBegins(settings, before, now);
      while unread != {}
        invariant Valid() && unread <= metas.Keys && unread <= before.Keys
        invariant metas == if dryRun then before else PartlyPruned(settings, before, unread, now)
        invariant summary == PartSummary(settings, before, unread, now)
        decreases unread
      {
        var hash :| hash in unread;
        var meta := metas[hash];
        PruneStep(settings, before, unread, hash, now);
        unread := unread - {hash};
        if IsExpired(meta, now) || Denied(settings, meta)
           || (settings.keepReferencedOnly && meta.owners == {} && meta.refs == {}) {
          summary := summary.(removed := summary.removed + 1);
          if !dryRun {
            RemoveBlob(meta.sha256);
          }
        } else {
          summary := summary.(kept := summary.kept + 1);
        }
      }
      PruneEnds(settings, before, now);
      forall limit | old(WithinQuota(metas, limit)) ensures WithinQuota(metas, limit) {
        OwningLess(old(metas), metas, limit);
      }
    }

    static ghost function PartlyPruned(settings: FileSettings, before: Metas, unread: set<string>, now: nat): Metas {
      map h | h in before && (h in unread || Keeps(settings, before[h], now)) :: before[h]
    }

    static ghost function Walked(settings: FileSettings, before: Metas, unread: set<string>, now: nat, keeps: bool): set<string> {
      set h | h in before && h !in unread && Keeps(settings, before[h], now) == keeps
    }

    static ghost function PartSummary(settings: FileSettings, before: Metas, unread: set<string>, now: nat): Summary {
      Summary(|Walked(settings, before, unread, now, false)|, |Walked(settings, before, unread, now, true)|)
    }

    static lemma PruneBegins(settings: FileSettings, before: Metas, now: nat)
      ensures PartlyPruned(settings, before, before.Keys, now) == before
      ensures PartSummary(settings, before, before.Keys, now) == Summary(0, 0)
    {
    }

    static lemma PruneStep(settings: FileSettings, before: Metas, unread: set<string>, hash: string, now: nat)
      requires unread <= before.Keys && hash in unread
      ensures PartlyPruned(settings, before, unread - {hash}, now) ==
        if Keeps(settings, before[hash], now) then PartlyPruned(settings, before, unread, now)
        else PartlyPruned(settings, before, unread, now) - {hash}
      ensures PartSummary(settings, before, unread - {hash}, now) ==
        var s := PartSummary(settings, before, unread, now);
        if Keeps(settings, before[hash], now) then s.(kept := s.kept + 1) else s.(removed := s.removed + 1)
    {
      var keeps := Keeps(settings, before[hash], now);
      assert Walked(settings, before, unread - {hash}, now, keeps) == Walked(settings, before, unread, now, keeps) + {hash};
      assert Walked(settings, before, unread - {hash}, now, !keeps) == Walked(settings, before, unread, now, !keeps);
    }

    static lemma PruneEnds(settings: FileSettings, before: Metas, now: nat)
      ensures PartlyPruned(settings, before, {}, now) == Pruned(settings, before, now)
      ensures PartSummary(settings, before, {}, now) == SummaryOf(settings, before, now)
    {
      var kept, gone := Walked(settings, before, {}, now, true), Walked(settings, before, {}, now, false);
      assert kept == Pruned(settings, before, now).Keys;
      assert gone == before.Keys - kept;
    }

    /** What the retention task runs after it has removed events: rebuild references from the visible
        events, then prune. In `Referenced` mode this collects exactly the garbage. */
    method CollectGarbage(events: seq<Event>, settings: FileSettings, now: nat) returns (summary: Summary)
      requires Valid()
      modifies this
      ensures Valid()
      ensures forall h :: h in metas ==> h in old(metas) && metas[h] == old(metas[h]).(refs := Referrers(events, h))
      ensures forall h :: h in metas <==>
        && h in old(metas) && (old(metas[h]).expiresAt.Some? ==> now < old(metas[h]).expiresAt.value)
        && settings.hashAllowed(old(metas[h]).sha256) && settings.mimeAllowed(old(metas[h]).mime)
        && (settings.keepReferencedOnly ==> old(metas[h]).owners != {} || exists i :: 0 <= i < |events| && References(events[i], h))
      ensures SummaryOf(settings, metas, now).removed == 0
      ensures summary.kept == |metas| && summary.removed + summary.kept == |old(metas)|
    {
      RebuildReferences(events);
      ghost var rebuilt := metas;
      assert rebuilt.Keys == old(metas).Keys;
      assert |rebuilt| == |rebuilt.Keys| == |old(metas).Keys| == |old(metas)|;
      summary := Prune(settings, now, false);
      PruneSettles(settings, rebuilt, now);
      forall h ensures Referrers(events, h) != {} <==> exists i :: 0 <= i < |events| && References(events[i], h) {
        if i :| 0 <= i < |events| && References(events[i], h) {
          assert events[i].id in Referrers(events, h);
        }
      }
    }
  }
}
