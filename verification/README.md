# A verified model of Stonr's stateful cores

Stonr is a personal Nostr relay that keeps its state in plain files. This project models the parts
of it that keep state and proves what they promise, with Dafny 4.11.
`dafny verify dfyconfig.toml` checks the whole project.

| module | what it models |
|---|---|
| `Events`, `EventOrder`, `Text` | events, tags, addresses, filters, live matching; age order and sorting; string order, decimals, parsing |
| `Tombstones`, `Retention`, `Answers`, `StoreIndex` | what the derived structures, retention and query answers of the store ought to be, as values |
| `EventStore` | the file-backed event store as a class: ingest, rebuild, retention, stats cache, backup and restore, the query pipeline |
| `StoreLaws` | laws over several operations or several stores |
| `BackgroundRetention` | the background retention pass, which reads without the lock, beside ingests; one step per file-system action |
| `Handoff` | stored results to live results for one WebSocket session beside any number of publishers |
| `Session` | one WebSocket session as a class: authentication, subscriptions, publishing, snapshots |
| `RateLimit` | the rate limiter's lock directory and counter file, one step per file-system action, and a request by itself as a class |
| `BlobStore` | the blob store as a class: quotas, references, pruning |
| `BlobRaces` | blob requests beside each other: the reading and the writing of each are steps of their own |
| `Mirror` | the mirror loop and its persisted cursor |
| `Csv`, `AppSupport` | comma-separated lists, and the merge of app-support profiles |
| `Sums`, `Outcomes` | sums over sets and sequences; `Option` and `Result` |

The main results, each for all inputs, runs or interleavings:

- The indexed query answers exactly as a plain scan of the stored events would, in one canonical order,
  whatever order directory walks and hash sets yield (`EventStore.Store.QueryWithPolicy`, `Answers.AnswerUnique`).
- A rebuild changes no index read, changes no tombstone exactly when deletes had been applied, and makes every
  `latest` pointer newest; ingest alone keeps the pointers newest exactly when the new event is newer than all
  it shares a pointer with (`EventStore.Store.Reindex`, `StoreLaws.IngestKeepsNewestIff`).
- Tombstones are an order-independent join. Where the author has asked for a deletion that NIP-09 grants, the slot hides
  the event exactly when the delete that won it is the author's, and it never hides more
  (`Tombstones.TombstonesIgnoreOrder`, `Tombstones.SlotAgainstNip09`, `StoreLaws.VisibilityMeetsNip09`,
  `StoreLaws.AddressDeleteHides`).
- Retention removes the shortest oldest-first run of unprotected events that suffices: events and bytes end within the
  caps, and with one removal fewer they would not be. A second pass removes nothing; it never brings back an unprotected event that its author's newer request hides, and deletions of the event's
  own second are the exception (`EventStore.Store.EnforceRetention`, `StoreLaws.RetainTwice`,
  `StoreLaws.RetentionKeepsHidden`, `StoreLaws.LastWordAfterPruning`, `StoreLaws.TieReveals`).
- The retention status tells the truth about the caps exactly when there is a stats cache or no cap is exceeded; without
  a cache it never warns (`StoreLaws.StatusTruthfulIff`, `StoreLaws.FreshStoreUnderreports`).
- A background pass that is cleared to act holds exactly the current events; without a stats cache it may lose an
  event from the indexes, and a run that does is constructed (`BackgroundRetention.PassIsSound`,
  `BackgroundRetention.UncheckedPassSoundIff`, `BackgroundRetention.LateEventLost`).
- A matching event stored after a request began is sent on its subscription, or is on its way, unless it was missed: hidden
  when its broadcast was drained or about to be made, dropped by a lag, or never broadcast. If missed, only an answer can
  have sent it. What was stored before is in the answer, if it stayed visible and the limit left room. A run shows that one
  look at the wrong moment is enough, and nothing is delivered undeservedly (`Handoff.LiveFeedIff`,
  `Handoff.HandoffHasNoGap`, `Handoff.RevealLeavesGap`, `Handoff.DeliveriesAreDeserved`).
- A session whose queries require authentication opens no subscription and sends no event before a verified AUTH, and
  stores nothing before it either, when publishing requires it, except for owner pubkeys, which skip the requirement; an
  AUTH counts exactly when it meets every demand of NIP-42, this session's challenge included (`Session.Connection.HandleAuth`,
  `Session.Connection.SessionIsSafe`).
- The rate limiter's count is the number of accepted requests and never exceeds the maximum
  (`RateLimit.CountNeverExceedsMaximum`, `RateLimit.AtMostTwiceTheMaximum`).
- Quotas bound the true usage when blob requests run one at a time, and in every interleaving in which, between any
  request's first look and its end, nobody else writes or removes the same blob's metadata or writes an upload for the
  same owner; then every write is also what its request would write by itself, and no claim on a blob is lost. In any run,
  with uploads, edits, reference rebuilds and prunes side by side: the quota holds exactly when every write still finds
  room; no reference or owner is lost exactly when no request ends on a claim made by others since its look; every
  request leaves exactly the claims it should exactly when its look is still current then; and every known blob has its
  file exactly when every write finds it in place. Runs that exceed the quota, lose a reference (also to a rebuild and a
  prune), or lose a file are constructed (`BlobStore.FileStore.StoreUpload`, `BlobRaces.UndisturbedRunsAreSafe`,
  `BlobRaces.QuotaHoldsIff`, `BlobRaces.NoClaimLostIff`, `BlobRaces.ClaimsAlwaysDueIff`,
  `BlobRaces.KnownBlobsHaveFilesIff`, `BlobRaces.RaceExceedsQuota`, `BlobRaces.RaceRevivesOwner`,
  `BlobRaces.EditsLoseReference`, `BlobRaces.RebuildLosesReference`, `BlobRaces.PruneDropsClaim`,
  `BlobRaces.RaceOrphansMetadata`).
- Reference rebuild plus prune is an exact garbage collector (`BlobStore.FileStore.CollectGarbage`).
- A snapshot restored over any store, even the one it was taken from and whatever has happened to it since, gives every
  query its old answer, and gives back the blobs, admin lists and cursors (`StoreLaws.BackupThenRestore`).
- The mirror resumes where its cursor stands, ingests every valid event from there on, and the cursor never goes back and
  never passes the clock (`Mirror.MirrorCursor.MirrorOnce`).
- The app-support merge is a join: its outcome depends only on the set of settings merged
  (`AppSupport.LoadAppSupport`, `AppSupport.MergeIgnoresOrder`).

## Assumptions

- An event id is the hash of everything in the event but its signature, so equal ids mean equal events up to the
  signature. Where that matters it is a hypothesis (`Tombstones.SameHashed`, `Tombstones.ContentAddressed`).
- Ids have at least four characters: the store cuts a path out of the first four and stops with a panic on shorter ones.
- SHA-1 file names of tag values, addresses and actors are injective, so the value itself names the file; the SHA-256
  of a blob stands for its content. Names without path separators or line breaks name the files they should.
- Files are readable and well-formed and I/O does not fail. The clock is a parameter, fixed within one query.
- An event's file size, signature verification, event hashing, Unicode lower-casing, the relay-tag comparison and the
  event policy are arbitrary functions given as parameters. Counts and byte sums are unbounded numbers except in the
  blob quota, where the saturation at 64 bits is modelled.
- The settings of a store (caps, pins, size limits) do not change while it is in use; a status file written under other
  caps stands until the next write.
- Operations that hold the mutation lock run one at a time. The class `BlobStore.FileStore` describes operations that are
  not interrupted, although the blob store takes no lock; `BlobRaces` says what changes when they overlap. The modules
  `BackgroundRetention` and `Handoff` say which steps of the event store run without its lock.
- In `Handoff`, another process, such as the `ingest` command (main.rs:265-276), may store events that nobody broadcasts.
- In `Mirror`, nobody sets or clears the cursor by hand (mirror.rs:814-833), which may move it anywhere.
- In `Handoff`, one look at one event's visibility (two tombstone files and the clock) is one step.

## Model

| member | source | states |
|---|---|---|
| Events.FirstTag | stonr/src/storage.rs:1323-1333 | a value found is a tag's value under that key, and nothing is found exactly when no tag has the key and a value |
| Events.FirstTagIsFirst | stonr/src/storage.rs:1323-1333 | the first tag with the key and a value decides, whatever follows it and whatever bare keys precede it |
| Events.FirstTagMeans | stonr/src/storage.rs:1323-1333 | a value is found exactly when some tag is the first with the key and a value, and then it is that tag's |
| Text.StrLessMeans | stonr/src/storage.rs:766-774 | one id goes before another exactly when the first difference says so, or when it is a proper beginning of the other |
| Text.ContainsMeans | stonr/src/storage.rs:1044-1049 | the search succeeds exactly when the term stands somewhere in the content |
| Text.DecimalIsNumeral | stonr/src/storage.rs:1323-1333 | a number is printed as digits worth that number by their places, without leading zeros |
| Text.NumeralUnique | stonr/src/storage.rs:1323-1333 | it has no other such numeral |
| Text.ParseMeans | stonr/src/storage.rs:1335-1343 | a text reads as a number exactly when it is digits worth it, perhaps after one plus sign, and not above the bound |
| Events.AddressMeans | stonr/src/storage.rs:1323-1333 | an event's address is exactly the numeral of its kind, its author and its first `d` value, separated by colons; without a `d` value it has none |
| Events.AddressNamesItsParts | stonr/src/storage.rs:1323-1333 | two events share an address exactly when they share kind, author and first `d` value (authors without a colon) |
| Events.ExpirationIsFirstNumber | stonr/src/storage.rs:1335-1343 | the expiration is that of the first expiration tag that parses as a number |
| Events.ExpiredMeans | stonr/src/storage.rs:1335-1347 | an event has expired exactly when the first of its expiration tags that reads as a 64-bit number has been reached |
| Events.OlderMeans | stonr/src/storage.rs:766-774 | an event is older exactly when its time is less, or is the same and its id goes before |
| Events.OlderTotal | stonr/src/storage.rs:766-774 | (created_at, id) orders any two events with different ids |
| Events.LiveAgreesWithStored | stonr/src/ws.rs:481-534 | live matching holds exactly when the event passes the index, since and until clauses and the search term stands in its content, without the `ids` clause; a stored match implies a live match |
| Events.LiveTagClausesMeaning | stonr/src/ws.rs:525-532 | the live tag clauses hold exactly when every clause has a listed value the event carries |
| EventOrder.SortSorts | stonr/src/storage.rs:766-774 | sorting events with distinct ids gives a strictly sorted list of the same events |
| EventOrder.SortedUnique | stonr/src/storage.rs:1056-1061 | a set of events has only one strictly sorted listing, so the walk or hash order cannot matter |
| Tombstones.ApplyTagsAt | stonr/src/storage.rs:1181-1195 | a named slot ends with the greater of what it held and the new tombstone; other slots are untouched |
| Tombstones.ApplyDeleteHolds | stonr/src/storage.rs:1112-1133 | applying one delete event keeps every slot at the greatest (created_at, id) delete naming it |
| Tombstones.JoinedIsNewest | stonr/src/storage.rs:1181-1190 | the comparison that decides a write keeps the newest delete |
| Tombstones.SlotsUnique | stonr/src/storage.rs:1181-1195 | a set of delete events decides all tombstones |
| Tombstones.TombstonesIgnoreOrder | stonr/src/storage.rs:1112-1195 | any order and repetition of the same delete events leaves the same tombstones |
| Tombstones.ReapplyChangesNothing | stonr/src/storage.rs:199-203 | re-applying a delete that is already stored (a duplicate ingest) changes no tombstone |
| Tombstones.SkippedDeleteHarmlessIff | stonr/src/storage.rs:179-183 | storing a delete without applying it leaves the tombstones right exactly when every slot it names already holds one at least as new |
| Tombstones.SlotAgainstNip09 | stonr/src/storage.rs:1093-1104 | a slot never hides more than NIP-09 asks, and hides as much exactly when the winning delete is by the event's author |
| Tombstones.ForeignDeleteUnhides | stonr/src/storage.rs:1135-1145 | slots are not keyed by author: a concrete later delete by someone else makes the author's own delete ineffective |
| Retention.CutUnique | stonr/src/storage.rs:316-346 | the caps, sizes and protection leave only one possible number of removals |
| Retention.RemovalTakesOldestUnprotected | stonr/src/storage.rs:322-333 | removal keeps every protected event and takes the unprotected ones strictly oldest first |
| Retention.KeptSorted | stonr/src/storage.rs:320-333 | what retention keeps is still in age order, as the rebuild needs |
| Retention.SecondPassRemovesNothing | stonr/src/storage.rs:316-346 | the minimal cut of what a first pass kept is zero |
| Retention.WalkEnds | stonr/src/storage.rs:322-333 | the loop ends at the minimal cut, within the caps or with only protected events left |
| Retention.CutInNumbers | stonr/src/storage.rs:316-346 | the cut in counts and bytes: only the oldest unprotected events go; then neither cap is passed or all are protected; and had the last to go stayed, a cap would be passed |
| Retention.RemovedAreOlder | stonr/src/storage.rs:322-333 | what is removed is unprotected and older than every unprotected event that stays |
| Answers.AnswerUnique | stonr/src/storage.rs:1028-1075 | the matching visible events and the limit leave only one possible answer |
| Answers.SmallerLimitGivesPrefix | stonr/src/storage.rs:1071-1073 | a smaller limit gives a prefix of the answer under a larger limit or none |
| Answers.AnswerContents | stonr/src/storage.rs:1062-1070 | an answer is strictly newest first by time and id, with at most one event per address and no more than the limit; unlimited, it has every event without an address and the newest of each address |
| StoreIndex.IndexGrows | stonr/src/storage.rs:787-817 | indexing one event keeps every index file listing exactly the stored events that carry its key |
| StoreIndex.LatestGrowsSound | stonr/src/storage.rs:794-804 | indexing one event, newest or not, keeps every pointer at a stored event that carries its key |
| StoreIndex.LatestGrowsNewest | stonr/src/storage.rs:517-522 | indexing events oldest first leaves every pointer at the newest carrier |
| StoreIndex.IndexUnique | stonr/src/storage.rs:787-817 | the stored events decide what every index file reads as |
| StoreIndex.LatestUnique | stonr/src/storage.rs:794-804 | the stored events decide where each newest pointer points |
| StoreIndex.LookupBetween | stonr/src/storage.rs:933-984 | a lookup that reads index files at different moments beside ingests misses nothing stored before it and finds nothing that fails a clause |
| EventStore.BuildStatus | stonr/src/storage.rs:579-618 | the status reports the totals, warns of each cap exactly when its own total passes it, and is off exactly when no cap is set |
| EventStore.Store.constructor | stonr/src/storage.rs:140-164 | an initialised store is empty, consistent and has no stats cache |
| EventStore.Store.Ingest | stonr/src/storage.rs:179-183 | plain ingest stores a new event that verifies and leaves the tombstones alone, which keeps them right exactly when nothing new was stored or they already cover the event |
| EventStore.Store.IngestWithPolicy | stonr/src/storage.rs:189-204 | exactly when an event is stored, skipped or rejected; skipped events change neither indexes nor stats; applied deletes keep the tombstones exact, and with deletes off they stay exact exactly when they already cover the event |
| EventStore.Store.IngestLocked | stonr/src/storage.rs:206-241 | storing one event keeps indexes, pointers, stats cache and status exact |
| EventStore.Store.IndexEvent | stonr/src/storage.rs:787-817 | the event's id is added to exactly the index files of its author, kind and tags, and its `d` pointers now name it |
| EventStore.Store.ApplyDeleteEvent | stonr/src/storage.rs:1112-1133 | `e` tags write the slots of ids and `a` tags those of addresses, as the join of `ApplyTagsAt` |
| EventStore.Store.BumpStatsCache | stonr/src/storage.rs:530-544 | a present cache grows by one event and its size; an absent one stays absent |
| EventStore.Store.WriteStatus | stonr/src/storage.rs:620-638 | the status says what the counts say, and keeps the last prune unless a new one is given |
| EventStore.Store.CountFiles | stonr/src/storage.rs:348-375 | counting files in any walk order gives the true totals |
| EventStore.Store.RefreshStatsCache | stonr/src/storage.rs:348-379 | after a refresh the cache holds the true totals |
| EventStore.Store.SortedEventRecords | stonr/src/storage.rs:716-774 | the records are all stored events, strictly oldest first |
| EventStore.Store.RebuildFromRecords | stonr/src/storage.rs:476-528 | indexes, newest pointers, tombstones and stats are those of the given records |
| EventStore.Store.Reindex | stonr/src/storage.rs:267-270 | a rebuild leaves every index read unchanged, leaves the tombstones unchanged exactly when deletes had been applied, and makes every pointer newest |
| EventStore.Store.EnforceRetention | stonr/src/storage.rs:273-314 | the minimal oldest-first removal of unprotected events; in numbers, events and bytes are within the caps afterwards or only protected events are left, and with one removal fewer a cap would be passed |
| EventStore.Store.EnforceRetentionBackground | stonr/src/storage.rs:279-305 | with nothing beside it, which outcome a background pass has, and that it removes what the locked pass would, in the same numbers |
| EventStore.Store.EnforceRetentionFromRecords | stonr/src/storage.rs:316-346 | the minimal cut is removed, the rest is described exactly, and count, bytes and removals are reported exactly |
| EventStore.Store.PruneRecords | stonr/src/storage.rs:316-333 | the loop deletes the files of the removed records only and keeps its running totals exact |
| EventStore.Store.BackupTo | stonr/src/storage.rs:404-431 | a snapshot is taken exactly into an empty destination and holds the stored events, the blobs with their metadata, the admin lists and the cursors |
| EventStore.Store.RestoreFrom | stonr/src/storage.rs:434-469 | a restore replaces events, blobs, admin lists and cursors by the snapshot's, rebuilds everything derived, and gives the blobs the references that the restored events make; on a wrong format it changes nothing |
| EventStore.Store.QueryWithPolicy | stonr/src/storage.rs:913-921 | the answer is that of a plain scan for matching visible events, where a search term matches wherever it stands in the content |
| EventStore.Store.Query | stonr/src/storage.rs:907-910 | without policy the answer is that of a plain scan for matching events |
| EventStore.Store.UnlockedQuery | stonr/src/storage.rs:913-997 | whatever index lines, files and tombstones a query sees, each at its own moment, the answer is the unique one over what it found |
| EventStore.Store.CollectSets | stonr/src/storage.rs:938-977 | an id is in all id sets exactly when the index files list it under every clause; no clause gives no set |
| EventStore.Store.TagSet | stonr/src/storage.rs:965-977 | the union over a tag clause's values is exactly the ids listed under one of them; an empty list gives none |
| EventStore.Store.Intersect | stonr/src/storage.rs:981-984 | intersecting set by set gives the ids in all of them |
| EventStore.Store.FindCandidates | stonr/src/storage.rs:933-997 | intersecting and loading gives exactly the files found whose id is listed under every clause, each once |
| EventStore.Store.QueryCandidates | stonr/src/storage.rs:933-997 | index lookup and intersection find exactly the stored events that pass every index clause, each once |
| EventStore.Store.FilterSortAndLimit | stonr/src/storage.rs:1028-1075 | from candidates in any order, the unique answer over those that pass the filters and are visible |
| EventStore.Store.RetainNewestPerAddress | stonr/src/storage.rs:1062-1070 | the first event of each address in newest-first order is the survivor of its address |
| StoreLaws.SameEventsSameMetadata | stonr/src/storage.rs:476-528 | equal stored events mean equal index reads and tombstones, and equal pointers after a rebuild |
| StoreLaws.SameEventsSameAnswers | stonr/src/storage.rs:913-921 | stores with the same events, deletes applied and the same pins answer every query alike |
| StoreLaws.SameEventsSameMatches | stonr/src/storage.rs:1028-1106 | the stored events decide what a query matches |
| StoreLaws.BackupThenRestore | stonr/src/storage.rs:404-469 | backup, any changes, and restore, into any store with the same pins or into the source itself, give back the answer to every query, and the blobs, admin lists and cursors |
| StoreLaws.IngestKeepsNewestIff | stonr/src/storage.rs:794-804 | arrival order: ingest keeps the pointers newest exactly when the event is newer than all it shares a pointer with |
| StoreLaws.VisibilityMeetsNip09 | stonr/src/storage.rs:1077-1106 | what hides an event, exactly: expiry unless pinned, or a request of kind 5 by its author that is the newest for its id or for its address, spelled out; never more than NIP-09 asks, and as much when nobody else asked |
| StoreLaws.AddressDeleteHides | stonr/src/storage.rs:1093-1104 | an event is hidden when its author's request, not older and the newest for its `a` text, names the kind's numeral, the author and the first `d` value |
| StoreLaws.MatchingMeans | stonr/src/storage.rs:1028-1106 | what a query matches, from the stored events alone: its clauses, expiry unless pinned, and the author's last word on the id or the address |
| StoreLaws.HiddenForGood | stonr/src/storage.rs:1077-1106 | as events arrive and time passes, an event deleted only by its author or expired stays hidden |
| Retention.NewerStays | stonr/src/storage.rs:322-333 | whatever is newer than an unprotected record that retention keeps is kept as well |
| StoreLaws.LastWordAfterPruning | stonr/src/storage.rs:316-346 | after retention the deletion in force still hides an unprotected event exactly when it stays too, or another of the same second takes over; it is sure to stay when newer than the event |
| StoreLaws.RetentionKeepsHidden | stonr/src/storage.rs:273-346 | retention never brings back an unprotected event hidden by its author's newer request |
| StoreLaws.TieReveals | stonr/src/storage.rs:316-346 | a note and its deletion of the same second: retention drops the deletion and the note is visible again |
| StoreLaws.ForeignDeleteReveals | stonr/src/storage.rs:1093-1104 | a hidden event that becomes visible again when someone else's later delete arrives |
| StoreLaws.VisibilityFollowsEvents | stonr/src/storage.rs:1077-1106 | at one moment, visibility is a function of the stored events |
| StoreLaws.RetainTwice | stonr/src/storage.rs:273-276 | a second retention pass removes nothing |
| StoreLaws.StatusTruthfulIff | stonr/src/storage.rs:579-618 | the status reports the caps truthfully exactly when there is a stats cache or no cap is exceeded; without a cache it never warns |
| StoreLaws.FreshStoreUnderreports | stonr/src/storage.rs:159-163 | a run that shows the stale status: ingest into a fresh store creates no cache |
| BackgroundRetention.InvStep | stonr/src/storage.rs:279-305 | every step of ingest or pass keeps the lock, the cache and the pass's records consistent |
| BackgroundRetention.CompareKeepsInv | stonr/src/storage.rs:297-301 | the comparison clears the pass exactly when its records, which may lag behind, are all stored events |
| BackgroundRetention.ApplyKeepsInv | stonr/src/storage.rs:303-346 | applying the pass leaves exactly the kept records on disk, in the indexes and in the cache |
| BackgroundRetention.PassIsSound | stonr/src/storage.rs:279-305 | in every interleaving with ingests, a pass is cleared to act exactly when it holds the current events, and loses none from the indexes; it goes on exactly when what it has seen passes a cap, and what it does is right in counts and bytes |
| BackgroundRetention.StaysGrounded | stonr/src/storage.rs:279-305 | with a cache or without, until the pass acts every step keeps its records sorted and stored, and the index files as far as the ingest has got |
| BackgroundRetention.UncheckedPassSoundIff | stonr/src/storage.rs:297-346 | in every run from rest without a stats cache: the totals written are true, and after a removal the description is complete, exactly when the pass held every current event |
| BackgroundRetention.LateEventLost | stonr/src/storage.rs:297-346 | a run without a cache after which a stored event is missing from the indexes and from the stats cache |
| Handoff.FoundSince | stonr/src/storage.rs:933-1106 | a query beside ingests and deletes finds all that was stored when its request began and has been visible since, and nothing that fails a clause or has been hidden all along |
| Handoff.AnswerIsSound | stonr/src/ws.rs:463-479 | an answer that its limit did not fill covers all that, up to newer versions at an address |
| Handoff.OutsideStep | stonr/src/ws.rs:414-434 | no step of publishers, visibility or channel loses an event that a subscription still waits for, except those hidden or dropped |
| Handoff.RegisteredHasNoGap | stonr/src/ws.rs:200-208 | registering after the snapshot leaves no gap: what the snapshot did not see is queued or pending |
| Handoff.DrainKeepsInv | stonr/src/ws.rs:436-461 | taking an event off the queue sends it wherever it matters |
| Handoff.InvStep | stonr/src/ws.rs:96-118 | every step of publishers and session keeps each subscription free of gaps |
| Handoff.OpenMeansRecalls | stonr/src/ws.rs:200-208 | what is kept about an open subscription is what has happened in the run since its request began |
| Handoff.SubscriptionBegan | stonr/src/ws.rs:206-208 | every open subscription was opened by a request of the run |
| Handoff.HandoffHasNoGap | stonr/src/ws.rs:88-118 | in every interleaving, a matching event visible since it was stored and the request began: in the answer if it was there and the limit left room; else delivered, queued or awaiting broadcast unless it had passed the queue before or was dropped |
| Handoff.WholeIsRoom | stonr/src/ws.rs:200-208 | whether a filter's limit left room is what it was in the answer to the request that opened the subscription |
| Handoff.LiveMatchesWanted | stonr/src/ws.rs:453-459 | the live feed takes an event exactly when some filter asks for it, whatever ids it lists |
| Handoff.WayStep | stonr/src/ws.rs:106-118 | an event leaves its way to the session once, by being missed or by being fed to it |
| Handoff.LiveFeedIff | stonr/src/ws.rs:88-118 | in every interleaving, an event stored since the request began is on the subscription exactly if sent before, answered, or matching, gone its way and never missed; if not missed it is sent, queued or pending |
| Handoff.NothingLiveWhenOff | stonr/src/ws.rs:206-208 | in every run with live subscriptions off, no subscription is ever open and only the end of a request sends anything, which is its snapshot |
| Handoff.RevealLeavesGap | stonr/src/ws.rs:436-461 | a run in which an event hidden only when its broadcast is drained is visible afterwards and is never sent |
| Handoff.DeliveriesAreDeserved | stonr/src/ws.rs:200-461 | in every interleaving, an event is sent only to answer a request it matches, if visible at some moment of it, or live while visible on an open subscription it matches |
| Session.SnapshotEvents | stonr/src/ws.rs:463-479 | the snapshot holds every event of every filter's answer once, newest first; for one filter it is that filter's answer |
| Session.SortByTimeSorts | stonr/src/ws.rs:477-477 | the final sort is by time, newest first |
| Session.SortedStays | stonr/src/ws.rs:477-477 | the final sort is stable: an answer already newest first keeps its order, ties included |
| Session.CapCutsTheAnswer | stonr/src/policy.rs:50-56 | capping a limit cuts the filter's answer to the maximum and changes nothing else |
| Session.AddUnseen | stonr/src/ws.rs:472-474 | merging an answer adds exactly the events not seen yet |
| Session.AppendOrderly | stonr/src/ws.rs:125-412 | the history stays orderly when each new entry may follow it |
| Session.Recorded | stonr/src/ws.rs:125-434 | frames sent, events broadcast, pubkeys and subscriptions are at all times exactly what the history says |
| Session.Connection.constructor | stonr/src/ws.rs:87-94 | a new session is authenticated as nobody, has no subscription, and is sent its challenge when NIP-42 is on |
| Session.Connection.Gate | stonr/src/ws.rs:161-199 | a request passes exactly when authentication, tag, search and rate policy allow it; otherwise the first reason that applies closes it, after a new challenge if authentication is missing |
| Session.Connection.HandleReq | stonr/src/ws.rs:142-209 | exactly when a request is answered, with which frames, and when its capped filters are registered |
| Session.Connection.HandleCount | stonr/src/ws.rs:210-272 | a count is the size of the snapshot, under the count policy, and never reveals an event |
| Session.Connection.HandleClose | stonr/src/ws.rs:273-281 | a closed subscription is gone |
| Session.Connection.HandleAuth | stonr/src/ws.rs:367-402 | a pubkey is added exactly when NIP-42 is on and the event is of kind 22242, verifies, has this session's challenge in its first challenge tag and this relay in its first relay tag, and is within the age window, before or after the clock; the verdict sent |
| Session.ValidAuthMeans | shared/nostr-shared/src/nip42.rs:57-83 | the check accepts exactly what NIP-42 demands, clause by clause, by the first challenge tag and the first relay tag |
| Session.Connection.HandlePublish | stonr/src/ws.rs:282-366 | an event is stored and broadcast exactly when the session may publish it, its id is right, policy permits it and it is new; the verdict and its reason, OK also for duplicates and skipped expired events |
| Session.Connection.PublishEvent | stonr/src/ws.rs:414-434 | what is broadcast, and enters the history, is exactly what was newly stored; when the publisher is told OK |
| Session.Connection.FanOut | stonr/src/ws.rs:436-461 | a visible live event goes once to exactly the subscriptions with a matching filter |
| Session.Connection.HandleText | stonr/src/ws.rs:125-412 | what each message, accepted, refused or malformed, sends, and that it changes only what it may |
| Session.Connection.SubscribedMeansAllowed | stonr/src/ws.rs:156-208 | an open subscription was registered under the query, authentication, limit, tag and search policy |
| Session.Connection.SessionIsSafe | stonr/src/ws.rs:125-412 | NIP-42: every subscription and EVENT frame comes after an AUTH when queries require one, and every AUTH in the history met each demand, this session's challenge among them; filters obey policy; what non-owners stored came after the AUTH publishing requires, and under pubkey matching only owners and authenticated pubkeys have events stored and broadcast |
| RateLimit.InvStep | stonr/src/policy.rs:127-158 | every step keeps the lock exclusive, the counts exact and each count read still current |
| RateLimit.CountNeverExceedsMaximum | stonr/src/policy.rs:147-157 | in every interleaving the stored count is the number of accepted requests in its bucket and at most the maximum |
| RateLimit.TwoBuckets | stonr/src/policy.rs:146-146 | any stretch of one window touches two neighbouring buckets |
| RateLimit.RateLimiter.MakeLock | stonr/src/policy.rs:193-204 | the retry loop makes the lock exactly when it is absent at one of 200 attempts |
| RateLimit.RateLimiter.Enforce | stonr/src/policy.rs:127-158 | a request is accepted and counted exactly when the lock is made and its action, actor and window have counted fewer than the maximum; unlimited actions are not counted |
| RateLimit.StepsMakeARequest | stonr/src/policy.rs:127-158 | the interleaved steps of one request, uninterrupted, do what the whole request does and leave no lock behind |
| RateLimit.AtMostTwiceTheMaximum | stonr/src/policy.rs:127-158 | at most twice the maximum are accepted in any stretch of one window |
| BlobStore.SaturationHarmlessIff | stonr/src/files.rs:108-121 | saturated sums decide as true sums do exactly when the limit is below the largest 64-bit number |
| BlobStore.OwningLess | stonr/src/files.rs:371-379 | removing blobs or owners never raises anyone's usage |
| BlobStore.UploadsSettle | stonr/src/files.rs:132-152 | repeating an upload changes nothing; the first expiry and name win, owners and references accumulate |
| BlobStore.MetadataHashMeans | stonr/src/files.rs:394-417 | the hash of a metadata event is the value of its first `x` tag, or of its first `ox` tag when it has no `x` |
| BlobStore.ReferencedHashes | stonr/src/files.rs:394-417 | the hashes an event names, by its first `x` or else `ox` tag or by `imeta` fields, sorted and without repeats |
| BlobStore.PruneSettles | stonr/src/files.rs:242-266 | a second prune at the same time removes nothing |
| BlobStore.FileStore.OwnerUsage | stonr/src/files.rs:371-379 | the walk's result is the saturated true sum of the owner's blob sizes |
| BlobStore.FileStore.StoreUpload | stonr/src/files.rs:87-153 | exactly when an uninterrupted upload is accepted, and every field of the metadata it leaves, for new and for known blobs; with a quota below the largest 64-bit number nobody's true usage passes it |
| BlobStore.FileStore.UploadUsage | stonr/src/files.rs:110-118 | an upload adds exactly the accounted bytes to its owner and nothing to others |
| BlobStore.FileStore.AddEventReferences | stonr/src/files.rs:193-198 | exactly the blobs the event names gain it as a reference |
| BlobStore.FileStore.RebuildReferences | stonr/src/files.rs:201-220 | every blob's references become exactly the given events that name it |
| BlobStore.FileStore.RestoreBlobs | stonr/src/storage.rs:452-466 | restored blobs are the snapshot's, with exactly the references of the restored events |
| BlobStore.FileStore.RemoveBlob | stonr/src/files.rs:355-369 | blob, metadata and reference files go together |
| BlobStore.FileStore.DeleteForOwner | stonr/src/files.rs:223-239 | the outcome for unknown blobs, strangers and owners, and when the blob goes with its last owner |
| BlobStore.FileStore.Prune | stonr/src/files.rs:242-266 | exactly the expired, denied or abandoned blobs go; a dry run predicts the counts |
| BlobStore.FileStore.CollectGarbage | stonr/src/main.rs:460-461 | after rebuild and prune the survivors are exactly the blobs unexpired, not denied and, when the mode asks for it, owned or referenced |
| BlobRaces.StepsMakeAnUpload | stonr/src/files.rs:106-152 | the check, the placing and the write of one upload, uninterrupted, do what the whole upload does |
| BlobRaces.WriteKeepsQuotaIff | stonr/src/files.rs:132-152 | a metadata write keeps the quota exactly when every owner it adds to the blob still has room for it |
| BlobRaces.UndisturbedRunsAreSafe | stonr/src/files.rs:106-266 | in every interleaving whose requests are all undisturbed between first look and end: the quota holds, every known blob has its file, each write is what its request would write by itself, and no claim is lost |
| BlobRaces.QuotaHoldsIff | stonr/src/files.rs:106-153 | in any interleaving, the quota holds throughout exactly when every write still finds room for the owners it adds |
| BlobRaces.OverlapKeepsQuotaIff | stonr/src/files.rs:106-153 | two uploads for one owner checked before either is written keep the quota exactly when there is room for both |
| BlobRaces.RaceExceedsQuota | stonr/src/files.rs:106-153 | a run of two overlapping uploads that exceeds the quota |
| BlobRaces.RaceRevivesOwner | stonr/src/files.rs:178-239 | a run with one, undisturbed upload that exceeds the quota: a stale edit brings a dropped claim back |
| BlobRaces.KnowsWhatWasThere | stonr/src/files.rs:178-266 | what a request remembers of a claim is whether it was there when the request looked: a rebuild, for references, when it took its list of events |
| BlobRaces.LosesIffMissed | stonr/src/files.rs:132-266 | an upload, edit, clearing or prune takes away a claim it is not there to take exactly when it was made since the request looked, and revives one exactly when it was dropped since |
| BlobRaces.NoClaimLostIff | stonr/src/files.rs:132-266 | in any run, no reference and no owner is lost exactly when no request misses a claim made between its look and its end |
| BlobRaces.ClaimsAlwaysDueIff | stonr/src/files.rs:132-266 | in any run, every request leaves exactly the claims it would leave running by itself at its end, exactly when its look is still current then |
| BlobRaces.MadeBetween | stonr/src/files.rs:178-190 | a claim missed so was written in between |
| BlobRaces.RaceLosesReference | stonr/src/files.rs:132-190 | a run in which a reference added during an upload of its blob is lost |
| BlobRaces.EditsLoseReference | stonr/src/files.rs:178-190 | a run of two references added side by side, of which the first is lost |
| BlobRaces.RebuildLosesReference | stonr/src/main.rs:488-512 | a run in which a reference added after a rebuild took its list is cleared, and a prune then removes the blob |
| BlobRaces.PruneDropsClaim | stonr/src/files.rs:242-266 | a run in which a blob claimed after a prune read it as unclaimed is removed |
| BlobRaces.FileThereIff | stonr/src/files.rs:124-130 | a blob's file is there exactly when every removal since has been made up for by an upload's placing it |
| BlobRaces.KnownBlobsHaveFilesIff | stonr/src/files.rs:124-152 | in any run, every blob known has its file exactly when every metadata write finds it in place |
| BlobRaces.RaceOrphansMetadata | stonr/src/files.rs:355-369 | a run in which a prune between an upload's placing the file and writing the metadata leaves metadata without a file |
| Mirror.LatestWithinClock | stonr/src/mirror.rs:605-607 | whatever timestamps arrive, the newest one kept stays between the start and the clock |
| Mirror.LatestMeans | stonr/src/mirror.rs:605-607 | it is the greatest of the start and of each event's time, cut at the clock |
| Mirror.TooOldMeans | stonr/src/mirror.rs:608-648 | an event is ingested exactly when it is valid and at most 300 seconds older than the start, in 64 bits |
| Mirror.IngestedMeans | stonr/src/mirror.rs:608-648 | the events ingested are exactly the wanted ones |
| Mirror.MirrorCursor.WriteCursor | stonr/src/mirror.rs:795-802 | a write keeps the history of cursor writes non-decreasing and behind the clock |
| Mirror.MirrorCursor.MirrorStream | stonr/src/mirror.rs:554-725 | the cursor follows the newest timestamp of the events dealt with, keeps its value when an ingest fails, and which events are ingested |
| Mirror.MirrorCursor.MirrorOnce | stonr/src/mirror.rs:190-278 | a cycle resumes at the stored cursor, or 15 minutes back without one; of the messages handled it ingests every valid event at most 300 seconds older than that cursor, and no invalid one; the cursor never decreases and never passes the clock, within and across sessions |
| Mirror.MirrorCursor.StoredCursorNotAhead | stonr/src/mirror.rs:779-789 | resuming starts exactly at the stored cursor, which is never after the clock, and without a cursor 15 minutes back |
| Csv.SplitOfJoin | stonr/src/autoconfig.rs:417-427 | splitting undoes joining for items without commas |
| Csv.JoinOfSplit | stonr/src/autoconfig.rs:417-427 | joining undoes splitting, so the items are the text between the commas |
| Csv.TrimMeans | stonr/src/autoconfig.rs:417-427 | trimming takes off exactly the white space at both ends |
| Csv.NumbersOfMeaning | stonr/src/autoconfig.rs:429-442 | a number is found exactly when some item, trimmed, reads as it in 32 bits |
| Csv.DecimalsAreNumerals | stonr/src/autoconfig.rs:429-442 | each number is written as its numeral |
| Csv.MergeStringsIsUnion | stonr/src/autoconfig.rs:417-427 | a merged list is the sorted duplicate-free union of the items of both |
| Csv.MergeStringsIsJoin | stonr/src/autoconfig.rs:417-427 | merging lists is commutative, associative and idempotent |
| Csv.MergeNumbersIsUnion | stonr/src/autoconfig.rs:429-442 | a merged number list is the sorted duplicate-free union of the numbers of both |
| Csv.MergeNumbersIsJoin | stonr/src/autoconfig.rs:429-442 | merging number lists is commutative, associative and idempotent |
| AppSupport.ConflictStep | stonr/src/autoconfig.rs:84-90 | a setting fails exactly when it clashes with one already merged |
| AppSupport.TruthyMeans | stonr/src/autoconfig.rs:310-316 | exactly four words mean true, up to ASCII case and white space around |
| AppSupport.MergeStep | stonr/src/autoconfig.rs:76-112 | one more setting keeps the locks what the settings so far demand, or fails exactly on a clash |
| AppSupport.LoadAppSupport | stonr/src/autoconfig.rs:68-133 | the outcome is what the set of all settings demands: disjunctions, sorted unions, agreed exact values, and their sources |
| AppSupport.MergeIgnoresOrder | stonr/src/autoconfig.rs:73-126 | any order and repetition of profiles and settings fails alike or gives the same locks |
| AppSupport.MergedValueIsStable | stonr/src/autoconfig.rs:91-112 | merging a merged value again changes nothing |

## Left out

- EventStore.Store.QueryWithPolicy: demands ids of four characters when a query has only an `ids` clause, because the source stops with a panic on shorter ones there; any other clause filters them out first.
- EventStore.Store.IngestWithPolicy: the append log and the symlink trees are not modelled, because no query reads them; sums that overflow 64 bits are not either.
- BackgroundRetention.PassIsSound: considers ingests only beside one pass; two retention passes, a restore or a refresh at the same time are not modelled.
- Handoff.HandoffHasNoGap: events that a retention pass removes, and index files that a rebuild removes under a running query, are not modelled.
- Session.Connection.Gate: leaves out the limiter's own words after "rate-limited", and takes its verdict as a parameter.
- Session.Connection.HandlePublish: leaves out the store's own words after "error"; blob references added after storing are modelled in `BlobStore` only.
- RateLimit.CountNeverExceedsMaximum: a process that dies while holding the lock directory is not modelled.
- BlobStore.FileStore.StoreUpload: the temporary file and the crash between moving the blob and writing its metadata are not modelled.
- BlobRaces.UndisturbedRunsAreSafe: the walk that adds up an owner's usage is one step with the check, and so is removing a blob's files; reference files beside the metadata are not modelled there. A rebuild is modelled blob by blob: the references it adds back for the events on its list are edits of their own.
- Mirror.MirrorCursor.MirrorOnce: cursor mode only; with a fixed starting time a cycle may well move the cursor back, as the configuration asks.
- AppSupport.LoadAppSupport: reading and normalising profile files is not modelled; settings arrive with their merge kind.
- Breaking of stale mutation locks by process id or age, and lock timeouts of the store.
- HTTP handlers, JSON and YAML parsing, signatures and hashes, network, proxy, ping and idle timing of the mirror.
- The mirror's promise to fetch older events again after an aborted session, which the cursor does not make.
