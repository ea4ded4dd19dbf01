/** Blob requests beside each other. The blob store takes no lock: an upload reads the metadata and
    checks the quota, puts the blob file in place, and writes the metadata last; a change of references
    or owners reads the metadata and writes it later, too. A rebuild of the references takes its list of
    events first, and clears blob by blob afterwards; a prune reads the metadata of a blob and then
    removes it. */
module BlobRaces {
  import opened Outcomes
  import opened Sums
  import opened BlobStore

  /** What a request that edits metadata does to it. A rebuild clears the references; `known` are those
      the blob had when the rebuild took its list, before it read the metadata. */
  datatype Change = AddRef(id: string) | DropOwner(owner: string) | ClearRefs(known: set<string>)

  function Changed(m: BlobMeta, change: Change): BlobMeta {
    match change
    case AddRef(id) => m.(refs := m.refs + {id})
    case DropOwner(owner) => m.(owners := m.owners - {owner})
    case ClearRefs(_) => m.(refs := {})
  }

  /** What keeps a blob: an event that names it, or an owner. */
  datatype Claim = Ref(id: string) | Own(owner: string)

  predicate HasClaim(m: BlobMeta, claim: Claim) {
    match claim
    case Ref(id) => id in m.refs
    case Own(owner) => owner in m.owners
  }

  /** A request on one blob between its first look and its end. `disturbed` says that something has been
      written in between that it does not know of. */
  datatype Job =
    | Uploading(upload: Upload, existing: Option<BlobMeta>, now: nat, placed: bool, disturbed: bool)
    | Editing(hash: string, read: BlobMeta, change: Change, disturbed: bool)
    | Listing(hash: string, known: set<string>, disturbed: bool)
    | Pruning(hash: string, read: BlobMeta, disturbed: bool)
  {
    function Hash(): string {
      if Uploading? then upload.hash else hash
    }

    function Written(): BlobMeta
      requires Uploading? || Editing?
    {
      if Uploading? then MetaFor(existing, upload, now) else Changed(read, change)
    }

    function Owner(): Option<string> {
      if Uploading? then upload.owner else None
    }

    /** The claims it has seen: for a rebuild, the references there when it took its list. */
    predicate Knows(claim: Claim) {
      match this
      case Uploading(_, existing, _, _, _) => existing.Some? && HasClaim(existing.value, claim)
      case Editing(_, read, change, _) =>
        if change.ClearRefs? && claim.Ref? then claim.id in change.known else HasClaim(read, claim)
      case Listing(_, known, _) => claim.Ref? && claim.id in known
      case Pruning(_, read, _) => HasClaim(read, claim)
    }

    /** The claim it is there to make. */
    predicate Adds(claim: Claim) {
      || (Uploading? && upload.owner.Some? && claim == Own(upload.owner.value))
      || (Editing? && change.AddRef? && claim == Ref(change.id))
    }

    /** The claims it is there to drop: an owner's, the references a rebuild knows, or all that a prune has seen. */
    predicate MeansToDrop(claim: Claim) {
      || (Editing? && change.DropOwner? && claim == Own(change.owner))
      || (Editing? && change.ClearRefs? && claim.Ref? && claim.id in change.known)
      || (Pruning? && HasClaim(read, claim))
    }

    /** The claims the blob has when it ends. */
    predicate Leaves(claim: Claim) {
      (Uploading? || Editing?) && HasClaim(Written(), claim)
    }
  }

  datatype Files = Files(metas: Metas, blobs: set<string>, jobs: map<nat, Job>)

  datatype Step =
    | CheckUpload(p: nat, upload: Upload, now: nat)
    | PlaceBlob(p: nat)
    | ReadForEdit(p: nat, hash: string, change: Change)
    | TakeList(p: nat, hash: string)
    | ReadForClear(p: nat)
    | ReadForPrune(p: nat, hash: string)
    | WriteMeta(p: nat)
    | Discard(p: nat)

  predicate Starts(step: Step, p: nat) {
    (step.CheckUpload? || step.ReadForEdit? || step.TakeList? || step.ReadForPrune?) && step.p == p
  }

  predicate Ends(step: Step, p: nat) {
    (step.WriteMeta? || step.Discard?) && step.p == p
  }

  ghost predicate PassesCheck(limit: nat, metas: Metas, upload: Upload) {
    upload.owner.Some? ==> OwnedBytes(metas, upload.owner.value) + AdditionalIn(metas, upload) <= limit
  }

  /** An owner's claim that was the last one, on a blob without references, ends with the blob's removal. */
  ghost predicate Enabled(contentSize: string -> nat, limit: nat, s: Files, step: Step) {
    match step
    case CheckUpload(p, upload, _) => p !in s.jobs && upload.size == contentSize(upload.hash) && PassesCheck(limit, s.metas, upload)
    case PlaceBlob(p) => p in s.jobs && s.jobs[p].Uploading? && !s.jobs[p].placed
    case ReadForEdit(p, hash, change) =>
      && p !in s.jobs && hash in s.metas && !change.ClearRefs?
      && (change.DropOwner? ==> change.owner in s.metas[hash].owners)
    case TakeList(p, hash) => p !in s.jobs
    case ReadForClear(p) => p in s.jobs && s.jobs[p].Listing? && s.jobs[p].hash in s.metas
    case ReadForPrune(p, hash) => p !in s.jobs && hash in s.metas
    case WriteMeta(p) => p in s.jobs && (s.jobs[p].Editing? || (s.jobs[p].Uploading? && s.jobs[p].placed))
    case Discard(p) =>
      p in s.jobs &&
      (s.jobs[p].Pruning? || (s.jobs[p].Editing? && s.jobs[p].change.DropOwner? && Unclaimed(s.jobs[p].Written())))
  }

  predicate Unclaimed(m: BlobMeta) {
    m.owners == {} && m.refs == {}
  }

  /** A write of this blob's metadata, for this owner if for any, is one the job should have known of. */
  predicate Disturbs(hash: string, owner: Option<string>, job: Job) {
    hash == job.Hash() || (owner.Some? && owner == job.Owner())
  }

  function Noted(job: Job, hash: string, owner: Option<string>): Job {
    job.(disturbed := job.disturbed || Disturbs(hash, owner, job))
  }

  function NoteAll(jobs: map<nat, Job>, hash: string, owner: Option<string>): map<nat, Job> {
    map q | q in jobs :: Noted(jobs[q], hash, owner)
  }

  ghost function Do(contentSize: string -> nat, limit: nat, s: Files, step: Step): Files
    requires Enabled(contentSize, limit, s, step)
  {
    match step
    case CheckUpload(p, upload, now) =>
      s.(jobs := s.jobs[p := Uploading(upload, ExistingIn(s.metas, upload.hash), now, false, false)])
    case PlaceBlob(p) => s.(blobs := s.blobs + {s.jobs[p].Hash()}, jobs := s.jobs[p := s.jobs[p].(placed := true)])
    case ReadForEdit(p, hash, change) => s.(jobs := s.jobs[p := Editing(hash, s.metas[hash], change, false)])
    case TakeList(p, hash) =>
      s.(jobs := s.jobs[p := Listing(hash, if hash in s.metas then s.metas[hash].refs else {}, false)])
    case ReadForClear(p) =>
      var job := s.jobs[p];
      s.(jobs := s.jobs[p := Editing(job.hash, s.metas[job.hash], ClearRefs(job.known), job.disturbed)])
    case ReadForPrune(p, hash) => s.(jobs := s.jobs[p := Pruning(hash, s.metas[hash], false)])
    case WriteMeta(p) =>
      var job := s.jobs[p];
      s.(metas := s.metas[job.Hash() := job.Written()], jobs := NoteAll(s.jobs - {p}, job.Hash(), job.Owner()))
    case Discard(p) =>
      var hash := s.jobs[p].Hash();
      Files(s.metas - {hash}, s.blobs - {hash}, NoteAll(s.jobs - {p}, hash, None))
  }

  ghost predicate Moves(contentSize: string -> nat, limit: nat, s: Files, step: Step, t: Files) {
    Enabled(contentSize, limit, s, step) && t == Do(contentSize, limit, s, step)
  }

  ghost predicate Run(contentSize: string -> nat, limit: nat, trace: seq<Files>, steps: seq<Step>) {
    && |trace| == |steps| + 1
    && forall i :: 0 <= i < |steps| ==> Moves(contentSize, limit, trace[i], steps[i], trace[i + 1])
  }

  lemma MovesAt(contentSize: string -> nat, limit: nat, trace: seq<Files>, steps: seq<Step>, i: nat)
    requires Run(contentSize, limit, trace, steps) && i < |steps|
    ensures |trace| == |steps| + 1 && Moves(contentSize, limit, trace[i], steps[i], trace[i + 1])
  {
  }

  ghost predicate SizesKnown(contentSize: string -> nat, metas: Metas) {
    forall h :: h in metas ==> metas[h].size == contentSize(h)
  }

  /** No request under way, every blob known has its file, and nobody is over the quota. */
  ghost predicate AtRest(contentSize: string -> nat, limit: nat, s: Files) {
    SizesKnown(contentSize, s.metas) && WithinQuota(s.metas, limit) && s.metas.Keys <= s.blobs && s.jobs == map[]
  }

  // --------------------------------------------------------- single writes

  /** The steps of an upload, uninterrupted, write what the whole upload writes. */
  lemma StepsMakeAnUpload(contentSize: string -> nat, limit: nat, s: Files, p: nat, upload: Upload, now: nat)
    returns (trace: seq<Files>)
    requires Enabled(contentSize, limit, s, CheckUpload(p, upload, now))
    ensures Run(contentSize, limit, trace, [CheckUpload(p, upload, now), PlaceBlob(p), WriteMeta(p)]) && trace[0] == s
    ensures trace[3].metas == s.metas[upload.hash := MetaFor(ExistingIn(s.metas, upload.hash), upload, now)]
    ensures trace[3].blobs == s.blobs + {upload.hash} && trace[3].jobs == NoteAll(s.jobs, upload.hash, upload.owner)
  {
    var checked := Do(contentSize, limit, s, CheckUpload(p, upload, now));
    var placed := Do(contentSize, limit, checked, PlaceBlob(p));
    assert placed.jobs - {p} == s.jobs;
    trace := [s, checked, placed, Do(contentSize, limit, placed, WriteMeta(p))];
  }

  /** Writing metadata keeps the quota exactly when every owner it adds to the blob has room for it. */
  lemma WriteKeepsQuotaIff(metas: Metas, limit: nat, hash: string, m: BlobMeta)
    requires WithinQuota(metas, limit) && (hash in metas ==> metas[hash].size == m.size)
    ensures WithinQuota(metas[hash := m], limit) <==>
      forall o :: o in m.owners && !(hash in metas && o in metas[hash].owners) ==> OwnedBytes(metas, o) + m.size <= limit
  {
    var after := metas[hash := m];
    forall o ensures OwnedBytes(after, o) + OwnedSize(metas, o)(hash) == OwnedBytes(metas, o) + (if o in m.owners then m.size else 0) {
      UsageAfterWrite(metas, hash, m, o);
    }
    if forall o :: o in m.owners && !(hash in metas && o in metas[hash].owners) ==> OwnedBytes(metas, o) + m.size <= limit {
      forall o ensures OwnedBytes(after, o) <= limit {
        assert OwnedBytes(metas, o) <= limit;
      }
    }
    if WithinQuota(after, limit) {
      forall o | o in m.owners && !(hash in metas && o in metas[hash].owners) ensures OwnedBytes(metas, o) + m.size <= limit {
        assert OwnedBytes(after, o) <= limit;
      }
    }
  }

  lemma RemovalOwnsLess(metas: Metas, hash: string)
    ensures forall o :: OwnedBytes(metas - {hash}, o) <= OwnedBytes(metas, o)
    ensures forall limit :: WithinQuota(metas, limit) ==> WithinQuota(metas - {hash}, limit)
  {
    forall o ensures OwnedBytes(metas - {hash}, o) <= OwnedBytes(metas, o) {
      SetSumSame(OwnedSize(metas - {hash}, o), OwnedSize(metas, o), (metas - {hash}).Keys);
      SetSumGrows(OwnedSize(metas, o), (metas - {hash}).Keys, metas.Keys);
    }
    forall limit | WithinQuota(metas, limit) ensures WithinQuota(metas - {hash}, limit) {
      OwningLess(metas, metas - {hash}, limit);
    }
  }

  // ------------------------------------------------------- undisturbed runs

  /** The job has read what is there now, and an upload's check still holds. */
  ghost predicate JobCurrent(contentSize: string -> nat, limit: nat, s: Files, job: Job) {
    match job
    case Uploading(upload, existing, _, placed, _) =>
      && upload.size == contentSize(upload.hash)
      && existing == ExistingIn(s.metas, upload.hash) && PassesCheck(limit, s.metas, upload)
      && (placed ==> upload.hash in s.blobs)
    case Editing(hash, read, change, _) =>
      ExistingIn(s.metas, hash) == Some(read) && (change.ClearRefs? ==> change.known == read.refs)
    case Listing(hash, known, _) => hash in s.metas ==> known == s.metas[hash].refs
    case Pruning(hash, read, _) => ExistingIn(s.metas, hash) == Some(read)
  }

  ghost predicate Inv(contentSize: string -> nat, limit: nat, s: Files) {
    && SizesKnown(contentSize, s.metas) && WithinQuota(s.metas, limit) && s.metas.Keys <= s.blobs
    && forall q :: q in s.jobs && !s.jobs[q].disturbed ==> JobCurrent(contentSize, limit, s, s.jobs[q])
  }

  /** What the request would write if it read only now. */
  function Intended(metas: Metas, job: Job): BlobMeta
    requires job.Uploading? || (job.Editing? && job.hash in metas)
  {
    if job.Uploading? then MetaFor(ExistingIn(metas, job.upload.hash), job.upload, job.now) else Changed(metas[job.hash], job.change)
  }

  /** What an undisturbed write changes: it is what the request would write by itself now, and nobody but
      its own owner owns more than before. */
  lemma UndisturbedWrite(contentSize: string -> nat, limit: nat, s: Files, job: Job)
    requires SizesKnown(contentSize, s.metas) && WithinQuota(s.metas, limit) && JobCurrent(contentSize, limit, s, job)
    requires job.Uploading? || job.Editing?
    ensures job.Written() == Intended(s.metas, job)
    ensures var after := s.metas[job.Hash() := job.Written()];
      && SizesKnown(contentSize, after) && WithinQuota(after, limit)
      && forall o :: job.Owner() != Some(o) ==> OwnedBytes(after, o) <= OwnedBytes(s.metas, o)
  {
    var hash, m := job.Hash(), job.Written();
    WriteKeepsQuotaIff(s.metas, limit, hash, m);
    forall o | job.Owner() != Some(o) ensures OwnedBytes(s.metas[hash := m], o) <= OwnedBytes(s.metas, o) {
      UsageAfterWrite(s.metas, hash, m, o);
    }
  }

  /** A job that a change passes by stays current. */
  lemma PassedBy(contentSize: string -> nat, limit: nat, s: Files, t: Files, hash: string, owner: Option<string>, job: Job)
    requires JobCurrent(contentSize, limit, s, job) && !Disturbs(hash, owner, job)
    requires forall h :: h != hash ==> ExistingIn(t.metas, h) == ExistingIn(s.metas, h) && (h in s.blobs ==> h in t.blobs)
    requires forall o :: owner != Some(o) ==> OwnedBytes(t.metas, o) <= OwnedBytes(s.metas, o)
    ensures JobCurrent(contentSize, limit, t, job)
  {
    assert ExistingIn(t.metas, job.Hash()) == ExistingIn(s.metas, job.Hash());
  }

  lemma WriteKeepsInv(contentSize: string -> nat, limit: nat, s: Files, p: nat)
    requires Inv(contentSize, limit, s) && Enabled(contentSize, limit, s, WriteMeta(p)) && !s.jobs[p].disturbed
    ensures Inv(contentSize, limit, Do(contentSize, limit, s, WriteMeta(p)))
  {
    var job, t := s.jobs[p], Do(contentSize, limit, s, WriteMeta(p));
    UndisturbedWrite(contentSize, limit, s, job);
    forall q | q in t.jobs && !t.jobs[q].disturbed ensures JobCurrent(contentSize, limit, t, t.jobs[q]) {
      PassedBy(contentSize, limit, s, t, job.Hash(), job.Owner(), s.jobs[q]);
    }
  }

  lemma RemovalKeepsInv(contentSize: string -> nat, limit: nat, s: Files, hash: string, left: map<nat, Job>)
    requires Inv(contentSize, limit, s) && forall q :: q in left ==> q in s.jobs && left[q] == s.jobs[q]
    ensures Inv(contentSize, limit, Files(s.metas - {hash}, s.blobs - {hash}, NoteAll(left, hash, None)))
  {
    var t := Files(s.metas - {hash}, s.blobs - {hash}, NoteAll(left, hash, None));
    RemovalOwnsLess(s.metas, hash);
    forall q | q in t.jobs && !t.jobs[q].disturbed ensures JobCurrent(contentSize, limit, t, t.jobs[q]) {
      PassedBy(contentSize, limit, s, t, hash, None, s.jobs[q]);
    }
  }

  lemma InvStep(contentSize: string -> nat, limit: nat, s: Files, step: Step)
    requires Inv(contentSize, limit, s) && Enabled(contentSize, limit, s, step)
    requires step.WriteMeta? || step.Discard? ==> !s.jobs[step.p].disturbed
    ensures Inv(contentSize, limit, Do(contentSize, limit, s, step))
  {
    match step
    case WriteMeta(p) => WriteKeepsInv(contentSize, limit, s, p);
    case Discard(p) => RemovalKeepsInv(contentSize, limit, s, s.jobs[p].Hash(), s.jobs - {p});
    case _ =>
  }

  ghost predicate WritesAsIntended(s: Files, t: Files, job: Job) {
    (job.Uploading? || (job.Editing? && job.hash in s.metas)) && t.metas == s.metas[job.Hash() := Intended(s.metas, job)]
  }

  /** Every write and removal in the run is made by a job that nothing has disturbed since its first look. */
  ghost predicate Undisturbed(trace: seq<Files>, steps: seq<Step>) {
    forall i, p :: 0 <= i < |steps| < |trace| && Ends(steps[i], p) && p in trace[i].jobs ==> !trace[i].jobs[p].disturbed
  }

  /** In a run in which, between any request's first look and its end, nobody else writes or removes the
      same blob's metadata or writes an upload for the same owner: the quota holds at every moment, every
      blob known has its file, every write is what its request would write by itself then, and no claim
      is lost. */
  lemma {:induction false} UndisturbedRunsAreSafe(contentSize: string -> nat, limit: nat, trace: seq<Files>, steps: seq<Step>, i: nat)
    requires Run(contentSize, limit, trace, steps) && Undisturbed(trace, steps) && AtRest(contentSize, limit, trace[0]) && i < |trace|
    ensures Inv(contentSize, limit, trace[i])
    ensures WithinQuota(trace[i].metas, limit) && trace[i].metas.Keys <= trace[i].blobs
    ensures i < |steps| && steps[i].WriteMeta? ==>
      steps[i].p in trace[i].jobs && i + 1 < |trace| && WritesAsIntended(trace[i], trace[i + 1], trace[i].jobs[steps[i].p])
    ensures forall p, claim :: i < |steps| && Ends(steps[i], p) ==> !Loses(trace[i], p, claim)
  {
    if i > 0 {
      UndisturbedRunsAreSafe(contentSize, limit, trace, steps, i - 1);
      MovesAt(contentSize, limit, trace, steps, i - 1);
      assert steps[i - 1].WriteMeta? || steps[i - 1].Discard? ==> Ends(steps[i - 1], steps[i - 1].p);
      InvStep(contentSize, limit, trace[i - 1], steps[i - 1]);
      hide Inv, Do;
    }
    if i < |steps| {
      MovesAt(contentSize, limit, trace, steps, i);
      forall p | Ends(steps[i], p) {
        EndOfUndisturbed(contentSize, limit, trace[i], steps[i], p);
      }
    }
  }

  lemma EndOfUndisturbed(contentSize: string -> nat, limit: nat, s: Files, step: Step, p: nat)
    requires Inv(contentSize, limit, s) && Enabled(contentSize, limit, s, step) && Ends(step, p) && !s.jobs[p].disturbed
    ensures step.WriteMeta? ==> WritesAsIntended(s, Do(contentSize, limit, s, step), s.jobs[p])
    ensures forall claim :: !Loses(s, p, claim)
  {
    if step.WriteMeta? {
      UndisturbedWrite(contentSize, limit, s, s.jobs[p]);
    }
  }

  /** A claim on the blob. */
  predicate ClaimAt(s: Files, hash: string, claim: Claim) {
    hash in s.metas && HasClaim(s.metas[hash], claim)
  }

  /** Ending the job takes a claim from the blob that the job is not there to take. */
  predicate Loses(s: Files, p: nat, claim: Claim) {
    p in s.jobs && ClaimAt(s, s.jobs[p].Hash(), claim) && !s.jobs[p].Leaves(claim) && !s.jobs[p].MeansToDrop(claim)
  }

  /** Ending the job gives the blob a claim that the job is not there to give. */
  predicate Revives(s: Files, p: nat, claim: Claim) {
    p in s.jobs && !ClaimAt(s, s.jobs[p].Hash(), claim) && s.jobs[p].Leaves(claim) && !s.jobs[p].Adds(claim)
  }

  // ------------------------------------------------------------- the quota

  /** Every owner that the job's write adds to its blob has room for it now. */
  ghost predicate FindsRoom(limit: nat, metas: Metas, job: Job)
    requires job.Uploading? || job.Editing?
  {
    forall o :: o in job.Written().owners && !(job.Hash() in metas && o in metas[job.Hash()].owners) ==>
      OwnedBytes(metas, o) + job.Written().size <= limit
  }

  ghost predicate HasRoom(limit: nat, s: Files, p: nat) {
    p in s.jobs && (s.jobs[p].Uploading? || s.jobs[p].Editing?) && FindsRoom(limit, s.metas, s.jobs[p])
  }

  predicate SizeKnown(contentSize: string -> nat, job: Job) {
    match job
    case Uploading(upload, _, _, _, _) => upload.size == contentSize(upload.hash)
    case Editing(hash, read, _, _) => read.size == contentSize(hash)
    case _ => true
  }

  ghost predicate AllSizesKnown(contentSize: string -> nat, s: Files) {
    SizesKnown(contentSize, s.metas) && forall q :: q in s.jobs ==> SizeKnown(contentSize, s.jobs[q])
  }

  lemma {:induction false} SizesStayKnown(contentSize: string -> nat, limit: nat, trace: seq<Files>, steps: seq<Step>, i: nat)
    requires Run(contentSize, limit, trace, steps) && i < |trace|
    requires SizesKnown(contentSize, trace[0].metas) && trace[0].jobs == map[]
    ensures AllSizesKnown(contentSize, trace[i])
  {
    if i > 0 {
      SizesStayKnown(contentSize, limit, trace, steps, i - 1);
      MovesAt(contentSize, limit, trace, steps, i - 1);
      SizesStep(contentSize, limit, trace[i - 1], steps[i - 1]);
      hide Enabled, Do, AllSizesKnown;
    }
  }

  lemma SizesStep(contentSize: string -> nat, limit: nat, s: Files, step: Step)
    requires AllSizesKnown(contentSize, s) && Enabled(contentSize, limit, s, step)
    ensures AllSizesKnown(contentSize, Do(contentSize, limit, s, step))
  {
  }

  lemma StepKeepsQuotaIff(contentSize: string -> nat, limit: nat, s: Files, step: Step)
    requires Enabled(contentSize, limit, s, step) && AllSizesKnown(contentSize, s) && WithinQuota(s.metas, limit)
    ensures WithinQuota(Do(contentSize, limit, s, step).metas, limit) <==>
      (step.WriteMeta? ==> FindsRoom(limit, s.metas, s.jobs[step.p]))
  {
    match step
    case WriteMeta(p) => WriteKeepsQuotaIff(s.metas, limit, s.jobs[p].Hash(), s.jobs[p].Written());
    case Discard(p) => RemovalOwnsLess(s.metas, s.jobs[p].Hash());
    case _ =>
  }

  /** In any run, however its requests overlap, the quota holds throughout exactly when every write still
      finds room for the owners it adds. */
  lemma QuotaHoldsIff(contentSize: string -> nat, limit: nat, trace: seq<Files>, steps: seq<Step>)
    requires Run(contentSize, limit, trace, steps) && AtRest(contentSize, limit, trace[0])
    ensures (forall i :: 0 <= i < |trace| ==> WithinQuota(trace[i].metas, limit)) <==>
      (forall i :: 0 <= i < |steps| && steps[i].WriteMeta? ==> HasRoom(limit, trace[i], steps[i].p))
  {
    if forall i :: 0 <= i < |trace| ==> WithinQuota(trace[i].metas, limit) {
      forall i | 0 <= i < |steps| && steps[i].WriteMeta? ensures HasRoom(limit, trace[i], steps[i].p) {
        SizesStayKnown(contentSize, limit, trace, steps, i);
        MovesAt(contentSize, limit, trace, steps, i);
        assert WithinQuota(trace[i].metas, limit) && WithinQuota(trace[i + 1].metas, limit);
        StepKeepsQuotaIff(contentSize, limit, trace[i], steps[i]);
      }
    } else {
      var i :| 0 <= i < |trace| && !WithinQuota(trace[i].metas, limit);
      var _ := FirstOverrun(contentSize, limit, trace, steps, i);
    }
  }

  /** The write that first went over. */
  lemma {:induction false} FirstOverrun(contentSize: string -> nat, limit: nat, trace: seq<Files>, steps: seq<Step>, i: nat)
    returns (k: nat)
    requires Run(contentSize, limit, trace, steps) && AtRest(contentSize, limit, trace[0])
    requires i < |trace| && !WithinQuota(trace[i].metas, limit)
    ensures k < i && steps[k].WriteMeta? && !HasRoom(limit, trace[k], steps[k].p)
  {
    if WithinQuota(trace[i - 1].metas, limit) {
      k := i - 1;
      SizesStayKnown(contentSize, limit, trace, steps, k);
      MovesAt(contentSize, limit, trace, steps, k);
      StepKeepsQuotaIff(contentSize, limit, trace[k], steps[k]);
    } else {
      k := FirstOverrun(contentSize, limit, trace, steps, i - 1);
    }
  }

  /** Two uploads for one owner that are both checked before either is written keep the quota exactly
      when there is room for both. Each by itself passed its check. */
  lemma OverlapKeepsQuotaIff(contentSize: string -> nat, limit: nat, metas: Metas, u: Upload, v: Upload, now: nat)
    requires SizesKnown(contentSize, metas) && WithinQuota(metas, limit)
    requires u.size == contentSize(u.hash) && v.size == contentSize(v.hash) && u.hash != v.hash
    requires u.owner.Some? && u.owner == v.owner && PassesCheck(limit, metas, u) && PassesCheck(limit, metas, v)
    ensures var after := metas[u.hash := MetaFor(ExistingIn(metas, u.hash), u, now)][v.hash := MetaFor(ExistingIn(metas, v.hash), v, now)];
      WithinQuota(after, limit) <==>
        OwnedBytes(metas, u.owner.value) + AdditionalIn(metas, u) + AdditionalIn(metas, v) <= limit
  {
    var o := u.owner.value;
    var mu, mv := MetaFor(ExistingIn(metas, u.hash), u, now), MetaFor(ExistingIn(metas, v.hash), v, now);
    var once := metas[u.hash := mu];
    UndisturbedWrite(contentSize, limit, Files(metas, {}, map[]), Uploading(u, ExistingIn(metas, u.hash), now, false, false));
    UsageAfterWrite(metas, u.hash, mu, o);
    UsageAfterWrite(once, v.hash, mv, o);
    WriteKeepsQuotaIff(once, limit, v.hash, mv);
    assert WithinQuota(once[v.hash := mv], limit) ==> OwnedBytes(once[v.hash := mv], o) <= limit;
  }

  // ---------------------------------------------------------------- claims

  /** Step `m` is where the job that step `i` ends looked for this claim last: its start, or, for the owners
      of a blob whose references a rebuild clears, the reading of the metadata. */
  ghost predicate Looked(steps: seq<Step>, m: nat, i: nat, p: nat, claim: Claim) {
    && m < i < |steps| && Ends(steps[i], p)
    && Looks(steps[m], p, claim)
    && forall j :: m < j < i ==> !Ends(steps[j], p)
  }

  /** The claim was made after the job looked, by someone else. */
  ghost predicate Missed(trace: seq<Files>, m: nat, i: nat, p: nat, claim: Claim)
    requires m < i < |trace|
  {
    p in trace[i].jobs && !trace[i].jobs[p].Adds(claim)
    && !ClaimAt(trace[m], trace[i].jobs[p].Hash(), claim) && ClaimAt(trace[i], trace[i].jobs[p].Hash(), claim)
  }

  /** The claim was dropped after the job looked, by someone else. */
  ghost predicate Outdated(trace: seq<Files>, m: nat, i: nat, p: nat, claim: Claim)
    requires m < i < |trace|
  {
    p in trace[i].jobs && !trace[i].jobs[p].Adds(claim) && !trace[i].jobs[p].MeansToDrop(claim)
    && ClaimAt(trace[m], trace[i].jobs[p].Hash(), claim) && !ClaimAt(trace[i], trace[i].jobs[p].Hash(), claim)
  }

  /** The job has looked for this claim, and will not look again. */
  predicate HasLooked(job: Job, claim: Claim) {
    job.Listing? ==> claim.Ref?
  }

  predicate DropsOnlyKnown(job: Job, claim: Claim) {
    job.MeansToDrop(claim) ==> job.Knows(claim)
  }

  lemma JobStays(contentSize: string -> nat, limit: nat, s: Files, step: Step, t: Files, p: nat, claim: Claim)
    requires Moves(contentSize, limit, s, step, t) && p in s.jobs && !Ends(step, p)
    requires HasLooked(s.jobs[p], claim) && DropsOnlyKnown(s.jobs[p], claim)
    ensures p in t.jobs && t.jobs[p].Hash() == s.jobs[p].Hash()
    ensures HasLooked(t.jobs[p], claim) && DropsOnlyKnown(t.jobs[p], claim)
    ensures t.jobs[p].Knows(claim) == s.jobs[p].Knows(claim)
  {
  }

  /** The step is where job `p` looks for the claim. */
  predicate Looks(step: Step, p: nat, claim: Claim) {
    if claim.Own? then (Starts(step, p) && !step.TakeList?) || step == ReadForClear(p) else Starts(step, p)
  }

  lemma JobLooks(contentSize: string -> nat, limit: nat, s: Files, step: Step, t: Files, p: nat, claim: Claim)
    requires Moves(contentSize, limit, s, step, t) && Looks(step, p, claim)
    ensures p in t.jobs && HasLooked(t.jobs[p], claim) && DropsOnlyKnown(t.jobs[p], claim)
    ensures t.jobs[p].Knows(claim) == ClaimAt(s, t.jobs[p].Hash(), claim)
  {
  }

  /** What a job knows is what was there when it looked. */
  lemma {:induction false} KnowsWhatWasThere(contentSize: string -> nat, limit: nat, trace: seq<Files>, steps: seq<Step>, m: nat, i: nat,
      p: nat, claim: Claim)
    requires Run(contentSize, limit, trace, steps) && m < i <= |steps| && Looks(steps[m], p, claim)
    requires forall j :: m < j < i ==> !Ends(steps[j], p)
    ensures p in trace[i].jobs && HasLooked(trace[i].jobs[p], claim) && DropsOnlyKnown(trace[i].jobs[p], claim)
    ensures trace[i].jobs[p].Knows(claim) == ClaimAt(trace[m], trace[i].jobs[p].Hash(), claim)
  {
    hide Run, Moves, ClaimAt, HasLooked, DropsOnlyKnown, Looks;
    MovesAt(contentSize, limit, trace, steps, i - 1);
    if i == m + 1 {
      JobLooks(contentSize, limit, trace[m], steps[m], trace[i], p, claim);
    } else {
      KnowsWhatWasThere(contentSize, limit, trace, steps, m, i - 1, p, claim);
      JobStays(contentSize, limit, trace[i - 1], steps[i - 1], trace[i], p, claim);
    }
  }

  /** Every job that has looked did so in the run. */
  lemma {:induction false} LookedInRun(contentSize: string -> nat, limit: nat, trace: seq<Files>, steps: seq<Step>, i: nat, p: nat, claim: Claim)
    returns (m: nat)
    requires Run(contentSize, limit, trace, steps) && trace[0].jobs == map[] && i < |trace|
    requires p in trace[i].jobs && HasLooked(trace[i].jobs[p], claim)
    ensures m < i && Looks(steps[m], p, claim) && forall j :: m < j < i ==> !Ends(steps[j], p)
  {
    assert i > 0;
    MovesAt(contentSize, limit, trace, steps, i - 1);
    if Looks(steps[i - 1], p, claim) {
      m := i - 1;
    } else {
      LookedBefore(contentSize, limit, trace[i - 1], steps[i - 1], trace[i], p, claim);
      hide Moves, Looks, HasLooked;
      m := LookedInRun(contentSize, limit, trace, steps, i - 1, p, claim);
    }
  }

  lemma LookedBefore(contentSize: string -> nat, limit: nat, s: Files, step: Step, t: Files, p: nat, claim: Claim)
    requires Moves(contentSize, limit, s, step, t) && p in t.jobs && HasLooked(t.jobs[p], claim) && !Looks(step, p, claim)
    ensures p in s.jobs && HasLooked(s.jobs[p], claim) && !Ends(step, p)
  {
  }

  /** A job that ends leaves what it knows, without what it means to drop, and with what it adds. */
  lemma LeavesWhatItShould(contentSize: string -> nat, limit: nat, s: Files, step: Step, t: Files, p: nat, claim: Claim)
    requires Moves(contentSize, limit, s, step, t) && Ends(step, p)
    ensures p in s.jobs && HasLooked(s.jobs[p], claim)
    ensures s.jobs[p].Leaves(claim) <==> (s.jobs[p].Knows(claim) && !s.jobs[p].MeansToDrop(claim)) || s.jobs[p].Adds(claim)
    ensures ClaimAt(t, s.jobs[p].Hash(), claim) <==> s.jobs[p].Leaves(claim)
  {
  }

  /** The end of any job, whether it uploads, edits, clears or prunes: it takes away a claim it is not there
      to take exactly when the claim was made since it looked, and gives one it is not there to give
      exactly when the claim was dropped since it looked. */
  lemma LosesIffMissed(contentSize: string -> nat, limit: nat, trace: seq<Files>, steps: seq<Step>, m: nat, i: nat, p: nat, claim: Claim)
    requires Run(contentSize, limit, trace, steps) && Looked(steps, m, i, p, claim)
    ensures Loses(trace[i], p, claim) <==> Missed(trace, m, i, p, claim)
    ensures Revives(trace[i], p, claim) <==> Outdated(trace, m, i, p, claim)
  {
    KnowsWhatWasThere(contentSize, limit, trace, steps, m, i, p, claim);
    MovesAt(contentSize, limit, trace, steps, i);
    LeavesWhatItShould(contentSize, limit, trace[i], steps[i], trace[i + 1], p, claim);
    hide Run, Moves, ClaimAt;
  }

  /** In any run, no claim is lost, neither a reference nor an owner's, exactly when at the end of every job
      nobody has made a claim that it missed. */
  lemma NoClaimLostIff(contentSize: string -> nat, limit: nat, trace: seq<Files>, steps: seq<Step>)
    requires Run(contentSize, limit, trace, steps) && trace[0].jobs == map[]
    ensures (forall i, p, claim :: 0 <= i < |steps| && Ends(steps[i], p) ==> !Loses(trace[i], p, claim)) <==>
      (forall m, i, p, claim :: Looked(steps, m, i, p, claim) ==> !Missed(trace, m, i, p, claim))
  {
    if forall i, p, claim :: 0 <= i < |steps| && Ends(steps[i], p) ==> !Loses(trace[i], p, claim) {
      forall m, i, p, claim | Looked(steps, m, i, p, claim) ensures !Missed(trace, m, i, p, claim) {
        LosesIffMissed(contentSize, limit, trace, steps, m, i, p, claim);
      }
    } else {
      var i, p, claim :| 0 <= i < |steps| && Ends(steps[i], p) && Loses(trace[i], p, claim);
      var m := EndLooked(contentSize, limit, trace, steps, i, p, claim);
      LosesIffMissed(contentSize, limit, trace, steps, m, i, p, claim);
    }
  }

  lemma EndLooked(contentSize: string -> nat, limit: nat, trace: seq<Files>, steps: seq<Step>, i: nat, p: nat, claim: Claim)
    returns (m: nat)
    requires Run(contentSize, limit, trace, steps) && trace[0].jobs == map[] && i < |steps| && Ends(steps[i], p)
    ensures Looked(steps, m, i, p, claim)
  {
    MovesAt(contentSize, limit, trace, steps, i);
    LeavesWhatItShould(contentSize, limit, trace[i], steps[i], trace[i + 1], p, claim);
    m := LookedInRun(contentSize, limit, trace, steps, i, p, claim);
    hide Run, Moves;
  }

  /** The claim ought to be on the blob after the job: because the job adds it, or it is there and not to be dropped. */
  predicate Due(s: Files, p: nat, claim: Claim) {
    p in s.jobs && (s.jobs[p].Adds(claim) || (ClaimAt(s, s.jobs[p].Hash(), claim) && !s.jobs[p].MeansToDrop(claim)))
  }

  ghost predicate EndsAsDue(trace: seq<Files>, i: nat, p: nat, claim: Claim) {
    && i + 1 < |trace| && p in trace[i].jobs
    && (ClaimAt(trace[i + 1], trace[i].jobs[p].Hash(), claim) <==> Due(trace[i], p, claim))
  }

  /** In any run, every job leaves exactly the claims that it would leave if it ran by itself at its end,
      exactly when its looking is still current then, but for what it is there to add or drop. */
  lemma ClaimsAlwaysDueIff(contentSize: string -> nat, limit: nat, trace: seq<Files>, steps: seq<Step>)
    requires Run(contentSize, limit, trace, steps) && trace[0].jobs == map[]
    ensures (forall i: nat, p, claim :: i < |steps| && Ends(steps[i], p) ==> EndsAsDue(trace, i, p, claim)) <==>
      (forall m, i, p, claim :: Looked(steps, m, i, p, claim) ==>
         !Missed(trace, m, i, p, claim) && !Outdated(trace, m, i, p, claim))
  {
    forall m, i, p, claim | Looked(steps, m, i, p, claim)
      ensures EndsAsDue(trace, i, p, claim) <==> !Missed(trace, m, i, p, claim) && !Outdated(trace, m, i, p, claim)
    {
      DueIff(contentSize, limit, trace, steps, m, i, p, claim);
    }
    if !(forall i: nat, p, claim :: i < |steps| && Ends(steps[i], p) ==> EndsAsDue(trace, i, p, claim)) {
      var i: nat, p, claim :| i < |steps| && Ends(steps[i], p) && !EndsAsDue(trace, i, p, claim);
      var m := EndLooked(contentSize, limit, trace, steps, i, p, claim);
      assert Looked(steps, m, i, p, claim);
    }
    hide Run, EndsAsDue, Missed, Outdated;
  }

  lemma DueIff(contentSize: string -> nat, limit: nat, trace: seq<Files>, steps: seq<Step>, m: nat, i: nat, p: nat, claim: Claim)
    requires Run(contentSize, limit, trace, steps) && Looked(steps, m, i, p, claim)
    ensures i < |trace| && (EndsAsDue(trace, i, p, claim) <==>
      !Missed(trace, m, i, p, claim) && !Outdated(trace, m, i, p, claim))
  {
    LosesIffMissed(contentSize, limit, trace, steps, m, i, p, claim);
    MovesAt(contentSize, limit, trace, steps, i);
    LeavesWhatItShould(contentSize, limit, trace[i], steps[i], trace[i + 1], p, claim);
    hide Run, Moves, ClaimAt, Missed, Outdated;
  }

  /** A claim that was not there and is there now was written in between. */
  lemma {:induction false} MadeBetween(contentSize: string -> nat, limit: nat, trace: seq<Files>, steps: seq<Step>, m: nat, i: nat,
      hash: string, claim: Claim) returns (k: nat)
    requires Run(contentSize, limit, trace, steps) && m < i < |trace|
    requires !ClaimAt(trace[m], hash, claim) && ClaimAt(trace[i], hash, claim)
    ensures m <= k < i && steps[k].WriteMeta? && !ClaimAt(trace[k], hash, claim) && ClaimAt(trace[k + 1], hash, claim)
  {
    MovesAt(contentSize, limit, trace, steps, i - 1);
    if !ClaimAt(trace[i - 1], hash, claim) {
      k := i - 1;
    } else {
      k := MadeBetween(contentSize, limit, trace, steps, m, i - 1, hash, claim);
    }
  }

  // ------------------------------------------------------------ blob files

  ghost predicate Removes(s: Files, step: Step, hash: string) {
    step.Discard? && step.p in s.jobs && s.jobs[step.p].Hash() == hash
  }

  ghost predicate Places(s: Files, step: Step, hash: string) {
    step.PlaceBlob? && step.p in s.jobs && s.jobs[step.p].Hash() == hash
  }

  lemma BlobFileStep(contentSize: string -> nat, limit: nat, s: Files, step: Step, t: Files, hash: string)
    requires Moves(contentSize, limit, s, step, t)
    ensures hash in t.blobs <==> Places(s, step, hash) || (hash in s.blobs && !Removes(s, step, hash))
  {
  }

  /** A blob file that was there is there exactly when every removal since has been made up for. */
  lemma {:induction false} FileThereIff(contentSize: string -> nat, limit: nat, trace: seq<Files>, steps: seq<Step>, c: nat, i: nat, hash: string)
    requires Run(contentSize, limit, trace, steps) && c <= i < |trace| && hash in trace[c].blobs
    ensures hash in trace[i].blobs <==>
      forall k :: c <= k < i && Removes(trace[k], steps[k], hash) ==> exists j :: k < j < i && Places(trace[j], steps[j], hash)
  {
    if c < i {
      FileThereIff(contentSize, limit, trace, steps, c, i - 1, hash);
      MovesAt(contentSize, limit, trace, steps, i - 1);
      BlobFileStep(contentSize, limit, trace[i - 1], steps[i - 1], trace[i], hash);
      hide Moves, Run, Removes, Places;
      if Places(trace[i - 1], steps[i - 1], hash) {
        NotBoth(trace[i - 1], steps[i - 1], hash);
        assert forall k :: c <= k < i && Removes(trace[k], steps[k], hash) ==> k < i - 1;
      } else if hash in trace[i].blobs {
        assert !Removes(trace[i - 1], steps[i - 1], hash);
      }
    }
  }

  lemma NotBoth(s: Files, step: Step, hash: string)
    ensures !(Places(s, step, hash) && Removes(s, step, hash))
  {
  }

  /** In any run, every blob known has its file at every moment exactly when every write finds its blob's
      file in place. */
  lemma KnownBlobsHaveFilesIff(contentSize: string -> nat, limit: nat, trace: seq<Files>, steps: seq<Step>)
    requires Run(contentSize, limit, trace, steps) && trace[0].metas.Keys <= trace[0].blobs
    ensures (forall i :: 0 <= i < |trace| ==> trace[i].metas.Keys <= trace[i].blobs) <==>
      (forall i :: 0 <= i < |steps| && steps[i].WriteMeta? && steps[i].p in trace[i].jobs ==>
         trace[i].jobs[steps[i].p].Hash() in trace[i].blobs)
  {
    if forall i :: 0 <= i < |trace| ==> trace[i].metas.Keys <= trace[i].blobs {
      forall i | 0 <= i < |steps| && steps[i].WriteMeta? && steps[i].p in trace[i].jobs
        ensures trace[i].jobs[steps[i].p].Hash() in trace[i].blobs
      {
        MovesAt(contentSize, limit, trace, steps, i);
        assert trace[i + 1].metas.Keys <= trace[i + 1].blobs;
      }
    } else {
      var i :| 0 <= i < |trace| && !(trace[i].metas.Keys <= trace[i].blobs);
      var _ := FirstOrphan(contentSize, limit, trace, steps, i);
    }
  }

  lemma {:induction false} FirstOrphan(contentSize: string -> nat, limit: nat, trace: seq<Files>, steps: seq<Step>, i: nat)
    returns (k: nat)
    requires Run(contentSize, limit, trace, steps) && trace[0].metas.Keys <= trace[0].blobs
    requires i < |trace| && !(trace[i].metas.Keys <= trace[i].blobs)
    ensures k < i && steps[k].WriteMeta? && steps[k].p in trace[k].jobs && trace[k].jobs[steps[k].p].Hash() !in trace[k].blobs
  {
    MovesAt(contentSize, limit, trace, steps, i - 1);
    if trace[i - 1].metas.Keys <= trace[i - 1].blobs {
      k := i - 1;
    } else {
      k := FirstOrphan(contentSize, limit, trace, steps, i - 1);
    }
  }

  // --------------------------------------------------------- what may go wrong

  function Blob(hash: string, size: nat, owners: set<string>): BlobMeta {
    BlobMeta(hash, size, "", 0, None, owners, {}, None)
  }

  lemma Begun(contentSize: string -> nat, limit: nat, s: Files)
    ensures Run(contentSize, limit, [s], [])
  {
  }

  /** A run one step longer. */
  lemma Then(contentSize: string -> nat, limit: nat, trace: seq<Files>, steps: seq<Step>, step: Step)
    returns (longer: seq<Files>, more: seq<Step>)
    requires Run(contentSize, limit, trace, steps) && Enabled(contentSize, limit, trace[|steps|], step)
    ensures Run(contentSize, limit, longer, more) && more == steps + [step] && |longer| == |trace| + 1
    ensures forall i :: 0 <= i < |trace| ==> longer[i] == trace[i]
    ensures longer[|trace|] == Do(contentSize, limit, trace[|steps|], step)
  {
    more := steps + [step];
    longer := trace + [Do(contentSize, limit, trace[|steps|], step)];
    hide Enabled, Do;
    forall i | 0 <= i < |more| ensures Moves(contentSize, limit, longer[i], more[i], longer[i + 1]) {
      if i < |steps| {
        assert Moves(contentSize, limit, trace[i], steps[i], trace[i + 1]);
      }
    }
  }

  /** Two uploads, each as large as the quota, both checked before either is written. */
  lemma RaceExceedsQuota(limit: nat) returns (contentSize: string -> nat, trace: seq<Files>, steps: seq<Step>)
    requires limit > 0
    ensures Run(contentSize, limit, trace, steps) && |steps| == 6 && AtRest(contentSize, limit, trace[0])
    ensures !WithinQuota(trace[6].metas, limit)
  {
    contentSize := _ => limit;
    var u := Upload("a", limit, None, "", Some("alice"), None);
    var v := Upload("b", limit, None, "", Some("alice"), None);
    assert u.hash[0] != v.hash[0];
    var s := Files(map[], {}, map[]);
    forall o ensures OwnedBytes(s.metas, o) == 0 {
    }
    OverlapKeepsQuotaIff(contentSize, limit, s.metas, u, v, 0);
    hide OwnedBytes, WithinQuota, Run;
    Begun(contentSize, limit, s);
    trace, steps := Then(contentSize, limit, [s], [], CheckUpload(0, u, 0));
    trace, steps := Then(contentSize, limit, trace, steps, CheckUpload(1, v, 0));
    trace, steps := Then(contentSize, limit, trace, steps, PlaceBlob(0));
    trace, steps := Then(contentSize, limit, trace, steps, PlaceBlob(1));
    trace, steps := Then(contentSize, limit, trace, steps, WriteMeta(0));
    trace, steps := Then(contentSize, limit, trace, steps, WriteMeta(1));
  }

  /** One upload, undisturbed, is enough: a stale edit brings back an owner's claim that was dropped since it
      read, after that owner has used the room again. */
  lemma RaceRevivesOwner(limit: nat, id: string) returns (contentSize: string -> nat, trace: seq<Files>, steps: seq<Step>)
    requires limit > 0
    ensures Run(contentSize, limit, trace, steps) && |steps| == 7 && AtRest(contentSize, limit, trace[0])
    ensures steps[5] == WriteMeta(2) && 2 in trace[5].jobs && trace[5].jobs[2].Uploading? && !trace[5].jobs[2].disturbed
    ensures forall i :: 0 <= i < 7 && steps[i].CheckUpload? ==> steps[i].p == 2
    ensures !WithinQuota(trace[7].metas, limit)
  {
    contentSize := _ => limit;
    var m, v := Blob("a", limit, {"alice"}), Upload("b", limit, None, "", Some("alice"), None);
    var s := Files(map["a" := m], {"a"}, map[]);
    AliceFull(contentSize, limit, m, id, v);
    hide *;
    trace, steps := ClaimDropped(contentSize, limit, m, id, s);
    trace, steps := RoomUsedAgain(contentSize, limit, m, id, v, trace, steps);
    trace, steps := ClaimRevived(contentSize, limit, m, id, trace, steps);
  }

  /** Alice's blob fills the quota; without her claim another one fits, and both together do not. */
  lemma AliceFull(contentSize: string -> nat, limit: nat, m: BlobMeta, id: string, v: Upload)
    requires limit > 0 && contentSize("a") == limit && m == Blob("a", limit, {"alice"})
    requires v == Upload("b", limit, None, "", Some("alice"), None)
    ensures AtRest(contentSize, limit, Files(map["a" := m], {"a"}, map[]))
    ensures PassesCheck(limit, map["a" := m.(owners := {})], v)
    ensures !WithinQuota(map["a" := m.(owners := {})]["b" := MetaFor(None, v, 0)]["a" := Changed(m, AddRef(id))], limit)
  {
    OneBlob("a", m);
    OneBlob("a", m.(owners := {}));
    assert "a"[0] != v.hash[0];
    TwoBlobs("a", m.(owners := {}), Changed(m, AddRef(id)), "b", MetaFor(None, v, 0), "alice", limit);
  }

  lemma ClaimRevived(contentSize: string -> nat, limit: nat, m: BlobMeta, id: string, before: seq<Files>, done: seq<Step>)
    returns (trace: seq<Files>, steps: seq<Step>)
    requires Run(contentSize, limit, before, done) && before[|done|].jobs == map[0 := Editing("a", m, AddRef(id), true)]
    ensures Run(contentSize, limit, trace, steps) && steps == done + [WriteMeta(0)]
    ensures forall i :: 0 <= i <= |done| ==> trace[i] == before[i]
    ensures trace[|steps|].metas == before[|done|].metas["a" := Changed(m, AddRef(id))]
  {
    trace, steps := Then(contentSize, limit, before, done, WriteMeta(0));
    hide Moves;
  }

  lemma ClaimDropped(contentSize: string -> nat, limit: nat, m: BlobMeta, id: string, s: Files)
    returns (trace: seq<Files>, steps: seq<Step>)
    requires m.owners == {"alice"} && m.refs == {} && s == Files(map["a" := m], {"a"}, map[])
    ensures Run(contentSize, limit, trace, steps) && trace[0] == s
    ensures steps == [ReadForEdit(0, "a", AddRef(id)), ReadForEdit(1, "a", DropOwner("alice")), WriteMeta(1)]
    ensures trace[3] == Files(map["a" := m.(owners := {})], {"a"}, map[0 := Editing("a", m, AddRef(id), true)])
  {
    Begun(contentSize, limit, s);
    hide Run;
    trace, steps := Then(contentSize, limit, [s], [], ReadForEdit(0, "a", AddRef(id)));
    trace, steps := Then(contentSize, limit, trace, steps, ReadForEdit(1, "a", DropOwner("alice")));
    assert trace[2].jobs - {1} == map[0 := Editing("a", m, AddRef(id), false)];
    assert m.owners - {"alice"} == {};
    trace, steps := Then(contentSize, limit, trace, steps, WriteMeta(1));
  }

  lemma RoomUsedAgain(contentSize: string -> nat, limit: nat, m: BlobMeta, id: string, v: Upload, before: seq<Files>, done: seq<Step>)
    returns (trace: seq<Files>, steps: seq<Step>)
    requires Run(contentSize, limit, before, done) && |done| == 3
    requires before[3] == Files(map["a" := m.(owners := {})], {"a"}, map[0 := Editing("a", m, AddRef(id), true)])
    requires v.hash == "b" && v.size == contentSize("b") && PassesCheck(limit, before[3].metas, v)
    ensures Run(contentSize, limit, trace, steps) && trace[0] == before[0]
    ensures steps == done + [CheckUpload(2, v, 0), PlaceBlob(2), WriteMeta(2)]
    ensures 2 in trace[5].jobs && trace[5].jobs[2].Uploading? && !trace[5].jobs[2].disturbed
    ensures trace[6].metas == map["a" := m.(owners := {})]["b" := MetaFor(None, v, 0)]
    ensures trace[6].jobs == map[0 := Editing("a", m, AddRef(id), true)]
  {
    assert "a"[0] != v.hash[0];
    hide Run, PassesCheck;
    trace, steps := Then(contentSize, limit, before, done, CheckUpload(2, v, 0));
    trace, steps := Then(contentSize, limit, trace, steps, PlaceBlob(2));
    assert trace[5].jobs - {2} == before[3].jobs;
    trace, steps := Then(contentSize, limit, trace, steps, WriteMeta(2));
  }

  lemma OneBlob(hash: string, m: BlobMeta)
    ensures forall o :: OwnedBytes(map[hash := m], o) == if o in m.owners then m.size else 0
  {
    forall o ensures OwnedBytes(map[hash := m], o) == if o in m.owners then m.size else 0 {
      UsageAfterWrite(map[], hash, m, o);
    }
  }

  lemma TwoBlobs(a: string, was: BlobMeta, m: BlobMeta, b: string, n: BlobMeta, o: string, limit: nat)
    requires a != b && o in m.owners && o in n.owners && m.size + n.size > limit
    ensures !WithinQuota(map[a := was][b := n][a := m], limit)
  {
    OneBlob(b, n);
    UsageAfterWrite(map[b := n], a, m, o);
    assert map[a := was][b := n][a := m] == map[b := n][a := m];
    assert OwnedBytes(map[b := n][a := m], o) > limit;
  }

  /** A reference is lost when it is added between the check and the write of an upload of its blob. */
  lemma RaceLosesReference(contentSize: string -> nat, limit: nat, metas: Metas, u: Upload, id: string, now: nat)
    returns (trace: seq<Files>, steps: seq<Step>)
    requires u.hash in metas && id !in metas[u.hash].refs && u.size == contentSize(u.hash) && PassesCheck(limit, metas, u)
    ensures Run(contentSize, limit, trace, steps) && |steps| == 5 && trace[0] == Files(metas, metas.Keys, map[])
    ensures ClaimAt(trace[4], u.hash, Ref(id)) && !ClaimAt(trace[5], u.hash, Ref(id))
  {
    var s := Files(metas, metas.Keys, map[]);
    Begun(contentSize, limit, s);
    hide PassesCheck, Run;
    trace, steps := Then(contentSize, limit, [s], [], CheckUpload(0, u, now));
    trace, steps := Then(contentSize, limit, trace, steps, PlaceBlob(0));
    trace, steps := Then(contentSize, limit, trace, steps, ReadForEdit(1, u.hash, AddRef(id)));
    trace, steps := Then(contentSize, limit, trace, steps, WriteMeta(1));
    trace, steps := Then(contentSize, limit, trace, steps, WriteMeta(0));
  }

  /** No upload is needed: of two references added to one blob side by side, the first is lost. */
  lemma EditsLoseReference(contentSize: string -> nat, limit: nat, metas: Metas, hash: string, id: string, other: string)
    returns (trace: seq<Files>, steps: seq<Step>)
    requires hash in metas && id !in metas[hash].refs && id != other
    ensures Run(contentSize, limit, trace, steps) && trace[0] == Files(metas, metas.Keys, map[])
    ensures steps == [ReadForEdit(0, hash, AddRef(id)), ReadForEdit(1, hash, AddRef(other)), WriteMeta(0), WriteMeta(1)]
    ensures ClaimAt(trace[3], hash, Ref(id)) && !ClaimAt(trace[4], hash, Ref(id))
  {
    var s := Files(metas, metas.Keys, map[]);
    Begun(contentSize, limit, s);
    hide Run;
    trace, steps := Then(contentSize, limit, [s], [], ReadForEdit(0, hash, AddRef(id)));
    trace, steps := Then(contentSize, limit, trace, steps, ReadForEdit(1, hash, AddRef(other)));
    trace, steps := Then(contentSize, limit, trace, steps, WriteMeta(0));
    trace, steps := Then(contentSize, limit, trace, steps, WriteMeta(1));
  }

  /** Every metadata reading is current here, and a reference is lost all the same: it is added after a
      rebuild took its list, and the rebuild clears it. A prune that follows finds the blob unclaimed. */
  lemma RebuildLosesReference(contentSize: string -> nat, limit: nat, metas: Metas, hash: string, id: string)
    returns (trace: seq<Files>, steps: seq<Step>)
    requires hash in metas && Unclaimed(metas[hash])
    ensures Run(contentSize, limit, trace, steps) && trace[0] == Files(metas, metas.Keys, map[])
    ensures steps == [TakeList(0, hash), ReadForEdit(1, hash, AddRef(id)), WriteMeta(1), ReadForClear(0), WriteMeta(0),
                      ReadForPrune(2, hash), Discard(2)]
    ensures ClaimAt(trace[3], hash, Ref(id)) && Loses(trace[4], 0, Ref(id)) && !ClaimAt(trace[5], hash, Ref(id))
    ensures hash in trace[5].metas && Unclaimed(trace[5].metas[hash]) && hash !in trace[7].metas && hash !in trace[7].blobs
  {
    var s := Files(metas, metas.Keys, map[]);
    trace, steps := ClearedTooLate(contentSize, limit, metas[hash], s, hash, id);
    hide Run, Loses;
    trace, steps := Then(contentSize, limit, trace, steps, ReadForPrune(2, hash));
    trace, steps := Then(contentSize, limit, trace, steps, Discard(2));
  }

  lemma ClearedTooLate(contentSize: string -> nat, limit: nat, m: BlobMeta, s: Files, hash: string, id: string)
    returns (trace: seq<Files>, steps: seq<Step>)
    requires hash in s.metas && s.metas[hash] == m && Unclaimed(m) && s.jobs == map[]
    ensures Run(contentSize, limit, trace, steps) && trace[0] == s
    ensures steps == [TakeList(0, hash), ReadForEdit(1, hash, AddRef(id)), WriteMeta(1), ReadForClear(0), WriteMeta(0)]
    ensures ClaimAt(trace[3], hash, Ref(id)) && Loses(trace[4], 0, Ref(id)) && !ClaimAt(trace[5], hash, Ref(id))
    ensures trace[5].metas == s.metas[hash := m] && trace[5].jobs == map[]
  {
    trace, steps := AddedToList(contentSize, limit, m, s, hash, id);
    hide Run;
    trace, steps := Then(contentSize, limit, trace, steps, ReadForClear(0));
    trace, steps := Then(contentSize, limit, trace, steps, WriteMeta(0));
  }

  lemma AddedToList(contentSize: string -> nat, limit: nat, m: BlobMeta, s: Files, hash: string, id: string)
    returns (trace: seq<Files>, steps: seq<Step>)
    requires hash in s.metas && s.metas[hash] == m && Unclaimed(m) && s.jobs == map[]
    ensures Run(contentSize, limit, trace, steps) && trace[0] == s
    ensures steps == [TakeList(0, hash), ReadForEdit(1, hash, AddRef(id)), WriteMeta(1)]
    ensures trace[3].metas == s.metas[hash := m.(refs := {id})] && trace[3].jobs == map[0 := Listing(hash, {}, true)]
  {
    Begun(contentSize, limit, s);
    hide Run;
    trace, steps := Then(contentSize, limit, [s], [], TakeList(0, hash));
    trace, steps := Then(contentSize, limit, trace, steps, ReadForEdit(1, hash, AddRef(id)));
    assert trace[2].jobs - {1} == map[0 := Listing(hash, {}, false)];
    assert m.refs + {id} == {id};
    trace, steps := Then(contentSize, limit, trace, steps, WriteMeta(1));
  }

  /** A prune that has read a blob as unclaimed removes it, whatever claims it since. */
  lemma PruneDropsClaim(contentSize: string -> nat, limit: nat, metas: Metas, hash: string, id: string)
    returns (trace: seq<Files>, steps: seq<Step>)
    requires hash in metas && Unclaimed(metas[hash])
    ensures Run(contentSize, limit, trace, steps) && trace[0] == Files(metas, metas.Keys, map[])
    ensures steps == [ReadForPrune(0, hash), ReadForEdit(1, hash, AddRef(id)), WriteMeta(1), Discard(0)]
    ensures Loses(trace[3], 0, Ref(id)) && hash !in trace[4].metas && hash !in trace[4].blobs
  {
    var s := Files(metas, metas.Keys, map[]);
    Begun(contentSize, limit, s);
    hide Run;
    trace, steps := Then(contentSize, limit, [s], [], ReadForPrune(0, hash));
    trace, steps := Then(contentSize, limit, trace, steps, ReadForEdit(1, hash, AddRef(id)));
    trace, steps := Then(contentSize, limit, trace, steps, WriteMeta(1));
    trace, steps := Then(contentSize, limit, trace, steps, Discard(0));
  }

  /** A blob pruned between an upload's placing its file and writing its metadata is known without a file. */
  lemma RaceOrphansMetadata(contentSize: string -> nat, limit: nat, metas: Metas, u: Upload, now: nat)
    returns (trace: seq<Files>, steps: seq<Step>)
    requires u.hash in metas && u.size == contentSize(u.hash) && PassesCheck(limit, metas, u)
    ensures Run(contentSize, limit, trace, steps) && trace[0] == Files(metas, metas.Keys, map[])
    ensures steps == [CheckUpload(0, u, now), PlaceBlob(0), ReadForPrune(1, u.hash), Discard(1), WriteMeta(0)]
    ensures u.hash in trace[5].metas && u.hash !in trace[5].blobs
  {
    var s := Files(metas, metas.Keys, map[]);
    Begun(contentSize, limit, s);
    hide PassesCheck, Run;
    trace, steps := Then(contentSize, limit, [s], [], CheckUpload(0, u, now));
    trace, steps := Then(contentSize, limit, trace, steps, PlaceBlob(0));
    trace, steps := Then(contentSize, limit, trace, steps, ReadForPrune(1, u.hash));
    trace, steps := Then(contentSize, limit, trace, steps, Discard(1));
    trace, steps := Then(contentSize, limit, trace, steps, WriteMeta(0));
  }
}
