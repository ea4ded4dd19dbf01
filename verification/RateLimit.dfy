/** The file-backed rate limiter under concurrency: any number of requests step through making the
    lock directory, reading the counter file, checking it, writing it back and removing the lock. */
module RateLimit {
  import opened Outcomes

  const LOCK_ATTEMPTS: nat := 200

  datatype Action = Query | Count | Publish

  datatype Request = Request(action: Action, actor: string, now: nat)

  /** One lock directory per action and actor; one counter file per action, actor and bucket. */
  datatype LockKey = LockKey(action: Action, actor: string)

  datatype Slot = Slot(action: Action, actor: string, bucket: nat)

  /** `windowSecs` is positive: the settings drop a zero. An action without a maximum is not limited. */
  datatype Limits = Limits(windowSecs: nat, max: Action -> Option<nat>)

  datatype Process =
    | Trying(request: Request, attempts: nat)
    | Locked(request: Request)
    | Counted(request: Request, current: nat)
    | Leaving(request: Request)

  /** `accepted` is the history of accepted requests; everything else is on disk or in a process. */
  datatype Limiter = Limiter(
    locks: set<LockKey>,
    counts: map<Slot, nat>,
    processes: map<nat, Process>,
    accepted: seq<Request>)

  datatype Step =
    | Arrive(p: nat, request: Request) | MakeLock(p: nat) | Wait(p: nat) | GiveUp(p: nat)
    | ReadCount(p: nat) | Refuse(p: nat) | Accept(p: nat) | RemoveLock(p: nat)

  function KeyOf(r: Request): LockKey {
    LockKey(r.action, r.actor)
  }

  function SlotOf(limits: Limits, r: Request): Slot
    requires limits.windowSecs > 0
  {
    Slot(r.action, r.actor, r.now / limits.windowSecs)
  }

  function Stored(counts: map<Slot, nat>, slot: Slot): nat {
    if slot in counts then counts[slot] else 0
  }

  predicate Enabled(limits: Limits, s: Limiter, step: Step)
    requires limits.windowSecs > 0
  {
    match step
    case Arrive(p, request) => p !in s.processes && limits.max(request.action).Some?
    case MakeLock(p) =>
      p in s.processes && s.processes[p].Trying? && s.processes[p].attempts < LOCK_ATTEMPTS
      && KeyOf(s.processes[p].request) !in s.locks
    case Wait(p) =>
      p in s.processes && s.processes[p].Trying? && s.processes[p].attempts < LOCK_ATTEMPTS
      && KeyOf(s.processes[p].request) in s.locks
    case GiveUp(p) => p in s.processes && s.processes[p].Trying? && s.processes[p].attempts == LOCK_ATTEMPTS
    case ReadCount(p) => p in s.processes && s.processes[p].Locked?
    case Refuse(p) =>
      p in s.processes && s.processes[p].Counted? && limits.max(s.processes[p].request.action).Some?
      && s.processes[p].current >= limits.max(s.processes[p].request.action).value
    case Accept(p) =>
      p in s.processes && s.processes[p].Counted? && limits.max(s.processes[p].request.action).Some?
      && s.processes[p].current < limits.max(s.processes[p].request.action).value
    case RemoveLock(p) => p in s.processes && s.processes[p].Leaving?
  }

  function Do(limits: Limits, s: Limiter, step: Step): Limiter
    requires limits.windowSecs > 0 && Enabled(limits, s, step)
  {
    match step
    case Arrive(p, request) => s.(processes := s.processes[p := Trying(request, 0)])
    case MakeLock(p) =>
      var request := s.processes[p].request;
      s.(locks := s.locks + {KeyOf(request)}, processes := s.processes[p := Locked(request)])
    case Wait(p) => s.(processes := s.processes[p := Trying(s.processes[p].request, s.processes[p].attempts + 1)])
    case GiveUp(p) => s.(processes := s.processes - {p})
    case ReadCount(p) =>
      var request := s.processes[p].request;
      s.(processes := s.processes[p := Counted(request, Stored(s.counts, SlotOf(limits, request)))])
    case Refuse(p) => s.(processes := s.processes[p := Leaving(s.processes[p].request)])
    case Accept(p) =>
      var request := s.processes[p].request;
      s.(counts := s.counts[SlotOf(limits, request) := s.processes[p].current + 1],
         processes := s.processes[p := Leaving(request)],
         accepted := s.accepted + [request])
    case RemoveLock(p) =>
      s.(locks := s.locks - {KeyOf(s.processes[p].request)}, processes := s.processes - {p})
  }

  const EMPTY: Limiter := Limiter({}, map[], map[], [])

  ghost predicate Run(limits: Limits, trace: seq<Limiter>, steps: seq<Step>)
    requires limits.windowSecs > 0
  {
    && |trace| == |steps| + 1
    && trace[0] == EMPTY
    && forall i :: 0 <= i < |steps| ==> Enabled(limits, trace[i], steps[i]) && trace[i + 1] == Do(limits, trace[i], steps[i])
  }

  // ------------------------------------------------------------- the invariant

  predicate HoldsLock(p: Process) {
    !p.Trying?
  }

  /** How many accepted requests fall into this slot. */
  function AcceptedIn(limits: Limits, accepted: seq<Request>, slot: Slot): nat
    requires limits.windowSecs > 0
  {
    if accepted == [] then 0
    else AcceptedIn(limits, accepted[..|accepted| - 1], slot)
         + (if SlotOf(limits, accepted[|accepted| - 1]) == slot then 1 else 0)
  }

  ghost predicate Exclusive(s: Limiter) {
    && (forall p :: p in s.processes && HoldsLock(s.processes[p]) ==> KeyOf(s.processes[p].request) in s.locks)
    && (forall p, q :: p in s.processes && q in s.processes && p != q && HoldsLock(s.processes[p]) && HoldsLock(s.processes[q])
          ==> KeyOf(s.processes[p].request) != KeyOf(s.processes[q].request))
  }

  ghost predicate CountsExact(limits: Limits, s: Limiter)
    requires limits.windowSecs > 0
  {
    forall slot :: Stored(s.counts, slot) == AcceptedIn(limits, s.accepted, slot)
      && (limits.max(slot.action).Some? ==> Stored(s.counts, slot) <= limits.max(slot.action).value)
  }

  /** The count a process has read is still the count on disk: no one else can have written it. */
  ghost predicate ReadsCurrent(limits: Limits, s: Limiter)
    requires limits.windowSecs > 0
  {
    forall p :: p in s.processes && s.processes[p].Counted? ==>
      s.processes[p].current == Stored(s.counts, SlotOf(limits, s.processes[p].request))
  }

  ghost predicate Inv(limits: Limits, s: Limiter)
    requires limits.windowSecs > 0
  {
    Exclusive(s) && CountsExact(limits, s) && ReadsCurrent(limits, s)
  }

  lemma AcceptKeepsInv(limits: Limits, s: Limiter, p: nat)
    requires limits.windowSecs > 0 && Inv(limits, s) && Enabled(limits, s, Accept(p))
    ensures Inv(limits, Do(limits, s, Accept(p)))
  {
    AcceptCounts(limits, s, p);
    AcceptReads(limits, s, p);
    hide CountsExact, ReadsCurrent;
  }

  lemma AcceptCounts(limits: Limits, s: Limiter, p: nat)
    requires limits.windowSecs > 0 && Inv(limits, s) && Enabled(limits, s, Accept(p))
    ensures CountsExact(limits, Do(limits, s, Accept(p)))
  {
  }

  lemma AcceptReads(limits: Limits, s: Limiter, p: nat)
    requires limits.windowSecs > 0 && Inv(limits, s) && Enabled(limits, s, Accept(p))
    ensures ReadsCurrent(limits, Do(limits, s, Accept(p)))
  {
  }

  lemma InvStep(limits: Limits, s: Limiter, step: Step)
    requires limits.windowSecs > 0 && Inv(limits, s) && Enabled(limits, s, step)
    ensures Inv(limits, Do(limits, s, step))
  {
    if step.Accept? {
      AcceptKeepsInv(limits, s, step.p);
    } else {
      var t := Do(limits, s, step);
      assert t.counts == s.counts && t.accepted == s.accepted;
      forall slot
        ensures Stored(t.counts, slot) == AcceptedIn(limits, t.accepted, slot)
        ensures limits.max(slot.action).Some? ==> Stored(t.counts, slot) <= limits.max(slot.action).value
      {
        assert Stored(s.counts, slot) == AcceptedIn(limits, s.accepted, slot);
      }
    }
  }

  lemma {:induction false} InvAlways(limits: Limits, trace: seq<Limiter>, steps: seq<Step>, i: nat)
    requires limits.windowSecs > 0 && Run(limits, trace, steps) && i < |trace|
    ensures Inv(limits, trace[i])
  {
    if i > 0 {
      InvAlways(limits, trace, steps, i - 1);
      InvStep(limits, trace[i - 1], steps[i - 1]);
    }
  }

  // --------------------------------------------------------------- the claims

  /** In every interleaving, the stored count of a slot is the number of requests accepted in it,
      and it never exceeds the action's maximum. */
  lemma CountNeverExceedsMaximum(limits: Limits, trace: seq<Limiter>, steps: seq<Step>, i: nat, slot: Slot)
    requires limits.windowSecs > 0 && Run(limits, trace, steps) && i < |trace|
    ensures Stored(trace[i].counts, slot) == AcceptedIn(limits, trace[i].accepted, slot)
    ensures limits.max(slot.action).Some? ==> AcceptedIn(limits, trace[i].accepted, slot) <= limits.max(slot.action).value
  {
    InvAlways(limits, trace, steps, i);
  }

  /** Accepted requests of an action and actor with a clock reading in [from, from + length). */
  function AcceptedDuring(accepted: seq<Request>, key: LockKey, from: nat, length: nat): nat {
    if accepted == [] then 0
    else
      var last := accepted[|accepted| - 1];
      AcceptedDuring(accepted[..|accepted| - 1], key, from, length)
      + (if KeyOf(last) == key && from <= last.now < from + length then 1 else 0)
  }

  lemma TwoBuckets(from: nat, window: nat, now: nat)
    requires window > 0 && from <= now < from + window
    ensures now / window == from / window || now / window == from / window + 1
  {
    var q, b := from / window, now / window;
    assert from == q * window + from % window;
    assert now == b * window + now % window;
    if b < q {
      MulAtMost(b + 1, q, window);
    } else if b >= q + 2 {
      MulAtMost(q + 2, b, window);
    }
  }

  lemma MulAtMost(a: int, b: int, c: nat)
    requires a <= b
    ensures a * c <= b * c
  {
  }

  lemma {:induction false} WindowCoversTwoBuckets(limits: Limits, accepted: seq<Request>, key: LockKey, from: nat)
    requires limits.windowSecs > 0
    ensures AcceptedDuring(accepted, key, from, limits.windowSecs) <=
      AcceptedIn(limits, accepted, Slot(key.action, key.actor, from / limits.windowSecs))
      + AcceptedIn(limits, accepted, Slot(key.action, key.actor, from / limits.windowSecs + 1))
  {
    if accepted != [] {
      var last := accepted[|accepted| - 1];
      WindowCoversTwoBuckets(limits, accepted[..|accepted| - 1], key, from);
      if KeyOf(last) == key && from <= last.now < from + limits.windowSecs {
        TwoBuckets(from, limits.windowSecs, last.now);
      }
    }
  }

  /** So any stretch of one window's length accepts at most twice the maximum. */
  lemma AtMostTwiceTheMaximum(limits: Limits, trace: seq<Limiter>, steps: seq<Step>, i: nat, key: LockKey, from: nat)
    requires limits.windowSecs > 0 && Run(limits, trace, steps) && i < |trace|
    requires limits.max(key.action).Some?
    ensures AcceptedDuring(trace[i].accepted, key, from, limits.windowSecs) <= 2 * limits.max(key.action).value
  {
    var bucket := from / limits.windowSecs;
    WindowCoversTwoBuckets(limits, trace[i].accepted, key, from);
    CountNeverExceedsMaximum(limits, trace, steps, i, Slot(key.action, key.actor, bucket));
    CountNeverExceedsMaximum(limits, trace, steps, i, Slot(key.action, key.actor, bucket + 1));
  }

  // ------------------------------------------------------- one request by itself

  /** What the counter file of an action and actor holds for the window that a moment falls in. */
  ghost function CountedSoFar(limits: Limits, counts: map<Slot, nat>, r: Request): nat
    requires limits.windowSecs > 0
  {
    var slot := Slot(r.action, r.actor, r.now / limits.windowSecs);
    if slot in counts then counts[slot] else 0
  }

  /** The counter files after a request that nothing else interrupts. */
  ghost function CountsAfter(limits: Limits, counts: map<Slot, nat>, r: Request): map<Slot, nat>
    requires limits.windowSecs > 0
  {
    var max := limits.max(r.action);
    if max.Some? && CountedSoFar(limits, counts, r) < max.value
    then counts[Slot(r.action, r.actor, r.now / limits.windowSecs) := CountedSoFar(limits, counts, r) + 1]
    else counts
  }

  class RateLimiter {
    const limits: Limits
    var counts: map<Slot, nat>

    constructor (limits: Limits)
      ensures this.limits == limits && counts == map[]
    {
      this.limits := limits;
      counts := map[];
    }

    /** Try to make the lock directory; `absent` says whether it is absent at each attempt. */
    method MakeLock(absent: nat -> bool) returns (made: bool)
      ensures made <==> exists a :: 0 <= a < 200 && absent(a)
    {
      for attempt := 0 to LOCK_ATTEMPTS
        invariant forall a :: 0 <= a < attempt ==> !absent(a)
      {
        if absent(attempt) {
          return true;
        }
      }
      return false;
    }

    /** Accept and count the request, refuse it at the maximum, or give up on the lock. */
    method Enforce(r: Request, absent: nat -> bool) returns (accepted: bool)
      requires limits.windowSecs > 0
      modifies this
      ensures limits.max(r.action).None? ==> accepted && counts == old(counts)
      ensures limits.max(r.action).Some? ==>
        var locked := exists a :: 0 <= a < 200 && absent(a);
        accepted == (locked && CountedSoFar(limits, old(counts), r) < limits.max(r.action).value)
        && counts == if locked then CountsAfter(limits, old(counts), r) else old(counts)
    {
      if limits.max(r.action).None? {
        return true;
      }
      var locked := MakeLock(absent);
      if !locked {
        return false;
      }
      var current := Stored(counts, SlotOf(limits, r));
      if current >= limits.max(r.action).value {
        return false;
      }
      counts := counts[SlotOf(limits, r) := current + 1];
      return true;
    }
  }

  /** The steps of one request with nothing in between amount to the whole request: they count it
      as the method does and leave no lock and no process behind. */
  lemma StepsMakeARequest(limits: Limits, s: Limiter, p: nat, r: Request)
    requires limits.windowSecs > 0 && p !in s.processes && LockKey(r.action, r.actor) !in s.locks && limits.max(r.action).Some?
    ensures Enabled(limits, s, Arrive(p, r))
    ensures var s1 := Do(limits, s, Arrive(p, r));
      Enabled(limits, s1, MakeLock(p)) &&
      var s2 := Do(limits, s1, MakeLock(p));
      Enabled(limits, s2, ReadCount(p)) &&
      var s3 := Do(limits, s2, ReadCount(p));
      var admitted := CountedSoFar(limits, s.counts, r) < limits.max(r.action).value;
      var verdict := if admitted then Accept(p) else Refuse(p);
      Enabled(limits, s3, verdict) &&
      var s4 := Do(limits, s3, verdict);
      Enabled(limits, s4, RemoveLock(p)) &&
      Do(limits, s4, RemoveLock(p)) ==
        Limiter(s.locks, CountsAfter(limits, s.counts, r), s.processes,
                if admitted then s.accepted + [r] else s.accepted)
  {
    assert s.locks + {KeyOf(r)} - {KeyOf(r)} == s.locks;
    assert s.processes[p := Leaving(r)] - {p} == s.processes;
  }
}
