/** Retention as arithmetic on a list of records, oldest first. */
module Retention {
  import opened Outcomes
  import opened Sums
  import opened Events
  import opened EventOrder

  datatype Caps = Caps(maxEvents: Option<nat>, maxBytes: Option<nat>) {
    predicate Disabled() {
      maxEvents.None? && maxBytes.None?
    }

    predicate Exceeded(count: nat, bytes: nat) {
      || (maxEvents.Some? && count > maxEvents.value)
      || (maxBytes.Some? && bytes > maxBytes.value)
    }

    /** The caps are exceeded by exactly these records. */
    predicate Over(size: Event -> nat, s: seq<Event>) {
      Exceeded(|s|, SeqSum(size, s))
    }
  }

  /** Neither cap is passed by this many events and bytes. */
  ghost predicate WithinCaps(caps: Caps, count: nat, bytes: nat) {
    && (caps.maxEvents != None ==> count <= caps.maxEvents.value)
    && (caps.maxBytes != None ==> bytes <= caps.maxBytes.value)
  }

  /** The records of one kind (protected or not), in their order. */
  function Only(protected: Event -> bool, wanted: bool, s: seq<Event>): seq<Event> {
    if s == [] then []
    else if protected(s[0]) == wanted then [s[0]] + Only(protected, wanted, s[1..])
    else Only(protected, wanted, s[1..])
  }

  /** What is left when the first `k` unprotected records are removed. */
  function AfterRemoving(protected: Event -> bool, s: seq<Event>, k: nat): seq<Event> {
    if s == [] then []
    else if k > 0 && !protected(s[0]) then AfterRemoving(protected, s[1..], k - 1)
    else [s[0]] + AfterRemoving(protected, s[1..], k)
  }

  /** `k` is the least number of oldest unprotected records whose removal brings the
      list within its caps, or all of them when even that is not enough. */
  ghost predicate IsCut(caps: Caps, size: Event -> nat, protected: Event -> bool, s: seq<Event>, k: nat) {
    && k <= |Only(protected, false, s)|
    && (k < |Only(protected, false, s)| ==> !caps.Over(size, AfterRemoving(protected, s, k)))
    && (forall j: nat :: j < k ==> caps.Over(size, AfterRemoving(protected, s, j)))
  }

  /** `last` is the newest of the events that went. */
  ghost predicate IsLastToGo(before: set<Event>, after: set<Event>, last: Event) {
    last in before - after && forall d :: d in before - after ==> d == last || Older(d, last)
  }

  ghost predicate AllProtected(protected: Event -> bool, s: set<Event>) {
    forall e :: e in s ==> protected(e)
  }

  /** Only unprotected events go, and only ones older than every unprotected event that stays. */
  ghost predicate OldestGo(protected: Event -> bool, before: set<Event>, after: set<Event>) {
    && after <= before
    && (forall d :: d in before - after ==> !protected(d))
    && (forall d, e :: d in before - after && e in after && !protected(e) ==> Older(d, e))
  }

  /** What one run of retention does to the stored events, in numbers. The oldest unprotected events go;
      then neither cap is passed or only protected events are left; and had the last to go stayed,
      a cap would be passed. */
  ghost predicate PrunedBy(caps: Caps, size: Event -> nat, protected: Event -> bool,
      before: set<Event>, after: set<Event>, removed: nat)
  {
    && OldestGo(protected, before, after) && |after| + removed == |before|
    && (WithinCaps(caps, |after|, SetSum(size, after)) || AllProtected(protected, after))
    && (removed > 0 ==> exists last :: IsLastToGo(before, after, last)
                                       && !WithinCaps(caps, |after| + 1, SetSum(size, after) + size(last)))
  }

  /** The cut, counted out. */
  lemma CutInNumbers(caps: Caps, size: Event -> nat, protected: Event -> bool, s: seq<Event>, k: nat)
    requires Sorted(false, s) && IsCut(caps, size, protected, s, k)
    ensures PrunedBy(caps, size, protected, Elems(s), Elems(AfterRemoving(protected, s, k)), k)
  {
    hide OldestGo, AllProtected, IsLastToGo, WithinCaps, IsCut, Sorted, Elems, Only, AfterRemoving, Caps.Over, SetSum;
    var before, after := Elems(s), Elems(AfterRemoving(protected, s, k));
    assert |after| + k == |before| && (WithinCaps(caps, |after|, SetSum(size, after)) || AllProtected(protected, after)) by {
      CutFacts(caps, size, protected, s, k);
      SortedTotals(size, s);
    }
    assert OldestGo(protected, before, after) by {
      RemovedAreOlder(protected, s, k);
    }
    if k > 0 {
      var last := OneFewer(caps, size, protected, s, k);
    }
  }

  lemma CutFacts(caps: Caps, size: Event -> nat, protected: Event -> bool, s: seq<Event>, k: nat)
    requires Sorted(false, s) && IsCut(caps, size, protected, s, k)
    ensures var kept := Elems(AfterRemoving(protected, s, k));
      && |kept| + k == |s|
      && (WithinCaps(caps, |kept|, SetSum(size, kept)) || AllProtected(protected, kept))
    ensures k > 0 ==> caps.Over(size, AfterRemoving(protected, s, k - 1))
  {
    var kept := AfterRemoving(protected, s, k);
    assert k < |Only(protected, false, s)| ==> !caps.Over(size, kept);
    assert k > 0 ==> caps.Over(size, AfterRemoving(protected, s, k - 1));
    hide Sorted, Elems, IsCut, AfterRemoving, Only;
    RemovalTakesOldestUnprotected(protected, s, k);
    KeptSorted(protected, s, k);
    SortedTotals(size, kept);
    if k == |Only(protected, false, s)| {
      NoneOfThatKind(protected, kept);
    }
  }

  /** With one removal fewer the caps were still exceeded. */
  lemma OneFewer(caps: Caps, size: Event -> nat, protected: Event -> bool, s: seq<Event>, k: nat) returns (last: Event)
    requires Sorted(false, s) && IsCut(caps, size, protected, s, k) && k > 0
    ensures var kept := Elems(AfterRemoving(protected, s, k));
      && IsLastToGo(Elems(s), kept, last)
      && !WithinCaps(caps, |kept| + 1, SetSum(size, kept) + size(last))
  {
    var kept, longer := AfterRemoving(protected, s, k), AfterRemoving(protected, s, k - 1);
    CutFacts(caps, size, protected, s, k);
    last := LastToGo(protected, s, k);
    hide Sorted, IsCut, AfterRemoving, Only, Older, IsLastToGo;
    KeptSorted(protected, s, k - 1);
    SortedTotals(size, longer);
    SetSumTake(size, Elems(longer), last);
    assert Elems(longer) - {last} == Elems(kept);
  }

  lemma SortedTotals(size: Event -> nat, s: seq<Event>)
    requires Sorted(false, s)
    ensures |Elems(s)| == |s| && SetSum(size, Elems(s)) == SeqSum(size, s)
  {
    SortedFacts(false, s);
    SeqSumIsSetSum(size, s);
  }

  lemma {:induction false} NoneOfThatKind(protected: Event -> bool, s: seq<Event>)
    requires Only(protected, false, s) == []
    ensures forall e :: e in Elems(s) ==> protected(e)
  {
    if s != [] {
      NoneOfThatKind(protected, s[1..]);
      assert s == [s[0]] + s[1..];
    }
  }

  lemma RemovedAreOlder(protected: Event -> bool, s: seq<Event>, k: nat)
    requires Sorted(false, s)
    ensures OldestGo(protected, Elems(s), Elems(AfterRemoving(protected, s, k)))
  {
    var kept := AfterRemoving(protected, s, k);
    KeptSorted(protected, s, k);
    forall d | d in Elems(s) - Elems(kept) ensures !protected(d) {
      if protected(d) {
        ProtectedStays(protected, s, k, d);
      }
    }
    forall d, e | d in Elems(s) - Elems(kept) && e in Elems(kept) && !protected(e) ensures Older(d, e) {
      var i :| 0 <= i < |s| && s[i] == d;
      assert e in Elems(s);
      var j :| 0 <= j < |s| && s[j] == e;
      if j < i {
        assert Before(false, s[j], s[i]);
        NewerStays(protected, s, k, e, d);
      } else if i < j {
        assert Before(false, s[i], s[j]);
      }
    }
  }

  lemma {:induction false} ProtectedStays(protected: Event -> bool, s: seq<Event>, k: nat, d: Event)
    requires d in s && protected(d)
    ensures d in AfterRemoving(protected, s, k)
  {
    assert s == [s[0]] + s[1..];
    if d != s[0] {
      ProtectedStays(protected, s[1..], if k > 0 && !protected(s[0]) then k - 1 else k, d);
    }
  }

  /** The last record to go is the newest of those that go, and one removal fewer leaves it. */
  lemma {:induction false} LastToGo(protected: Event -> bool, s: seq<Event>, k: nat) returns (last: Event)
    requires Sorted(false, s) && 0 < k <= |Only(protected, false, s)|
    ensures IsLastToGo(Elems(s), Elems(AfterRemoving(protected, s, k)), last)
    ensures last in Elems(AfterRemoving(protected, s, k - 1))
    ensures Elems(AfterRemoving(protected, s, k - 1)) == Elems(AfterRemoving(protected, s, k)) + {last}
  {
    var h, rest := s[0], s[1..];
    assert s == [h] + rest;
    SortedFacts(false, s);
    if protected(h) {
      last := LastToGo(protected, rest, k);
      HeadKept(h, AfterRemoving(protected, rest, k));
      HeadKept(h, AfterRemoving(protected, rest, k - 1));
      KeptSorted(protected, rest, k);
    } else if k == 1 {
      last := h;
      RemovingNone(protected, rest);
      RemovingNone(protected, s);
    } else {
      last := LastToGo(protected, rest, k - 1);
      KeptSorted(protected, rest, k - 1);
      assert last in Elems(rest);
      var i :| 0 <= i < |rest| && rest[i] == last;
      assert Before(false, s[0], s[i + 1]);
    }
  }

  lemma HeadKept(h: Event, left: seq<Event>)
    ensures Elems([h] + left) == {h} + Elems(left)
  {
  }

  lemma CutUnique(caps: Caps, size: Event -> nat, protected: Event -> bool, s: seq<Event>, k: nat, k': nat)
    requires IsCut(caps, size, protected, s, k) && IsCut(caps, size, protected, s, k')
    ensures k == k'
  {
  }

  /** Protected records all stay, and the unprotected ones go oldest first. */
  lemma {:induction false} RemovalTakesOldestUnprotected(protected: Event -> bool, s: seq<Event>, k: nat)
    requires k <= |Only(protected, false, s)|
    ensures Only(protected, true, AfterRemoving(protected, s, k)) == Only(protected, true, s)
    ensures Only(protected, false, AfterRemoving(protected, s, k)) == Only(protected, false, s)[k..]
    ensures |AfterRemoving(protected, s, k)| == |s| - k
    ensures Elems(AfterRemoving(protected, s, k)) <= Elems(s)
  {
    if s != [] {
      var rest := s[1..];
      assert s == [s[0]] + rest;
      if k > 0 && !protected(s[0]) {
        RemovalTakesOldestUnprotected(protected, rest, k - 1);
      } else {
        RemovalTakesOldestUnprotected(protected, rest, k);
        var left := AfterRemoving(protected, rest, k);
        assert AfterRemoving(protected, s, k)[1..] == left;
        assert AfterRemoving(protected, s, k)[0] == s[0];
        assert Elems(AfterRemoving(protected, s, k)) == {s[0]} + Elems(left);
        if !protected(s[0]) {
          assert k == 0;
        }
      }
    }
  }

  lemma {:induction false} RemovingNone(protected: Event -> bool, s: seq<Event>)
    ensures AfterRemoving(protected, s, 0) == s
  {
    if s != [] {
      RemovingNone(protected, s[1..]);
    }
  }

  /** Removal keeps the order. */
  lemma {:induction false} KeptSorted(protected: Event -> bool, s: seq<Event>, k: nat)
    requires Sorted(false, s)
    ensures Sorted(false, AfterRemoving(protected, s, k))
    ensures Elems(AfterRemoving(protected, s, k)) <= Elems(s)
  {
    if s != [] {
      assert s == [s[0]] + s[1..];
      if k > 0 && !protected(s[0]) {
        KeptSorted(protected, s[1..], k - 1);
      } else {
        KeptSorted(protected, s[1..], k);
        var rest := AfterRemoving(protected, s[1..], k);
        forall j | 0 <= j < |rest| ensures Before(false, s[0], rest[j]) {
          assert rest[j] in Elems(rest) && rest[j] in Elems(s[1..]);
        }
        assert Elems([s[0]] + rest) == {s[0]} + Elems(rest);
      }
    }
  }

  /** Whatever is newer than an unprotected record that stays, or protected, stays as well. */
  lemma {:induction false} NewerStays(protected: Event -> bool, s: seq<Event>, k: nat, e: Event, d: Event)
    requires Sorted(false, s) && e in AfterRemoving(protected, s, k) && !protected(e)
    requires d in s && (Older(e, d) || protected(d))
    ensures d in AfterRemoving(protected, s, k)
  {
    var h, rest := s[0], s[1..];
    assert s == [h] + rest;
    KeptSorted(protected, rest, if k > 0 && !protected(h) then k - 1 else k);
    if k > 0 && !protected(h) {
      assert e in Elems(AfterRemoving(protected, rest, k - 1));
      var j :| 0 <= j < |rest| && rest[j] == e;
      assert Before(false, s[0], s[j + 1]);
      if Older(e, h) { OlderStrict(h, e); }
      NewerStays(protected, rest, k - 1, e, d);
    } else if d != h {
      if e in AfterRemoving(protected, rest, k) {
        NewerStays(protected, rest, k, e, d);
      } else {
        RemovingNone(protected, rest);
      }
    }
  }

  /** A second pass over what the first one kept removes nothing. */
  lemma SecondPassRemovesNothing(caps: Caps, size: Event -> nat, protected: Event -> bool, s: seq<Event>, k: nat)
    requires IsCut(caps, size, protected, s, k)
    ensures forall k' :: IsCut(caps, size, protected, AfterRemoving(protected, s, k), k') <==> k' == 0
  {
    var kept := AfterRemoving(protected, s, k);
    RemovalTakesOldestUnprotected(protected, s, k);
    RemovingNone(protected, kept);
    assert IsCut(caps, size, protected, kept, 0);
    forall k': nat | IsCut(caps, size, protected, kept, k') ensures k' == 0 {
      CutUnique(caps, size, protected, kept, k', 0);
    }
  }

  /** Removing the next record of a partly walked list, when everything walked and kept is protected. */
  lemma {:induction false} RemoveNext(protected: Event -> bool, s: seq<Event>, k: nat,
      kept: seq<Event>, e: Event, rest: seq<Event>)
    requires AfterRemoving(protected, s, k) == kept + [e] + rest
    requires forall x :: x in kept ==> protected(x)
    requires !protected(e)
    ensures AfterRemoving(protected, s, k + 1) == kept + rest
    ensures k < |Only(protected, false, s)|
  {
    assert s != [] by { assert |AfterRemoving(protected, s, k)| > 0; }
    var rest0 := s[1..];
    if k > 0 && !protected(s[0]) {
      RemoveNext(protected, rest0, k - 1, kept, e, rest);
    } else {
      ConsSplit(s[0], AfterRemoving(protected, rest0, k), kept, e, rest);
      if protected(s[0]) {
        RemoveNext(protected, rest0, k, kept[1..], e, rest);
      } else {
        RemovingNone(protected, rest0);
      }
    }
  }

  lemma ConsSplit(head: Event, tail: seq<Event>, kept: seq<Event>, e: Event, rest: seq<Event>)
    requires [head] + tail == kept + [e] + rest
    ensures kept == [] ==> head == e && tail == rest && kept + rest == rest
    ensures kept != [] ==> head == kept[0] && tail == kept[1..] + [e] + rest && kept + rest == [head] + (kept[1..] + rest)
  {
    var all := kept + [e] + rest;
    assert ([head] + tail)[0] == all[0] && ([head] + tail)[1..] == tail;
    if kept == [] {
      assert all[1..] == rest;
    } else {
      assert all[1..] == kept[1..] + [e] + rest;
    }
  }

  lemma {:induction false} AllProtectedMeansNoneLeft(protected: Event -> bool, s: seq<Event>)
    requires forall x :: x in s ==> protected(x)
    ensures Only(protected, false, s) == []
  {
    if s != [] {
      AllProtectedMeansNoneLeft(protected, s[1..]);
    }
  }

  lemma {:induction false} SeqSumSplit(size: Event -> nat, a: seq<Event>, e: Event, b: seq<Event>)
    ensures SeqSum(size, a + [e] + b) == SeqSum(size, a + b) + size(e)
  {
    if b == [] {
      assert a + [e] + b == a + [e] && a + b == a;
      assert (a + [e])[..|a|] == a;
    } else {
      var front, last := b[..|b| - 1], b[|b| - 1];
      SeqSumSplit(size, a, e, front);
      assert (a + [e] + b)[..|a| + |b|] == a + [e] + front;
      assert (a + b)[..|a| + |b| - 1] == a + front;
    }
  }

  /** Where the loop stands: `kept` has been walked, `rest` has not, `removed` records are gone. */
  ghost predicate Walked(caps: Caps, size: Event -> nat, protected: Event -> bool, records: seq<Event>,
      kept: seq<Event>, rest: seq<Event>, removed: nat)
  {
    && AfterRemoving(protected, records, removed) == kept + rest
    && removed <= |Only(protected, false, records)|
    && (forall j: nat :: j < removed ==> caps.Over(size, AfterRemoving(protected, records, j)))
    && (caps.Over(size, kept + rest) ==> forall e :: e in kept ==> protected(e))
  }

  lemma WalkRemoves(caps: Caps, size: Event -> nat, protected: Event -> bool, records: seq<Event>,
      kept: seq<Event>, e: Event, rest: seq<Event>, removed: nat)
    requires Walked(caps, size, protected, records, kept, [e] + rest, removed)
    requires caps.Over(size, kept + ([e] + rest)) && !protected(e)
    ensures Walked(caps, size, protected, records, kept, rest, removed + 1)
    ensures SeqSum(size, kept + ([e] + rest)) == SeqSum(size, kept + rest) + size(e)
  {
    assert kept + ([e] + rest) == kept + [e] + rest;
    RemoveNext(protected, records, removed, kept, e, rest);
    SeqSumSplit(size, kept, e, rest);
  }

  lemma WalkKeeps(caps: Caps, size: Event -> nat, protected: Event -> bool, records: seq<Event>,
      kept: seq<Event>, e: Event, rest: seq<Event>, removed: nat)
    requires Walked(caps, size, protected, records, kept, [e] + rest, removed)
    requires !caps.Over(size, kept + ([e] + rest)) || protected(e)
    ensures Walked(caps, size, protected, records, kept + [e], rest, removed)
    ensures kept + [e] + rest == kept + ([e] + rest)
  {
  }

  lemma WalkEnds(caps: Caps, size: Event -> nat, protected: Event -> bool, records: seq<Event>,
      kept: seq<Event>, removed: nat)
    requires Walked(caps, size, protected, records, kept, [], removed)
    ensures kept == AfterRemoving(protected, records, removed)
    ensures IsCut(caps, size, protected, records, removed)
    ensures caps.Over(size, kept) ==> forall e :: e in kept ==> protected(e)
  {
    assert kept + [] == kept;
    if caps.Over(size, kept) {
      AllProtectedMeansNoneLeft(protected, kept);
      RemovalTakesOldestUnprotected(protected, records, removed);
    }
  }
}
