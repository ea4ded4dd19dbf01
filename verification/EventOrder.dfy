/** Sorting events by age, in either direction. */
module EventOrder {
  import opened Events
  import opened Sums

  predicate Before(newestFirst: bool, a: Event, b: Event) {
    if newestFirst then Older(b, a) else Older(a, b)
  }

  lemma BeforeLaws(newestFirst: bool, a: Event, b: Event, c: Event)
    ensures a.id == b.id || Before(newestFirst, a, b) || Before(newestFirst, b, a)
    ensures Before(newestFirst, a, b) && Before(newestFirst, b, c) ==> Before(newestFirst, a, c)
    ensures Before(newestFirst, a, b) ==> !Before(newestFirst, b, a) && a != b
  {
    OlderTotal(a, b);
    if Before(newestFirst, a, b) {
      if newestFirst { OlderStrict(b, a); } else { OlderStrict(a, b); }
      if Before(newestFirst, b, c) {
        if newestFirst { OlderTransitive(c, b, a); } else { OlderTransitive(a, b, c); }
      }
    }
  }

  /** Strictly sorted. */
  ghost predicate Sorted(newestFirst: bool, s: seq<Event>) {
    forall i, j :: 0 <= i < j < |s| ==> Before(newestFirst, s[i], s[j])
  }

  /** No two positions share an id. */
  ghost predicate DistinctIds(s: seq<Event>) {
    forall i, j :: 0 <= i < j < |s| ==> s[i].id != s[j].id
  }

  /** Put `e` in front of everything that does not go before it, so equal keys keep their order. */
  function Insert(newestFirst: bool, e: Event, s: seq<Event>): (r: seq<Event>)
    ensures Elems(r) == Elems(s) + {e}
    ensures |r| == |s| + 1
  {
    if s == [] || !Before(newestFirst, s[0], e) then [e] + s
    else
      var rest := Insert(newestFirst, e, s[1..]);
      assert s == [s[0]] + s[1..];
      assert Elems([s[0]] + rest) == {s[0]} + Elems(rest);
      [s[0]] + rest
  }

  /** A stable sort. */
  function SortEvents(newestFirst: bool, s: seq<Event>): (r: seq<Event>)
    ensures Elems(r) == Elems(s)
    ensures |r| == |s|
  {
    if s == [] then []
    else
      assert s == [s[0]] + s[1..];
      Insert(newestFirst, s[0], SortEvents(newestFirst, s[1..]))
  }

  lemma {:induction false} InsertSorts(newestFirst: bool, e: Event, s: seq<Event>)
    requires Sorted(newestFirst, s)
    requires forall x :: x in s ==> x.id != e.id
    ensures Sorted(newestFirst, Insert(newestFirst, e, s))
  {
    if s != [] {
      if !Before(newestFirst, s[0], e) {
        assert s[0] in s;
        forall j | 0 <= j < |s| ensures Before(newestFirst, e, s[j]) {
          BeforeLaws(newestFirst, e, s[0], s[j]);
        }
      } else {
        InsertSorts(newestFirst, e, s[1..]);
        var rest := Insert(newestFirst, e, s[1..]);
        forall j | 0 <= j < |rest| ensures Before(newestFirst, s[0], rest[j]) {
          assert rest[j] in Elems(rest);
          if rest[j] != e {
            assert rest[j] in Elems(s[1..]);
          }
        }
      }
    }
  }

  lemma {:induction false} SortSorts(newestFirst: bool, s: seq<Event>)
    requires DistinctIds(s)
    ensures Sorted(newestFirst, SortEvents(newestFirst, s))
  {
    if s != [] {
      SortSorts(newestFirst, s[1..]);
      var rest := SortEvents(newestFirst, s[1..]);
      forall x | x in rest ensures x.id != s[0].id {
        assert x in Elems(rest) && x in Elems(s[1..]);
        var j :| 0 <= j < |s[1..]| && s[1..][j] == x;
        assert s[j + 1] == x;
      }
      InsertSorts(newestFirst, s[0], rest);
    }
  }

  lemma SortedFacts(newestFirst: bool, s: seq<Event>)
    requires Sorted(newestFirst, s)
    ensures NoRepeats(s)
    ensures s != [] ==> Elems(s[1..]) == Elems(s) - {s[0]}
  {
    forall i, j | 0 <= i < j < |s| ensures s[i] != s[j] {
      BeforeLaws(newestFirst, s[i], s[j], s[j]);
    }
    if s != [] {
      assert s == [s[0]] + s[1..];
    }
  }

  /** A set of events has only one strictly sorted listing. */
  lemma {:induction false} SortedUnique(newestFirst: bool, a: seq<Event>, b: seq<Event>)
    requires Sorted(newestFirst, a) && Sorted(newestFirst, b)
    requires Elems(a) == Elems(b)
    ensures a == b
  {
    SortedFacts(newestFirst, a);
    SortedFacts(newestFirst, b);
    SeqSumIsSetSum(x => 0, a);
    SeqSumIsSetSum(x => 0, b);
    if a != [] {
      assert a[0] in Elems(a) && b[0] in Elems(b);
      if a[0] != b[0] {
        var i :| 0 < i < |b| && b[i] == a[0];
        var j :| 0 < j < |a| && a[j] == b[0];
        BeforeLaws(newestFirst, a[0], a[j], a[j]);
        assert false;
      }
      SortedUnique(newestFirst, a[1..], b[1..]);
    }
  }
}
