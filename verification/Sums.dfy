/** Sums over finite sets and over sequences, and when the two agree. */
module Sums {
  ghost function Elems<T>(s: seq<T>): set<T> {
    set x | x in s
  }

  ghost predicate NoRepeats<T>(s: seq<T>) {
    forall i, j :: 0 <= i < j < |s| ==> s[i] != s[j]
  }

  function SeqSum<T>(f: T -> nat, s: seq<T>): nat {
    if s == [] then 0 else SeqSum(f, s[..|s| - 1]) + f(s[|s| - 1])
  }

  ghost function SetSum<T(!new)>(f: T -> nat, s: set<T>): nat {
    if s == {} then 0 else
      var x :| x in s;
      f(x) + SetSum(f, s - {x})
  }

  /** The sum does not depend on which element is taken out first. */
  lemma {:induction false} SetSumTake<T(!new)>(f: T -> nat, s: set<T>, x: T)
    requires x in s
    ensures SetSum(f, s) == f(x) + SetSum(f, s - {x})
    decreases s
  {
    var y :| y in s && SetSum(f, s) == f(y) + SetSum(f, s - {y});
    if y != x {
      SetSumTake(f, s - {y}, x);
      SetSumTake(f, s - {x}, y);
      assert s - {y} - {x} == s - {x} - {y};
    }
  }

  lemma {:induction false} SetSumGrows<T(!new)>(f: T -> nat, small: set<T>, large: set<T>)
    requires small <= large
    ensures SetSum(f, small) <= SetSum(f, large)
    decreases small
  {
    if small != {} {
      var x :| x in small;
      SetSumTake(f, small, x);
      SetSumTake(f, large, x);
      SetSumGrows(f, small - {x}, large - {x});
    }
  }

  lemma {:induction false} SetSumSame<T(!new)>(f: T -> nat, g: T -> nat, s: set<T>)
    requires forall x :: x in s ==> f(x) == g(x)
    ensures SetSum(f, s) == SetSum(g, s)
    decreases s
  {
    if s != {} {
      var x :| x in s;
      SetSumTake(f, s, x);
      SetSumTake(g, s, x);
      SetSumSame(f, g, s - {x});
    }
  }

  /** Walking a listing without repeats adds up the set it lists, in whatever order. */
  lemma {:induction false} SeqSumIsSetSum<T(!new)>(f: T -> nat, s: seq<T>)
    requires NoRepeats(s)
    ensures SeqSum(f, s) == SetSum(f, Elems(s))
    ensures |Elems(s)| == |s|
  {
    if s != [] {
      var front, last := s[..|s| - 1], s[|s| - 1];
      assert s == front + [last];
      assert last in Elems(s);
      assert Elems(s) - {last} == Elems(front);
      SeqSumIsSetSum(f, front);
      SetSumTake(f, Elems(s), last);
    }
  }

  lemma SubsetOfEqualSize<T>(small: set<T>, large: set<T>)
    requires small <= large
    ensures |small| <= |large|
    ensures |small| == |large| ==> small == large
  {
    assert |large - small| == |large| - |small|;
    if |small| == |large| {
      assert large - small == {};
    }
  }
}
