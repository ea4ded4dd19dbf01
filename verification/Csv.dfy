/** Comma-separated lists of words and of numbers: splitting, trimming, joining, merging. */
module Csv {
  import opened Outcomes
  import opened Sums
  import opened Text

  const U32_MAX: nat := 0xFFFF_FFFF

  /** White space as the Unicode property defines it. */
  predicate IsSpace(c: char) {
    || '\U{9}' <= c <= '\U{D}' || c == ' ' || c == '\U{85}' || c == '\U{A0}' || c == '\U{1680}'
    || '\U{2000}' <= c <= '\U{200A}' || c == '\U{2028}' || c == '\U{2029}' || c == '\U{202F}'
    || c == '\U{205F}' || c == '\U{3000}'
  }

  function TrimStart(s: string): string {
    if s != [] && IsSpace(s[0]) then TrimStart(s[1..]) else s
  }

  function TrimEnd(s: string): string {
    if s != [] && IsSpace(s[|s| - 1]) then TrimEnd(s[..|s| - 1]) else s
  }

  function Trim(s: string): string {
    TrimEnd(TrimStart(s))
  }

  /** No white space at either end. */
  predicate Trimmed(s: string) {
    s == [] || (!IsSpace(s[0]) && !IsSpace(s[|s| - 1]))
  }

  lemma {:induction false} TrimStartFacts(s: string)
    ensures TrimStart(s) == [] || !IsSpace(TrimStart(s)[0])
    ensures forall c :: c in TrimStart(s) ==> c in s
  {
    if s != [] && IsSpace(s[0]) {
      TrimStartFacts(s[1..]);
    }
  }

  lemma {:induction false} TrimEndFacts(s: string)
    ensures TrimEnd(s) == [] || !IsSpace(TrimEnd(s)[|TrimEnd(s)| - 1])
    ensures TrimEnd(s) != [] ==> TrimEnd(s)[0] == s[0]
    ensures forall c :: c in TrimEnd(s) ==> c in s
    ensures |TrimEnd(s)| <= |s|
  {
    if s != [] && IsSpace(s[|s| - 1]) {
      TrimEndFacts(s[..|s| - 1]);
    }
  }

  lemma TrimFacts(s: string)
    ensures Trimmed(Trim(s))
    ensures Trimmed(s) ==> Trim(s) == s
    ensures ',' !in s ==> ',' !in Trim(s)
  {
    TrimStartFacts(s);
    TrimEndFacts(TrimStart(s));
  }

  ghost predicate AllSpace(s: string) {
    forall i :: 0 <= i < |s| ==> IsSpace(s[i])
  }

  /** Trimming takes white space off both ends, all of it and nothing else. */
  lemma TrimMeans(s: string) returns (front: string, back: string)
    ensures s == front + Trim(s) + back && AllSpace(front) && AllSpace(back) && Trimmed(Trim(s))
  {
    TrimFacts(s);
    front := TrimmedFront(s);
    back := TrimmedBack(TrimStart(s));
    assert s == front + (Trim(s) + back) == front + Trim(s) + back;
  }

  lemma {:induction false} TrimmedFront(s: string) returns (front: string)
    ensures s == front + TrimStart(s) && AllSpace(front)
  {
    hide IsSpace;
    front := [];
    if s != [] && IsSpace(s[0]) {
      front := TrimmedFront(s[1..]);
      assert s == [s[0]] + s[1..];
      assert [s[0]] + (front + TrimStart(s[1..])) == [s[0]] + front + TrimStart(s[1..]);
      front := [s[0]] + front;
    }
  }

  lemma {:induction false} TrimmedBack(s: string) returns (back: string)
    ensures s == TrimEnd(s) + back && AllSpace(back)
  {
    hide IsSpace;
    back := [];
    if s != [] && IsSpace(s[|s| - 1]) {
      back := TrimmedBack(s[..|s| - 1]);
      assert s == s[..|s| - 1] + [s[|s| - 1]];
      assert TrimEnd(s[..|s| - 1]) + back + [s[|s| - 1]] == TrimEnd(s[..|s| - 1]) + (back + [s[|s| - 1]]);
      back := back + [s[|s| - 1]];
    }
  }

  // ------------------------------------------------------------ split and join

  /** `split(',')`: always at least one part. */
  function Split(s: string): (r: seq<string>)
    ensures r != []
    ensures forall p :: p in r ==> ',' !in p
  {
    if s == [] then [[]]
    else
      var rest := Split(s[1..]);
      if s[0] == ',' then [[]] + rest else [[s[0]] + rest[0]] + rest[1..]
  }

  function Join(parts: seq<string>): string {
    if parts == [] then []
    else if |parts| == 1 then parts[0]
    else parts[0] + [','] + Join(parts[1..])
  }

  lemma {:induction false} SplitWord(w: string)
    requires ',' !in w
    ensures Split(w) == [w]
  {
    if w != [] {
      assert w[0] in w;
      SplitWord(w[1..]);
      assert w == [w[0]] + w[1..];
    }
  }

  lemma {:induction false} SplitFirst(w: string, s: string)
    requires ',' !in w
    ensures Split(w + [','] + s) == [w] + Split(s)
  {
    var all := w + [','] + s;
    if w == [] {
      assert all[0] == ',' && all[1..] == s;
    } else {
      assert w[0] in w;
      assert all[0] == w[0] && all[1..] == w[1..] + [','] + s;
      SplitFirst(w[1..], s);
      assert w == [w[0]] + w[1..];
    }
  }

  /** Splitting undoes joining, for parts without commas. */
  lemma {:induction false} SplitOfJoin(parts: seq<string>)
    requires parts != [] && forall p :: p in parts ==> ',' !in p
    ensures Split(Join(parts)) == parts
  {
    if |parts| == 1 {
      SplitWord(parts[0]);
    } else {
      SplitOfJoin(parts[1..]);
      SplitFirst(parts[0], Join(parts[1..]));
      assert parts == [parts[0]] + parts[1..];
    }
  }

  /** And joining undoes splitting: the parts are the text between the commas. */
  lemma {:induction false} JoinOfSplit(s: string)
    ensures Join(Split(s)) == s
  {
    if s != [] {
      var rest := Split(s[1..]);
      JoinOfSplit(s[1..]);
      assert s == [s[0]] + s[1..];
      if s[0] == ',' {
        assert ([[]] + rest)[1..] == rest;
      } else {
        assert ([[s[0]] + rest[0]] + rest[1..])[1..] == rest[1..];
      }
    }
  }

  // --------------------------------------------------------------------- words

  /** The trimmed parts that are not empty. */
  function CleanParts(parts: seq<string>): seq<string> {
    if parts == [] then []
    else if Trim(parts[0]) == [] then CleanParts(parts[1..])
    else [Trim(parts[0])] + CleanParts(parts[1..])
  }

  lemma {:induction false} CleanPartsMeaning(parts: seq<string>)
    ensures forall w :: w in CleanParts(parts) <==> w != [] && exists p :: p in parts && Trim(p) == w
  {
    if parts != [] {
      CleanPartsMeaning(parts[1..]);
      assert parts == [parts[0]] + parts[1..];
    }
  }

  /** The words of a list: its comma-separated items, trimmed, without the empty ones. */
  ghost function Words(list: string): set<string> {
    Elems(CleanParts(Split(list)))
  }

  predicate IsWord(w: string) {
    w != [] && Trimmed(w) && ',' !in w
  }

  lemma WordsAreWords(list: string)
    ensures forall w :: w in Words(list) ==> IsWord(w)
  {
    CleanPartsMeaning(Split(list));
    forall w | w in Words(list) ensures IsWord(w) {
      var p :| p in Split(list) && Trim(p) == w;
      TrimFacts(p);
    }
  }

  /** Joining words gives a list with exactly those words. */
  lemma WordsOfJoin(words: seq<string>)
    requires forall w :: w in words ==> IsWord(w)
    ensures Words(Join(words)) == Elems(words)
  {
    if words == [] {
      assert Split([]) == [[]];
      assert CleanParts([[]]) == [] by { TrimFacts([]); }
    } else {
      SplitOfJoin(words);
      CleanPartsMeaning(words);
      forall w | w in words ensures Trim(w) == w {
        TrimFacts(w);
      }
      forall w ensures w in CleanParts(words) <==> w in words {
        if w in CleanParts(words) {
          var p :| p in words && Trim(p) == w;
        }
      }
    }
  }

  function MergeStrings(existing: string, incoming: string): string {
    Join(SortedDistinct(CleanParts(Split(existing) + Split(incoming))))
  }

  /** The ascending listing of a set of words, joined. */
  ghost predicate ListsWords(list: string, words: set<string>) {
    exists s :: Ascending(s) && Elems(s) == words && list == Join(s)
  }

  lemma ListsWordsUnique(a: string, b: string, words: set<string>)
    requires ListsWords(a, words) && ListsWords(b, words)
    ensures a == b
  {
    var s :| Ascending(s) && Elems(s) == words && a == Join(s);
    var t :| Ascending(t) && Elems(t) == words && b == Join(t);
    AscendingUnique(s, t);
  }

  lemma {:induction false} CleanPartsAppend(p: seq<string>, q: seq<string>)
    ensures CleanParts(p + q) == CleanParts(p) + CleanParts(q)
  {
    if p == [] {
      assert p + q == q;
    } else {
      CleanPartsAppend(p[1..], q);
      assert (p + q)[0] == p[0] && (p + q)[1..] == p[1..] + q;
    }
  }

  /** Merging lists is the sorted union of their words. */
  lemma MergeStringsIsUnion(a: string, b: string)
    ensures ListsWords(MergeStrings(a, b), Words(a) + Words(b))
    ensures Words(MergeStrings(a, b)) == Words(a) + Words(b)
  {
    CleanPartsAppend(Split(a), Split(b));
    var s := SortedDistinct(CleanParts(Split(a) + Split(b)));
    assert Elems(s) == Words(a) + Words(b);
    WordsAreWords(a);
    WordsAreWords(b);
    assert forall w :: w in s ==> w in Elems(s);
    WordsOfJoin(s);
  }

  /** The merge depends only on the union. */
  lemma MergeStringsFollowUnion(a: string, b: string, c: string, d: string)
    requires Words(a) + Words(b) == Words(c) + Words(d)
    ensures MergeStrings(a, b) == MergeStrings(c, d)
  {
    MergeStringsIsUnion(a, b);
    MergeStringsIsUnion(c, d);
    ListsWordsUnique(MergeStrings(a, b), MergeStrings(c, d), Words(a) + Words(b));
  }

  /** A join: the order and the grouping of merges do not matter, and merging again changes nothing. */
  lemma MergeStringsIsJoin(a: string, b: string, c: string)
    ensures MergeStrings(a, b) == MergeStrings(b, a)
    ensures MergeStrings(MergeStrings(a, b), c) == MergeStrings(a, MergeStrings(b, c))
    ensures MergeStrings(MergeStrings(a, b), MergeStrings(a, b)) == MergeStrings(a, b)
    ensures MergeStrings(MergeStrings(a, b), a) == MergeStrings(a, b)
  {
    MergeStringsIsUnion(a, b);
    MergeStringsIsUnion(b, c);
    hide MergeStrings, Words;
    var ab, bc := MergeStrings(a, b), MergeStrings(b, c);
    assert Words(a) + Words(b) == Words(b) + Words(a);
    assert Words(ab) + Words(c) == Words(a) + Words(bc);
    assert Words(ab) + Words(ab) == Words(a) + Words(b);
    assert Words(ab) + Words(a) == Words(a) + Words(b);
    MergeStringsFollowUnion(a, b, b, a);
    MergeStringsFollowUnion(ab, c, a, bc);
    MergeStringsFollowUnion(ab, ab, a, b);
    MergeStringsFollowUnion(ab, a, a, b);
  }

  // ------------------------------------------------------------------- numbers

  ghost predicate Increasing(s: seq<nat>) {
    forall i, j :: 0 <= i < j < |s| ==> s[i] < s[j]
  }

  function InsertNumber(x: nat, s: seq<nat>): (r: seq<nat>)
    ensures Elems(r) == Elems(s) + {x}
  {
    if s == [] then [x]
    else if x == s[0] then s
    else if x < s[0] then [x] + s
    else
      var rest := InsertNumber(x, s[1..]);
      assert s == [s[0]] + s[1..];
      assert Elems([s[0]] + rest) == {s[0]} + Elems(rest);
      [s[0]] + rest
  }

  lemma {:induction false} InsertNumberIncreases(x: nat, s: seq<nat>)
    requires Increasing(s)
    ensures Increasing(InsertNumber(x, s))
  {
    if s != [] && x > s[0] {
      InsertNumberIncreases(x, s[1..]);
      InsertedAbove(s[0], x, s[1..]);
    }
  }

  lemma {:induction false} InsertedAbove(low: nat, x: nat, s: seq<nat>)
    requires low < x && forall j :: 0 <= j < |s| ==> low < s[j]
    ensures forall j :: 0 <= j < |InsertNumber(x, s)| ==> low < InsertNumber(x, s)[j]
  {
    if s != [] && x > s[0] {
      InsertedAbove(low, x, s[1..]);
    }
  }

  /** The numbers among the parts, sorted, without repeats; anything else is skipped. */
  function NumbersOf(parts: seq<string>): (r: seq<nat>)
    ensures Increasing(r)
  {
    if parts == [] then []
    else
      var rest := NumbersOf(parts[1..]);
      match ParseUnsigned(Trim(parts[0]), U32_MAX)
      case Some(n) => InsertNumberIncreases(n, rest); InsertNumber(n, rest)
      case None => rest
  }

  /** A number is found exactly when some part, trimmed, reads as it. */
  lemma {:induction false} NumbersOfMeaning(parts: seq<string>, n: nat)
    ensures n in NumbersOf(parts) <==> exists p :: p in parts && ParseUnsigned(Trim(p), 0xFFFF_FFFF) == Some(n)
  {
    hide ParseUnsigned, Trim;
    if parts != [] {
      NumbersOfMeaning(parts[1..], n);
      assert parts == [parts[0]] + parts[1..];
      assert n in NumbersOf(parts) <==> n in Elems(NumbersOf(parts));
      assert n in NumbersOf(parts[1..]) <==> n in Elems(NumbersOf(parts[1..]));
    }
  }

  ghost function Numbers(list: string): set<nat> {
    Elems(NumbersOf(Split(list)))
  }

  ghost function NumberIn(part: string): set<nat> {
    match ParseUnsigned(Trim(part), U32_MAX)
    case Some(n) => {n}
    case None => {}
  }

  lemma NumbersOfFirst(parts: seq<string>)
    ensures Elems(NumbersOf(parts)) == if parts == [] then {} else NumberIn(parts[0]) + Elems(NumbersOf(parts[1..]))
  {
    hide ParseUnsigned, Trim;
  }

  lemma {:induction false} NumbersOfAppend(p: seq<string>, q: seq<string>)
    ensures Elems(NumbersOf(p + q)) == Elems(NumbersOf(p)) + Elems(NumbersOf(q))
  {
    hide NumbersOf, NumberIn, Elems;
    NumbersOfFirst(p);
    NumbersOfFirst(p + q);
    if p == [] {
      assert p + q == q;
    } else {
      NumbersOfAppend(p[1..], q);
      assert (p + q)[0] == p[0] && (p + q)[1..] == p[1..] + q;
    }
  }

  lemma {:induction false} NumbersOfBounded(parts: seq<string>)
    ensures forall n :: n in NumbersOf(parts) ==> n <= U32_MAX
  {
    if parts != [] {
      NumbersOfBounded(parts[1..]);
      assert forall n :: n in NumbersOf(parts) <==> n in Elems(NumbersOf(parts));
    }
  }

  function Decimals(s: seq<nat>): (r: seq<string>)
    ensures |r| == |s|
  {
    if s == [] then [] else [Decimal(s[0])] + Decimals(s[1..])
  }

  /** Each number is written as its numeral. */
  lemma {:induction false} DecimalsAreNumerals(s: seq<nat>)
    ensures forall i :: 0 <= i < |s| ==> IsNumeral(Decimals(s)[i], s[i])
  {
    if s != [] {
      DecimalIsNumeral(s[0]);
      DecimalsAreNumerals(s[1..]);
      hide Decimal, IsNumeral;
      forall i | 0 <= i < |s| ensures IsNumeral(Decimals(s)[i], s[i]) {
        if i > 0 {
          assert Decimals(s)[i] == Decimals(s[1..])[i - 1] && s[i] == s[1..][i - 1];
        }
      }
    }
  }

  lemma DecimalIsWord(n: nat)
    ensures IsWord(Decimal(n))
  {
  }

  lemma {:induction false} DecimalsAreWords(s: seq<nat>)
    ensures forall w :: w in Decimals(s) ==> IsWord(w)
  {
    if s != [] {
      DecimalIsWord(s[0]);
      DecimalsAreWords(s[1..]);
    }
  }

  lemma {:induction false} NumbersOfDecimals(s: seq<nat>)
    requires forall i :: 0 <= i < |s| ==> s[i] <= U32_MAX
    ensures Elems(NumbersOf(Decimals(s))) == Elems(s)
  {
    hide NumbersOf, Decimal;
    NumbersOfFirst([]);
    if s != [] {
      NumbersOfDecimals(s[1..]);
      NumbersOfMore(s[0], Decimals(s[1..]));
      assert Decimals(s) == [Decimal(s[0])] + Decimals(s[1..]);
      hide Decimals;
      assert s == [s[0]] + s[1..];
    }
  }

  lemma NumbersOfMore(n: nat, parts: seq<string>)
    requires n <= U32_MAX
    ensures Elems(NumbersOf([Decimal(n)] + parts)) == Elems(NumbersOf(parts)) + {n}
  {
    DecimalReadsBack(n);
    hide Decimal, ParseUnsigned, Trim;
    var all := [Decimal(n)] + parts;
    assert all[0] == Decimal(n) && all[1..] == parts;
  }

  lemma DecimalReadsBack(n: nat)
    requires n <= U32_MAX
    ensures ParseUnsigned(Trim(Decimal(n)), U32_MAX) == Some(n)
  {
    DecimalIsWord(n);
    TrimFacts(Decimal(n));
    ParseDecimal(n, U32_MAX);
  }

  /** Joining the decimals of numbers gives a list with exactly those numbers. */
  lemma NumbersOfJoin(s: seq<nat>)
    requires forall n :: n in s ==> n <= U32_MAX
    ensures Numbers(Join(Decimals(s))) == Elems(s)
  {
    if s == [] {
      assert Split([]) == [[]];
      TrimFacts([]);
      assert NumbersOf([[]]) == [];
    } else {
      DecimalsAreWords(s);
      SplitOfJoin(Decimals(s));
      assert forall i :: 0 <= i < |s| ==> s[i] in s;
      NumbersOfDecimals(s);
    }
  }

  function MergeNumbers(existing: string, incoming: string): string {
    Join(Decimals(NumbersOf(Split(existing) + Split(incoming))))
  }

  ghost predicate ListsNumbers(list: string, numbers: set<nat>) {
    exists s: seq<nat> :: Increasing(s) && Elems(s) == numbers && list == Join(Decimals(s))
  }

  lemma {:induction false} IncreasingUnique(a: seq<nat>, b: seq<nat>)
    requires Increasing(a) && Increasing(b) && Elems(a) == Elems(b)
    ensures a == b
  {
    SameEmptiness(a, b);
    if a != [] {
      assert a[0] in Elems(a) && a[0] in Elems(b) && b[0] in Elems(b) && b[0] in Elems(a);
      assert a == [a[0]] + a[1..] && b == [b[0]] + b[1..];
      assert a[0] == b[0];
      assert Elems(a[1..]) == Elems(a) - {a[0]};
      assert Elems(b[1..]) == Elems(b) - {b[0]};
      IncreasingUnique(a[1..], b[1..]);
    }
  }

  lemma SameEmptiness(a: seq<nat>, b: seq<nat>)
    requires Elems(a) == Elems(b)
    ensures a == [] <==> b == []
  {
    if a != [] { assert a[0] in Elems(b); }
    if b != [] { assert b[0] in Elems(a); }
  }

  lemma ListsNumbersUnique(a: string, b: string, numbers: set<nat>)
    requires ListsNumbers(a, numbers) && ListsNumbers(b, numbers)
    ensures a == b
  {
    var s: seq<nat> :| Increasing(s) && Elems(s) == numbers && a == Join(Decimals(s));
    var t: seq<nat> :| Increasing(t) && Elems(t) == numbers && b == Join(Decimals(t));
    IncreasingUnique(s, t);
  }

  /** Merging number lists is the sorted union of their numbers. */
  lemma MergeNumbersIsUnion(a: string, b: string)
    ensures ListsNumbers(MergeNumbers(a, b), Numbers(a) + Numbers(b))
    ensures Numbers(MergeNumbers(a, b)) == Numbers(a) + Numbers(b)
  {
    var parts := Split(a) + Split(b);
    NumbersOfAppend(Split(a), Split(b));
    NumbersOfBounded(parts);
    NumbersOfJoin(NumbersOf(parts));
  }

  /** The merge depends only on the union. */
  lemma MergeNumbersFollowUnion(a: string, b: string, c: string, d: string)
    requires Numbers(a) + Numbers(b) == Numbers(c) + Numbers(d)
    ensures MergeNumbers(a, b) == MergeNumbers(c, d)
  {
    MergeNumbersIsUnion(a, b);
    MergeNumbersIsUnion(c, d);
    ListsNumbersUnique(MergeNumbers(a, b), MergeNumbers(c, d), Numbers(a) + Numbers(b));
  }

  /** A join: the order and the grouping of merges do not matter, and merging again changes nothing. */
  lemma MergeNumbersIsJoin(a: string, b: string, c: string)
    ensures MergeNumbers(a, b) == MergeNumbers(b, a)
    ensures MergeNumbers(MergeNumbers(a, b), c) == MergeNumbers(a, MergeNumbers(b, c))
    ensures MergeNumbers(MergeNumbers(a, b), MergeNumbers(a, b)) == MergeNumbers(a, b)
    ensures MergeNumbers(MergeNumbers(a, b), a) == MergeNumbers(a, b)
  {
    MergeNumbersIsUnion(a, b);
    MergeNumbersIsUnion(b, c);
    hide MergeNumbers, Numbers;
    var ab, bc := MergeNumbers(a, b), MergeNumbers(b, c);
    assert Numbers(a) + Numbers(b) == Numbers(b) + Numbers(a);
    assert Numbers(ab) + Numbers(c) == Numbers(a) + Numbers(bc);
    assert Numbers(ab) + Numbers(ab) == Numbers(a) + Numbers(b);
    assert Numbers(ab) + Numbers(a) == Numbers(a) + Numbers(b);
    MergeNumbersFollowUnion(a, b, b, a);
    MergeNumbersFollowUnion(ab, c, a, bc);
    MergeNumbersFollowUnion(ab, ab, a, b);
    MergeNumbersFollowUnion(ab, a, a, b);
  }
}
