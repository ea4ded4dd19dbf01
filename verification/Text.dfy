/** Strings as they are compared, printed, parsed and sorted. */
module Text {
  import opened Outcomes
  import opened Sums

  // ---------------------------------------------------------------- order

  /** Lexicographic order by character; on UTF-8 text this is the byte order. */
  predicate StrLess(a: string, b: string) {
    b != [] && (a == [] || a[0] < b[0] || (a[0] == b[0] && StrLess(a[1..], b[1..])))
  }

  lemma {:induction false} StrLessTotal(a: string, b: string)
    ensures a == b || StrLess(a, b) || StrLess(b, a)
  {
    if a != [] && b != [] && a[0] == b[0] {
      StrLessTotal(a[1..], b[1..]);
      assert a == [a[0]] + a[1..] && b == [b[0]] + b[1..];
    }
  }

  lemma {:induction false} StrLessTransitive(a: string, b: string, c: string)
    requires StrLess(a, b) && StrLess(b, c)
    ensures StrLess(a, c)
  {
    if a != [] && a[0] == b[0] == c[0] {
      StrLessTransitive(a[1..], b[1..], c[1..]);
    }
  }

  lemma {:induction false} StrLessStrict(a: string, b: string)
    requires StrLess(a, b)
    ensures !StrLess(b, a) && a != b
  {
    if a != [] && a[0] == b[0] {
      StrLessStrict(a[1..], b[1..]);
    }
  }

  /** The first difference decides; of two strings without one, the shorter comes first. */
  ghost predicate DiffersFirstAt(a: string, b: string, k: nat) {
    k <= |a| && k < |b| && a[..k] == b[..k] && (k == |a| || a[k] < b[k])
  }

  lemma {:induction false} StrLessMeans(a: string, b: string)
    ensures StrLess(a, b) <==> exists k: nat :: DiffersFirstAt(a, b, k)
  {
    if a != [] && b != [] && a[0] == b[0] {
      StrLessMeans(a[1..], b[1..]);
      if k: nat :| DiffersFirstAt(a[1..], b[1..], k) {
        assert a[..k + 1] == [a[0]] + a[1..][..k] && b[..k + 1] == [b[0]] + b[1..][..k];
        assert DiffersFirstAt(a, b, k + 1);
      }
      if k: nat :| DiffersFirstAt(a, b, k) {
        assert k > 0;
        assert a[1..][..k - 1] == a[..k][1..] && b[1..][..k - 1] == b[..k][1..];
        assert DiffersFirstAt(a[1..], b[1..], k - 1);
      }
    } else if StrLess(a, b) {
      assert DiffersFirstAt(a, b, 0);
    } else {
      assert forall k: nat :: DiffersFirstAt(a, b, k) && k > 0 ==> a[..k][0] == b[..k][0];
    }
  }

  // -------------------------------------------------- sort and drop repeats

  ghost predicate Ascending(s: seq<string>) {
    forall i, j :: 0 <= i < j < |s| ==> StrLess(s[i], s[j])
  }

  function InsertDistinct(x: string, s: seq<string>): (r: seq<string>)
    ensures Elems(r) == Elems(s) + {x}
  {
    if s == [] then [x]
    else if x == s[0] then s
    else if StrLess(x, s[0]) then [x] + s
    else
      var rest := InsertDistinct(x, s[1..]);
      assert s == [s[0]] + s[1..];
      assert Elems([s[0]] + rest) == {s[0]} + Elems(rest);
      [s[0]] + rest
  }

  lemma {:induction false} InsertDistinctAscends(x: string, s: seq<string>)
    requires Ascending(s)
    ensures Ascending(InsertDistinct(x, s))
  {
    if s != [] && x != s[0] {
      StrLessTotal(x, s[0]);
      if StrLess(x, s[0]) {
        forall j | 0 <= j < |s| ensures StrLess(x, s[j]) {
          if j > 0 { StrLessTransitive(x, s[0], s[j]); }
        }
      } else {
        InsertDistinctAscends(x, s[1..]);
        var rest := InsertDistinct(x, s[1..]);
        forall j | 0 <= j < |rest| ensures StrLess(s[0], rest[j]) {
          assert rest[j] in Elems(rest);
          if rest[j] != x {
            assert rest[j] in Elems(s[1..]);
          }
        }
      }
    }
  }

  /** `sort` followed by `dedup`. */
  function SortedDistinct(values: seq<string>): (r: seq<string>)
    ensures Ascending(r)
    ensures Elems(r) == Elems(values)
  {
    if values == [] then []
    else
      var rest := SortedDistinct(values[1..]);
      assert values == [values[0]] + values[1..];
      InsertDistinctAscends(values[0], rest);
      InsertDistinct(values[0], rest)
  }

  /** A set of strings has only one ascending listing. */
  lemma {:induction false} AscendingUnique(a: seq<string>, b: seq<string>)
    requires Ascending(a) && Ascending(b) && Elems(a) == Elems(b)
    ensures a == b
  {
    EmptyElems(a);
    EmptyElems(b);
    if a != [] {
      assert a[0] in Elems(a) && a[0] in Elems(b);
      assert b[0] in Elems(b) && b[0] in Elems(a);
      AscendingHeadLeast(a, b[0]);
      AscendingHeadLeast(b, a[0]);
      if a[0] != b[0] {
        StrLessStrict(a[0], b[0]);
        assert false;
      }
      TailElems(a);
      TailElems(b);
      AscendingUnique(a[1..], b[1..]);
    }
  }

  lemma EmptyElems(s: seq<string>)
    ensures s == [] <==> Elems(s) == {}
  {
    if s != [] {
      assert s[0] in Elems(s);
    }
  }

  lemma AscendingHeadLeast(s: seq<string>, x: string)
    requires Ascending(s) && x in s
    ensures s[0] == x || StrLess(s[0], x)
  {
  }

  lemma TailElems(s: seq<string>)
    requires s != [] && Ascending(s)
    ensures Elems(s[1..]) == Elems(s) - {s[0]}
  {
    forall j | 1 <= j < |s| ensures s[j] != s[0] {
      StrLessStrict(s[0], s[j]);
    }
    assert s == [s[0]] + s[1..];
  }

  // -------------------------------------------------------------- numbers

  predicate IsDigit(c: char) {
    '0' <= c <= '9'
  }

  function DigitChar(d: nat): (c: char)
    requires d < 10
    ensures IsDigit(c) && DigitValue(c) == d
  {
    ('0' as int + d) as char
  }

  function DigitValue(c: char): nat
    requires IsDigit(c)
  {
    c as int - '0' as int
  }

  /** Decimal text of a number, without leading zeros. */
  function Decimal(n: nat): (r: string)
    ensures r != [] && forall i :: 0 <= i < |r| ==> IsDigit(r[i])
  {
    if n < 10 then [DigitChar(n)] else Decimal(n / 10) + [DigitChar(n % 10)]
  }

  function DigitsValue(s: string): nat
    requires forall i :: 0 <= i < |s| ==> IsDigit(s[i])
  {
    if s == [] then 0
    else 10 * DigitsValue(s[..|s| - 1]) + DigitValue(s[|s| - 1])
  }

  function WithoutPlus(s: string): string {
    if s != [] && s[0] == '+' then s[1..] else s
  }

  /** An optional plus sign, then one or more digits, not above `max`. */
  function ParseUnsigned(s: string, max: nat): Option<nat> {
    var body := WithoutPlus(s);
    if body == [] || exists i :: 0 <= i < |body| && !IsDigit(body[i]) then None
    else
      var v := DigitsValue(body);
      if v > max then None else Some(v)
  }

  lemma {:induction false} DecimalValue(n: nat)
    ensures DigitsValue(Decimal(n)) == n
  {
    if n >= 10 {
      DecimalValue(n / 10);
      var r := Decimal(n);
      assert r[..|r| - 1] == Decimal(n / 10);
    }
  }

  lemma ParseDecimal(n: nat, max: nat)
    requires n <= max
    ensures ParseUnsigned(Decimal(n), max) == Some(n)
  {
    DecimalValue(n);
    assert IsDigit(Decimal(n)[0]);
  }

  lemma DecimalInjective(m: nat, n: nat)
    requires Decimal(m) == Decimal(n)
    ensures m == n
  {
    DecimalValue(m);
    DecimalValue(n);
  }

  /** Text up to the first separator decides itself: the two halves are determined. */
  lemma {:induction false} SeparatedInjective(a: string, b: string, c: string, d: string, sep: char)
    requires sep !in a && sep !in c
    requires a + [sep] + b == c + [sep] + d
    ensures a == c && b == d
  {
    var left, right := a + [sep] + b, c + [sep] + d;
    if a == [] || c == [] {
      assert left[0] == right[0];
      assert a == [] && c == [];
      assert left[1..] == b && right[1..] == d;
    } else {
      assert left[0] == a[0] && right[0] == c[0];
      assert left[1..] == a[1..] + [sep] + b;
      assert right[1..] == c[1..] + [sep] + d;
      SeparatedInjective(a[1..], b, c[1..], d, sep);
      assert a == [a[0]] + a[1..] && c == [c[0]] + c[1..];
    }
  }

  /** `haystack.contains(needle)`. */
  predicate Contains(haystack: string, needle: string) {
    needle <= haystack || (haystack != [] && Contains(haystack[1..], needle))
  }

  /** The needle stands in the haystack at position `i`. */
  ghost predicate OccursAt(haystack: string, needle: string, i: int) {
    0 <= i <= |haystack| - |needle| && haystack[i..i + |needle|] == needle
  }

  /** The search finds every occurrence, wherever it stands, and nothing else. */
  lemma {:induction false} ContainsMeans(haystack: string, needle: string)
    ensures Contains(haystack, needle) <==> exists i :: OccursAt(haystack, needle, i)
  {
    OccursAtStart(haystack, needle);
    if haystack != [] {
      ContainsMeans(haystack[1..], needle);
      if i :| OccursAt(haystack[1..], needle, i) {
        OccursLater(haystack, needle, i);
      }
      if i :| OccursAt(haystack, needle, i) && i != 0 {
        OccursLater(haystack, needle, i - 1);
      }
    }
  }

  lemma OccursAtStart(haystack: string, needle: string)
    ensures OccursAt(haystack, needle, 0) <==> needle <= haystack
    ensures haystack == [] ==> forall i :: OccursAt(haystack, needle, i) ==> i == 0
  {
  }

  lemma OccursLater(haystack: string, needle: string, i: int)
    requires haystack != []
    ensures OccursAt(haystack, needle, i + 1) ==> i >= -1
    ensures i >= 0 ==> (OccursAt(haystack, needle, i + 1) <==> OccursAt(haystack[1..], needle, i))
  {
    if 0 <= i <= |haystack| - |needle| - 1 {
      var there, here := haystack[i + 1..i + 1 + |needle|], haystack[1..][i..i + |needle|];
      forall k | 0 <= k < |there| ensures there[k] == here[k] {
        assert haystack[1..][i + k] == haystack[i + k + 1];
      }
      assert there == here;
    }
  }

  // ------------------------------------------------------- what numbers mean

  ghost function Power10(n: nat): nat {
    if n == 0 then 1 else 10 * Power10(n - 1)
  }

  predicate AllDigits(s: string) {
    forall i :: 0 <= i < |s| ==> '0' <= s[i] <= '9'
  }

  /** What decimal digits are worth by their places. */
  ghost function PlaceValue(s: string): nat
    requires AllDigits(s)
  {
    if s == [] then 0
    else
      ProductNotNegative(s[0] as int - 48, Power10(|s| - 1));
      (s[0] as int - 48) * Power10(|s| - 1) + PlaceValue(s[1..])
  }

  lemma ProductNotNegative(a: nat, b: nat)
    ensures a * b >= 0
  {
  }

  lemma {:induction false} DigitsHavePlaceValue(s: string)
    requires AllDigits(s)
    ensures DigitsValue(s) == PlaceValue(s)
  {
    if |s| == 1 {
      assert s[..0] == [] && s[1..] == [];
      assert PlaceValue(s) == (s[0] as int - 48) * Power10(0);
    } else if s != [] {
      var n, front, last := |s|, s[..|s| - 1], s[|s| - 1];
      DigitsHavePlaceValue(s[1..]);
      DigitsHavePlaceValue(front);
      DigitsHavePlaceValue(front[1..]);
      assert s[1..][..n - 2] == front[1..] && s[1..][n - 2] == last && front[0] == s[0];
      PlacesShift(s[0] as int - 48, Power10(n - 2), PlaceValue(front[1..]));
    }
  }

  lemma PlacesShift(digit: int, power: nat, rest: nat)
    ensures 10 * (digit * power + rest) == digit * (10 * power) + 10 * rest
  {
  }

  /** A numeral of `n`: digits worth `n`, without leading zeros. */
  ghost predicate IsNumeral(s: string, n: nat) {
    s != [] && AllDigits(s) && PlaceValue(s) == n && (s[0] == '0' ==> |s| == 1)
  }

  /** A number is printed as its numeral, and it has only one. */
  lemma {:induction false} DecimalIsNumeral(n: nat)
    ensures IsNumeral(Decimal(n), n)
  {
    DecimalValue(n);
    DigitsHavePlaceValue(Decimal(n));
    if n >= 10 {
      DecimalIsNumeral(n / 10);
      assert Decimal(n)[0] == Decimal(n / 10)[0];
      NoLeadingZero(Decimal(n / 10), n / 10);
    }
  }

  lemma NoLeadingZero(s: string, n: nat)
    requires IsNumeral(s, n) && n > 0
    ensures s[0] != '0'
  {
    assert |s| == 1 ==> s[1..] == [] && PlaceValue(s) == (s[0] as int - 48) * Power10(0);
  }

  lemma {:induction false} NumeralUnique(s: string, n: nat)
    requires IsNumeral(s, n)
    ensures s == Decimal(n)
  {
    DigitsHavePlaceValue(s);
    var front, last := s[..|s| - 1], s[|s| - 1];
    assert s == front + [last];
    DigitsHavePlaceValue(front);
    assert n == 10 * PlaceValue(front) + DigitValue(last);
    assert DigitChar(DigitValue(last)) == last;
    if |s| > 1 {
      LeadingDigitCounts(front);
      NumeralUnique(front, PlaceValue(front));
    } else {
      assert PlaceValue(front) == 0;
    }
  }

  lemma {:induction false} LeadingDigitCounts(s: string)
    requires s != [] && AllDigits(s) && s[0] != '0'
    ensures PlaceValue(s) > 0
  {
    PowerPositive(|s| - 1);
    Product(s[0] as int - 48, Power10(|s| - 1));
  }

  lemma {:induction false} PowerPositive(n: nat)
    ensures Power10(n) > 0
  {
    if n > 0 { PowerPositive(n - 1); }
  }

  lemma Product(a: int, b: int)
    requires a > 0 && b > 0
    ensures a * b > 0
  {
  }

  /** The text is these digits, perhaps after one plus sign, and they are worth `n`. */
  ghost predicate ReadsAs(s: string, digits: string, n: nat) {
    (s == digits || s == "+" + digits) && digits != [] && AllDigits(digits) && PlaceValue(digits) == n
  }

  /** A text is read as a number exactly when it is digits, perhaps after one plus sign, worth at most `max`. */
  lemma ParseMeans(s: string, max: nat, n: nat)
    ensures ParseUnsigned(s, max) == Some(n) <==> n <= max && exists digits :: ReadsAs(s, digits, n)
  {
    var body := WithoutPlus(s);
    if body != [] && AllDigits(body) {
      DigitsHavePlaceValue(body);
      assert s == body || s == "+" + body;
    }
    forall digits | ReadsAs(s, digits, n) ensures digits == body {
      if s != digits { assert s[0] == '+' && s[1..] == digits; }
    }
    if body != [] && AllDigits(body) && DigitsValue(body) == n {
      assert ReadsAs(s, body, n);
    }
  }
}
