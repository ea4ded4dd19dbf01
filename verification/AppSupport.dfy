/** Merging the settings of app-support profiles into locks. */
module AppSupport {
  import opened Outcomes
  import opened Sums
  import opened Text
  import opened Csv

  datatype Kind = BoolOr | CsvStrings | CsvU32 | Exact

  /** A normalised setting of a profile. */
  datatype Setting = Setting(key: string, kind: Kind, value: string)

  datatype Profile = Profile(name: string, settings: seq<Setting>)

  datatype Lock = Lock(kind: Kind, value: string, sources: set<string>)

  type Locks = map<string, Lock>

  /** One setting with the profile it comes from. */
  datatype Claim = Claim(source: string, setting: Setting)

  function AsciiLower(s: string): string {
    seq(|s|, i requires 0 <= i < |s| => if 'A' <= s[i] <= 'Z' then (s[i] as int + 32) as char else s[i])
  }

  /** `parse_bool_string(value).unwrap_or(false)`. */
  predicate Truthy(value: string) {
    AsciiLower(Trim(value)) in {"1", "true", "yes", "on"}
  }

  /** Equal up to the case of ASCII letters, where `b` is in lower case. */
  ghost predicate SameLetters(a: string, b: string) {
    |a| == |b| && forall i :: 0 <= i < |a| ==>
      if 'A' <= a[i] <= 'Z' then b[i] as int == a[i] as int + 32 else b[i] == a[i]
  }

  /** Four words mean true, in whatever case and with white space around; everything else means false. */
  lemma TruthyMeans(value: string)
    ensures Truthy(value) <==>
      var s := Trim(value); SameLetters(s, "1") || SameLetters(s, "true") || SameLetters(s, "yes") || SameLetters(s, "on")
  {
    var s := Trim(value);
    hide Trim;
    forall word ensures AsciiLower(s) == word <==> SameLetters(s, word) {
      LowerMeans(s, word);
    }
  }

  lemma LowerMeans(s: string, word: string)
    ensures AsciiLower(s) == word <==> SameLetters(s, word)
  {
    if SameLetters(s, word) {
      assert AsciiLower(s) == word;
    }
  }

  function BoolText(b: bool): string {
    if b then "1" else "0"
  }

  lemma BoolTextReadsBack(b: bool)
    ensures Truthy(BoolText(b)) == b
  {
    var s := BoolText(b);
    TrimFacts(s);
    assert Trim(s) == s;
    assert AsciiLower(s) == s;
    assert s[0] == if b then '1' else '0';
  }

  // ---------------------------------------------------------------- the merge

  function MergeValue(kind: Kind, existing: string, incoming: string): Result<string, string> {
    match kind
    case BoolOr => Ok(BoolText(Truthy(existing) || Truthy(incoming)))
    case CsvStrings => Ok(MergeStrings(existing, incoming))
    case CsvU32 => Ok(MergeNumbers(existing, incoming))
    case Exact => if existing == incoming then Ok(existing) else Err("conflicting app support values")
  }

  /** Merge one setting: a key seen for the first time starts from the setting itself. */
  function MergeOne(locks: Locks, claim: Claim): Result<Locks, string> {
    var s := claim.setting;
    var entry := if s.key in locks then locks[s.key] else Lock(s.kind, s.value, {});
    if entry.kind != s.kind then Err("app support merge mismatch")
    else
      match MergeValue(s.kind, entry.value, s.value)
      case Err(e) => Err(e)
      case Ok(value) => Ok(locks[s.key := Lock(entry.kind, value, entry.sources + {claim.source})])
  }

  // ------------------------------------------------ what the merge ought to be

  ghost function ClaimsOn(claims: set<Claim>, key: string): set<Claim> {
    set c | c in claims && c.setting.key == key
  }

  /** Two claims on one key that cannot both hold. */
  ghost predicate Clash(c: Claim, d: Claim) {
    c.setting.key == d.setting.key &&
    (c.setting.kind != d.setting.kind || (c.setting.kind == Exact && c.setting.value != d.setting.value))
  }

  ghost predicate Conflict(claims: set<Claim>) {
    exists c, d :: c in claims && d in claims && Clash(c, d)
  }

  ghost function AllWords(claims: set<Claim>): set<string> {
    set c, w | c in claims && w in Words(c.setting.value) :: w
  }

  ghost function AllNumbers(claims: set<Claim>): set<nat> {
    set c, n | c in claims && n in Numbers(c.setting.value) :: n
  }

  /** The value of a lock in terms of the claims on its key: a disjunction, a sorted union, or the one value claimed. */
  ghost predicate ValueHolds(claims: set<Claim>, kind: Kind, value: string) {
    match kind
    case BoolOr => value == if AnyTruthy(claims) then "1" else "0"
    case CsvStrings => ListsWords(value, AllWords(claims))
    case CsvU32 => ListsNumbers(value, AllNumbers(claims))
    case Exact => forall c :: c in claims ==> c.setting.value == value
  }

  ghost predicate LockHolds(claims: set<Claim>, lock: Lock) {
    && (forall c :: c in claims ==> c.setting.kind == lock.kind)
    && ValueHolds(claims, lock.kind, lock.value)
    && lock.sources == set c | c in claims :: c.source
  }

  ghost predicate LocksHold(claims: set<Claim>, locks: Locks) {
    && (forall key :: key in locks <==> ClaimsOn(claims, key) != {})
    && (forall key :: key in locks ==> LockHolds(ClaimsOn(claims, key), locks[key]))
  }

  /** The claims decide the outcome of the merge. */
  ghost predicate IsMerge(claims: set<Claim>, r: Result<Locks, string>) {
    if Conflict(claims) then r.Err? else r.Ok? && LocksHold(claims, r.value)
  }

  lemma LockUnique(claims: set<Claim>, a: Lock, b: Lock)
    requires claims != {} && LockHolds(claims, a) && LockHolds(claims, b)
    ensures a == b
  {
    var c :| c in claims;
    assert a.kind == c.setting.kind == b.kind;
    match a.kind
    case BoolOr =>
    case CsvStrings => ListsWordsUnique(a.value, b.value, AllWords(claims));
    case CsvU32 => ListsNumbersUnique(a.value, b.value, AllNumbers(claims));
    case Exact => assert a.value == c.setting.value == b.value;
  }

  /** Two successful merges of the same claims are the same locks. */
  lemma LocksUnique(claims: set<Claim>, a: Locks, b: Locks)
    requires LocksHold(claims, a) && LocksHold(claims, b)
    ensures a == b
  {
    forall key | key in a && key in b ensures a[key] == b[key] {
      LockUnique(ClaimsOn(claims, key), a[key], b[key]);
    }
    assert a.Keys == b.Keys;
  }

  // ------------------------------------------------------------- one claim more

  /** The value after one more claim on the same key. */
  lemma ValueStep(claims: set<Claim>, kind: Kind, value: string, c: Claim)
    requires claims != {} && ValueHolds(claims, kind, value)
    ensures kind != Exact ==> MergeValue(kind, value, c.setting.value).Ok?
    ensures MergeValue(kind, value, c.setting.value).Ok? ==>
      ValueHolds(claims + {c}, kind, MergeValue(kind, value, c.setting.value).value)
  {
    match kind
    case BoolOr => BoolStep(claims, value, c);
    case CsvStrings => WordsStep(claims, value, c);
    case CsvU32 => NumbersStep(claims, value, c);
    case Exact =>
  }

  ghost predicate AnyTruthy(claims: set<Claim>) {
    exists c :: c in claims && Truthy(c.setting.value)
  }

  lemma BoolStep(claims: set<Claim>, value: string, c: Claim)
    requires value == BoolText(AnyTruthy(claims))
    ensures BoolText(Truthy(value) || Truthy(c.setting.value)) == BoolText(AnyTruthy(claims + {c}))
  {
    BoolTextReadsBack(AnyTruthy(claims));
    hide Truthy;
    assert c in claims + {c};
    assert AnyTruthy(claims + {c}) <==> AnyTruthy(claims) || Truthy(c.setting.value);
  }

  lemma WordsStep(claims: set<Claim>, value: string, c: Claim)
    requires ListsWords(value, AllWords(claims))
    ensures ListsWords(MergeStrings(value, c.setting.value), AllWords(claims + {c}))
  {
    ListedWords(value, claims);
    MergeStringsIsUnion(value, c.setting.value);
    AllWordsGrow(claims, c);
    hide *;
  }

  lemma AllWordsGrow(claims: set<Claim>, c: Claim)
    ensures AllWords(claims + {c}) == AllWords(claims) + Words(c.setting.value)
  {
  }

  lemma NumbersStep(claims: set<Claim>, value: string, c: Claim)
    requires ListsNumbers(value, AllNumbers(claims))
    ensures ListsNumbers(MergeNumbers(value, c.setting.value), AllNumbers(claims + {c}))
  {
    ListedNumbers(value, claims);
    MergeNumbersIsUnion(value, c.setting.value);
    AllNumbersGrow(claims, c);
    hide *;
  }

  lemma AllNumbersGrow(claims: set<Claim>, c: Claim)
    ensures AllNumbers(claims + {c}) == AllNumbers(claims) + Numbers(c.setting.value)
  {
  }

  lemma ListedWords(value: string, claims: set<Claim>)
    requires ListsWords(value, AllWords(claims))
    ensures Words(value) == AllWords(claims)
  {
    var s :| Ascending(s) && Elems(s) == AllWords(claims) && value == Join(s);
    forall w | w in s ensures IsWord(w) {
      assert w in Elems(s);
      var c :| c in claims && w in Words(c.setting.value);
      WordsAreWords(c.setting.value);
    }
    WordsOfJoin(s);
  }

  lemma ListedNumbers(value: string, claims: set<Claim>)
    requires ListsNumbers(value, AllNumbers(claims))
    ensures Numbers(value) == AllNumbers(claims)
  {
    var s: seq<nat> :| Increasing(s) && Elems(s) == AllNumbers(claims) && value == Join(Decimals(s));
    forall n | n in s ensures n <= U32_MAX {
      assert n in Elems(s);
      var c :| c in claims && n in Numbers(c.setting.value);
      NumbersOfBounded(Split(c.setting.value));
    }
    NumbersOfJoin(s);
  }

  /** The value of a key's first claim, which is merged with itself. */
  lemma FirstValue(c: Claim)
    ensures var r := MergeValue(c.setting.kind, c.setting.value, c.setting.value);
      r.Ok? && ValueHolds({c}, c.setting.kind, r.value)
  {
    var v := c.setting.value;
    match c.setting.kind
    case BoolOr => assert AnyTruthy({c}) == Truthy(v) by { assert c in {c}; }
    case CsvStrings => WordsOfOne(c);
    case CsvU32 => NumbersOfOne(c);
    case Exact =>
  }

  lemma WordsOfOne(c: Claim)
    ensures ListsWords(MergeStrings(c.setting.value, c.setting.value), AllWords({c}))
  {
    var v := c.setting.value;
    MergeStringsIsUnion(v, v);
    hide ListsWords, Words, MergeStrings;
    assert AllWords({c}) == Words(v) + Words(v);
  }

  lemma NumbersOfOne(c: Claim)
    ensures ListsNumbers(MergeNumbers(c.setting.value, c.setting.value), AllNumbers({c}))
  {
    var v := c.setting.value;
    MergeNumbersIsUnion(v, v);
    hide ListsNumbers, Numbers, MergeNumbers;
    assert AllNumbers({c}) == Numbers(v) + Numbers(v);
  }

  lemma MergeStep(claims: set<Claim>, locks: Locks, c: Claim)
    requires !Conflict(claims) && LocksHold(claims, locks)
    ensures IsMerge(claims + {c}, MergeOne(locks, c))
  {
    if c.setting.key in locks {
      MergeKnown(claims, locks, c);
    } else {
      MergeNew(claims, locks, c);
    }
  }

  lemma MergeKnown(claims: set<Claim>, locks: Locks, c: Claim)
    requires !Conflict(claims) && LocksHold(claims, locks) && c.setting.key in locks
    ensures IsMerge(claims + {c}, MergeOne(locks, c))
  {
    var key := c.setting.key;
    var mine, lock := ClaimsOn(claims, key), locks[key];
    assert LockHolds(mine, lock);
    ValueStep(mine, lock.kind, lock.value, c);
    ConflictStep(claims, c, lock);
    var r := MergeOne(locks, c);
    hide ValueHolds, Conflict, MergeValue;
    if r.Ok? {
      var value := MergeValue(lock.kind, lock.value, c.setting.value).value;
      var next := Lock(lock.kind, value, lock.sources + {c.source});
      assert (set d | d in mine + {c} :: d.source) == lock.sources + {c.source};
      LocksExtend(claims, locks, c, next);
    }
    assert MergeValue(lock.kind, lock.value, c.setting.value).Err? ==> lock.kind == Exact;
    ExactClash(lock, c);
  }

  lemma ExactClash(lock: Lock, c: Claim)
    ensures MergeValue(lock.kind, lock.value, c.setting.value).Err? <==> lock.kind == Exact && c.setting.value != lock.value
  {
  }

  lemma MergeNew(claims: set<Claim>, locks: Locks, c: Claim)
    requires !Conflict(claims) && LocksHold(claims, locks) && c.setting.key !in locks
    ensures IsMerge(claims + {c}, MergeOne(locks, c))
  {
    var key := c.setting.key;
    assert ClaimsOn(claims, key) == {};
    forall d | d in claims ensures d.setting.key != key {
      assert d in ClaimsOn(claims, d.setting.key);
    }
    FirstValue(c);
    assert !Conflict(claims + {c});
    var value := MergeValue(c.setting.kind, c.setting.value, c.setting.value).value;
    hide ValueHolds, Conflict, MergeValue;
    var next := Lock(c.setting.kind, value, {} + {c.source});
    assert ClaimsOn(claims, key) + {c} == {c};
    assert (set d | d in {c} :: d.source) == {c.source};
    LocksExtend(claims, locks, c, next);
  }

  lemma LocksExtend(claims: set<Claim>, locks: Locks, c: Claim, lock: Lock)
    requires LocksHold(claims, locks) && LockHolds(ClaimsOn(claims, c.setting.key) + {c}, lock)
    ensures LocksHold(claims + {c}, locks[c.setting.key := lock])
  {
    var key := c.setting.key;
    var more := claims + {c};
    hide LockHolds;
    assert ClaimsOn(more, key) == ClaimsOn(claims, key) + {c};
    assert c in ClaimsOn(more, key);
    forall other | other != key ensures ClaimsOn(more, other) == ClaimsOn(claims, other) {
    }
  }

  /** With a lock in place, the next claim conflicts exactly when it clashes with the lock. */
  lemma ConflictStep(claims: set<Claim>, c: Claim, lock: Lock)
    requires !Conflict(claims) && ClaimsOn(claims, c.setting.key) != {}
    requires LockHolds(ClaimsOn(claims, c.setting.key), lock)
    ensures Conflict(claims + {c}) <==>
      c.setting.kind != lock.kind || (lock.kind == Exact && c.setting.value != lock.value)
  {
  }

  // ------------------------------------------------------------------ the loops

  ghost function ClaimsOf(source: string, settings: seq<Setting>): set<Claim> {
    set s | s in settings :: Claim(source, s)
  }

  ghost function AllClaims(profiles: seq<Profile>): set<Claim> {
    set i, s | 0 <= i < |profiles| && s in profiles[i].settings :: Claim(profiles[i].name, s)
  }

  lemma ConflictGrows(small: set<Claim>, large: set<Claim>)
    requires small <= large && Conflict(small)
    ensures Conflict(large)
  {
  }

  /** Fold every setting of every profile into the locks; the first clash ends the load. */
  method LoadAppSupport(profiles: seq<Profile>) returns (r: Result<Locks, string>)
    ensures IsMerge(AllClaims(profiles), r)
  {
    var locks: Locks := map[];
    ghost var seen: set<Claim> := {};
    for i := 0 to |profiles|
      invariant seen == AllClaims(profiles[..i])
      invariant !Conflict(seen) && LocksHold(seen, locks)
    {
      var profile := profiles[i];
      var merged := MergeProfile(locks, profile, seen);
      assert AllClaims(profiles[..i + 1]) == seen + ClaimsOf(profile.name, profile.settings) by {
        assert profiles[..i + 1] == profiles[..i] + [profile];
        ClaimsSplit(profiles[..i], profile);
      }
      ClaimsUpTo(profiles, i + 1);
      if merged.Err? {
        ConflictGrows(seen + ClaimsOf(profile.name, profile.settings), AllClaims(profiles));
        return merged;
      }
      locks := merged.value;
      seen := seen + ClaimsOf(profile.name, profile.settings);
    }
    assert profiles[..|profiles|] == profiles;
    r := Ok(locks);
  }

  lemma ClaimsSplit(profiles: seq<Profile>, p: Profile)
    ensures AllClaims(profiles + [p]) == AllClaims(profiles) + ClaimsOf(p.name, p.settings)
  {
    var more := profiles + [p];
    forall c | c in AllClaims(profiles) ensures c in AllClaims(more) {
      var i, s :| 0 <= i < |profiles| && s in profiles[i].settings && c == Claim(profiles[i].name, s);
      assert more[i] == profiles[i];
    }
    forall c | c in ClaimsOf(p.name, p.settings) ensures c in AllClaims(more) {
      assert more[|profiles|] == p;
    }
  }

  lemma ClaimsUpTo(profiles: seq<Profile>, i: nat)
    requires i <= |profiles|
    ensures AllClaims(profiles[..i]) <= AllClaims(profiles)
  {
  }

  method MergeProfile(start: Locks, profile: Profile, ghost seen: set<Claim>) returns (r: Result<Locks, string>)
    requires !Conflict(seen) && LocksHold(seen, start)
    ensures IsMerge(seen + ClaimsOf(profile.name, profile.settings), r)
  {
    var locks := start;
    hide Conflict, LocksHold, MergeOne;
    assert seen + ClaimsOf(profile.name, profile.settings[..0]) == seen;
    for i := 0 to |profile.settings|
      invariant !Conflict(seen + ClaimsOf(profile.name, profile.settings[..i]))
      invariant LocksHold(seen + ClaimsOf(profile.name, profile.settings[..i]), locks)
    {
      var claim := Claim(profile.name, profile.settings[i]);
      ghost var before := seen + ClaimsOf(profile.name, profile.settings[..i]);
      assert profile.settings[..i + 1] == profile.settings[..i] + [profile.settings[i]];
      assert seen + ClaimsOf(profile.name, profile.settings[..i + 1]) == before + {claim};
      MergeStep(before, locks, claim);
      var merged := MergeOne(locks, claim);
      if merged.Err? {
        assert before + {claim} <= seen + ClaimsOf(profile.name, profile.settings);
        ConflictGrows(before + {claim}, seen + ClaimsOf(profile.name, profile.settings));
        return merged;
      }
      locks := merged.value;
    }
    assert profile.settings[..|profile.settings|] == profile.settings;
    r := Ok(locks);
  }

  // ---------------------------------------------------------------- the claims

  /** In whatever order and with whatever repetition profiles and settings are merged, either every
      merge fails or all give the same locks; they fail exactly when two claims clash. */
  lemma MergeIgnoresOrder(profiles: seq<Profile>, others: seq<Profile>, r: Result<Locks, string>, s: Result<Locks, string>)
    requires AllClaims(profiles) == AllClaims(others)
    requires IsMerge(AllClaims(profiles), r) && IsMerge(AllClaims(others), s)
    ensures r.Err? <==> s.Err?
    ensures r.Err? <==> exists c, d :: c in AllClaims(profiles) && d in AllClaims(profiles) && Clash(c, d)
    ensures r.Ok? ==> r.value == s.value
  {
    if r.Ok? {
      LocksUnique(AllClaims(profiles), r.value, s.value);
    }
  }

  /** Merging a merged value with itself, or with any value already merged into it, changes nothing. */
  lemma MergedValueIsStable(kind: Kind, a: string, b: string)
    requires MergeValue(kind, a, b).Ok?
    ensures var m := MergeValue(kind, a, b).value;
      MergeValue(kind, m, m) == Ok(m) && MergeValue(kind, m, a) == Ok(m) && MergeValue(kind, m, b) == Ok(m)
  {
    match kind
    case BoolOr => BoolTextReadsBack(Truthy(a) || Truthy(b));
    case CsvStrings => MergeStringsIsJoin(a, b, b); MergeStringsIsJoin(b, a, a);
    case CsvU32 => MergeNumbersIsJoin(a, b, b); MergeNumbersIsJoin(b, a, a);
    case Exact =>
  }
}
