/**
 * The part of semantic versioning the update engine relies on.
 *
 * A published version is reduced to its (major, minor, patch) triple, ordered
 * lexicographically as `semver.compare` orders release versions.  The parsing
 * functions of the semver library (`validRange`, `valid`) and range matching
 * (`satisfies`) are not modelled: they are fields of a `Library` value, so every
 * result below holds for any behaviour of those functions.  `minSatisfying` of
 * tasks/bower-update.js and the library's `maxSatisfying` are modelled on top.
 */
module Semver {
  import opened Wrappers

  datatype Version = Version(major: nat, minor: nat, patch: nat)

  /** The semver library functions the engine calls, taken as given. */
  datatype Library = Library(
    validRange: string -> Option<string>,   // normalised range, or null for an invalid target
    valid: string -> Option<string>,        // the cleaned version if the string is a bare version
    satisfies: (Version, string) -> bool)   // does the version match the normalised range

  /** `semver.compare(a, b) <= 0`. */
  predicate Le(a: Version, b: Version) {
    a.major < b.major
    || (a.major == b.major && (a.minor < b.minor || (a.minor == b.minor && a.patch <= b.patch)))
  }

  lemma LeTotal(a: Version, b: Version)
    ensures Le(a, b) || Le(b, a)
  {
  }

  lemma LeAntisymmetric(a: Version, b: Version)
    requires Le(a, b) && Le(b, a)
    ensures a == b
  {
  }

  lemma LeTrans(a: Version, b: Version, c: Version)
    requires Le(a, b) && Le(b, c)
    ensures Le(a, c)
  {
  }

  /** `Le` is a total order: the three facts above for all versions at once. */
  lemma LeIsTotalOrder()
    ensures forall a, b :: Le(a, b) || Le(b, a)
    ensures forall a, b :: Le(a, b) && Le(b, a) ==> a == b
    ensures forall a, b, c :: Le(a, b) && Le(b, c) ==> Le(a, c)
  {
    forall a, b ensures Le(a, b) || Le(b, a) { LeTotal(a, b); }
    forall a, b | Le(a, b) && Le(b, a) ensures a == b { LeAntisymmetric(a, b); }
    forall a, b, c | Le(a, b) && Le(b, c) ensures Le(a, c) { LeTrans(a, b, c); }
  }

  /** A range that failed to parse (`null`) is satisfied by no version. */
  predicate Satisfies(lib: Library, v: Version, range: Option<string>) {
    range.Some? && lib.satisfies(v, range.value)
  }

  // ---------------------------------------------------------------------------
  // Rendering a version as the string the registry publishes ("1.10.0")

  predicate IsDigit(c: char) { '0' <= c <= '9' }

  function DigitChar(d: nat): (c: char)
    requires d < 10
    ensures IsDigit(c)
  {
    ['0', '1', '2', '3', '4', '5', '6', '7', '8', '9'][d]
  }

  function DigitValue(c: char): nat
    requires IsDigit(c)
  {
    c as int - '0' as int
  }

  /** Decimal notation of n, without leading zeros. */
  function Decimal(n: nat): (s: string)
    ensures |s| > 0 && forall i :: 0 <= i < |s| ==> IsDigit(s[i])
  {
    if n < 10 then [DigitChar(n)] else Decimal(n / 10) + [DigitChar(n % 10)]
  }

  /** The value of a string of decimal digits (the inverse of Decimal). */
  function DecimalValue(s: string): nat
    requires forall i :: 0 <= i < |s| ==> IsDigit(s[i])
  {
    if s == [] then 0 else 10 * DecimalValue(s[..|s| - 1]) + DigitValue(s[|s| - 1])
  }

  lemma {:induction false} DecimalRoundTrip(n: nat)
    ensures DecimalValue(Decimal(n)) == n
  {
    var s := Decimal(n);
    if n < 10 {
      assert s == [DigitChar(n)];
    } else {
      DecimalRoundTrip(n / 10);
      assert s[..|s| - 1] == Decimal(n / 10);
      assert DigitValue(DigitChar(n % 10)) == n % 10;
    }
  }

  function Text(v: Version): (s: string)
    ensures |s| > 0 && IsDigit(s[0])
  {
    Decimal(v.major) + "." + Decimal(v.minor) + "." + Decimal(v.patch)
  }

  predicate AllDigits(s: string) {
    forall i :: 0 <= i < |s| ==> IsDigit(s[i])
  }

  /**
   * Two strings joined by "." split back into the same parts when both heads,
   * or both tails, are dot-free digit strings.
   */
  lemma SplitAtDot(x: string, y: string, x': string, y': string)
    requires (AllDigits(x) && AllDigits(x')) || (AllDigits(y) && AllDigits(y'))
    requires x + "." + y == x' + "." + y'
    ensures x == x' && y == y'
  {
    var s := x + "." + y;
    assert s[|x|] == '.';
    assert s[|x'|] == '.';
    assert |x| == |x'|;
    assert x == s[..|x|] == x';
    assert y == s[|x| + 1..] == y';
  }

  /** Distinct versions are published under distinct strings. */
  lemma DecimalInjective(m: nat, n: nat)
    requires Decimal(m) == Decimal(n)
    ensures m == n
  {
    DecimalRoundTrip(m);
    DecimalRoundTrip(n);
  }

  lemma TextInjective(a: Version, b: Version)
    requires Text(a) == Text(b)
    ensures a == b
  {
    var ha := Decimal(a.major) + "." + Decimal(a.minor);
    var hb := Decimal(b.major) + "." + Decimal(b.minor);
    SplitAtDot(ha, Decimal(a.patch), hb, Decimal(b.patch));
    SplitAtDot(Decimal(a.major), Decimal(a.minor), Decimal(b.major), Decimal(b.minor));
    DecimalInjective(a.major, b.major);
    DecimalInjective(a.minor, b.minor);
    DecimalInjective(a.patch, b.patch);
  }

  // ---------------------------------------------------------------------------
  // filter / sort, as minSatisfying and maxSatisfying do

  /** `versions.filter(v => semver.satisfies(v, range))`. */
  function Satisfying(lib: Library, versions: seq<Version>, range: Option<string>): (r: seq<Version>)
    ensures forall v :: v in r <==> v in versions && Satisfies(lib, v, range)
  {
    if versions == [] then []
    else (if Satisfies(lib, versions[0], range) then [versions[0]] else [])
         + Satisfying(lib, versions[1..], range)
  }

  predicate Sorted(s: seq<Version>) {
    forall i, j :: 0 <= i < j < |s| ==> Le(s[i], s[j])
  }

  function Insert(x: Version, s: seq<Version>): (r: seq<Version>)
    ensures |r| == |s| + 1
  {
    if s == [] then [x]
    else if Le(x, s[0]) then [x] + s
    else [s[0]] + Insert(x, s[1..])
  }

  /** Inserting adds exactly one occurrence of the new element. */
  lemma {:induction false} InsertPermutes(x: Version, s: seq<Version>)
    ensures multiset(Insert(x, s)) == multiset(s) + multiset{x}
  {
    if s != [] && !Le(x, s[0]) {
      InsertPermutes(x, s[1..]);
      assert s == [s[0]] + s[1..];
    }
  }

  /** Inserting into an ascending list keeps it ascending. */
  lemma {:induction false} InsertSorted(x: Version, s: seq<Version>)
    requires Sorted(s)
    ensures Sorted(Insert(x, s))
  {
    if s != [] {
      if Le(x, s[0]) {
        forall k | 0 <= k < |s| ensures Le(x, s[k]) { LeTrans(x, s[0], s[k]); }
      } else {
        var t := Insert(x, s[1..]);
        InsertSorted(x, s[1..]);
        InsertPermutes(x, s[1..]);
        LeTotal(x, s[0]);
        forall k | 0 <= k < |t| ensures Le(s[0], t[k]) {
          assert t[k] in multiset(t);
          assert t[k] == x || t[k] in s[1..];
        }
      }
    }
  }

  /** `.sort(semver.compare)`, as an insertion sort. */
  function Sort(s: seq<Version>): (r: seq<Version>)
    ensures |r| == |s|
  {
    if s == [] then [] else Insert(s[0], Sort(s[1..]))
  }

  /** The sorted list is a permutation of its input. */
  lemma {:induction false} SortPermutes(s: seq<Version>)
    ensures multiset(Sort(s)) == multiset(s)
  {
    if s != [] {
      SortPermutes(s[1..]);
      InsertPermutes(s[0], Sort(s[1..]));
      assert s == [s[0]] + s[1..];
    }
  }

  /** The sorted list is ascending and has the members of its input. */
  lemma {:induction false} SortSorts(s: seq<Version>)
    ensures Sorted(Sort(s))
    ensures forall v :: v in Sort(s) <==> v in s
  {
    if s != [] {
      SortSorts(s[1..]);
      InsertSorted(s[0], Sort(s[1..]));
    }
    SortPermutes(s);
    assert forall v :: v in Sort(s) <==> v in multiset(Sort(s));
  }

  /** The first element of an ascending list is its least, the last its greatest. */
  lemma SortedBounds(s: seq<Version>)
    requires Sorted(s) && |s| > 0
    ensures forall v :: v in s ==> Le(s[0], v) && Le(v, s[|s| - 1])
  {
    forall v | v in s ensures Le(s[0], v) && Le(v, s[|s| - 1]) {
      var k :| 0 <= k < |s| && s[k] == v;
    }
  }

  /**
   * `minSatisfying(versions, range)`: the first element of the satisfying
   * versions sorted ascending, or null when there is none.
   */
  function MinSatisfying(lib: Library, versions: seq<Version>, range: Option<string>): (r: Option<Version>)
    ensures r.None? <==> forall v :: v in versions ==> !Satisfies(lib, v, range)
    ensures r.Some? ==> r.value in versions && Satisfies(lib, r.value, range)
    ensures r.Some? ==> forall v :: v in versions && Satisfies(lib, v, range) ==> Le(r.value, v)
  {
    var sorted := Sort(Satisfying(lib, versions, range));
    SortSorts(Satisfying(lib, versions, range));
    if |sorted| == 0 then None
    else
      assert sorted[0] in sorted;
      SortedBounds(sorted);
      Some(sorted[0])
  }

  /**
   * `semver.maxSatisfying(versions, range)`: the highest satisfying version,
   * the last element of the same ascending sort, or null when there is none.
   */
  function MaxSatisfying(lib: Library, versions: seq<Version>, range: Option<string>): (r: Option<Version>)
    ensures r.None? <==> forall v :: v in versions ==> !Satisfies(lib, v, range)
    ensures r.Some? ==> r.value in versions && Satisfies(lib, r.value, range)
    ensures r.Some? ==> forall v :: v in versions && Satisfies(lib, v, range) ==> Le(v, r.value)
  {
    var sorted := Sort(Satisfying(lib, versions, range));
    SortSorts(Satisfying(lib, versions, range));
    if |sorted| == 0 then None
    else
      assert sorted[|sorted| - 1] in sorted;
      SortedBounds(sorted);
      Some(sorted[|sorted| - 1])
  }

  /** The minimum and maximum exist together, and the minimum is not above the maximum. */
  lemma MinNotAboveMax(lib: Library, versions: seq<Version>, range: Option<string>)
    ensures MinSatisfying(lib, versions, range).None? <==> MaxSatisfying(lib, versions, range).None?
    ensures MinSatisfying(lib, versions, range).Some? ==>
      Le(MinSatisfying(lib, versions, range).value, MaxSatisfying(lib, versions, range).value)
  {
  }

  /** Duplicated entries in the published list do not change the minimum. */
  lemma MinIgnoresDuplicates(lib: Library, versions: seq<Version>, range: Option<string>, i: nat)
    requires i < |versions|
    ensures MinSatisfying(lib, versions + [versions[i]], range) == MinSatisfying(lib, versions, range)
  {
    var a := MinSatisfying(lib, versions + [versions[i]], range);
    var b := MinSatisfying(lib, versions, range);
    if a.Some? && b.Some? {
      LeIsTotalOrder();
    }
  }
}
