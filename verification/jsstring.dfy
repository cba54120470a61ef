/** JavaScript strings as sequences of UTF-16 code units.

    JavaScript compares strings, sorts them with the default `sort()`, tests
    `includes` and applies regular expressions without the `u` flag one code
    unit at a time, so the model keeps that representation rather than Dafny's
    `string` (whose characters are Unicode scalar values). */
module JsStrings {

  /** One UTF-16 code unit. */
  type CodeUnit = x: int | 0 <= x < 0x1_0000

  type JsString = seq<CodeUnit>

  const Underscore: CodeUnit := 0x5F  // '_'
  const Hyphen: CodeUnit := 0x2D      // '-'

  /** `a <= b` for JavaScript strings: lexicographic order on code units, where
      a proper prefix sorts first. */
  predicate Le(a: JsString, b: JsString)
    decreases |a|
  {
    |a| == 0 || (|b| > 0 && (a[0] < b[0] || (a[0] == b[0] && Le(a[1..], b[1..]))))
  }

  lemma {:induction false} LeReflexive(a: JsString)
    ensures Le(a, a)
    decreases |a|
  {
    if |a| > 0 {
      LeReflexive(a[1..]);
    }
  }

  /** Any two strings are comparable. */
  lemma {:induction false} LeTotal(a: JsString, b: JsString)
    ensures Le(a, b) || Le(b, a)
    decreases |a|
  {
    if |a| > 0 && |b| > 0 && a[0] == b[0] {
      LeTotal(a[1..], b[1..]);
    }
  }

  /** Two strings that sort no later than each other are the same string. */
  lemma {:induction false} LeAntisymmetric(a: JsString, b: JsString)
    requires Le(a, b) && Le(b, a)
    ensures a == b
    decreases |a|
  {
    if |a| > 0 {
      LeAntisymmetric(a[1..], b[1..]);
      assert a == [a[0]] + a[1..] && b == [b[0]] + b[1..];
    }
  }

  predicate Sorted(s: seq<JsString>) {
    forall i :: 0 <= i < |s| - 1 ==> Le(s[i], s[i + 1])
  }

  /** Inserts `x` in front of the first element it sorts no later than. */
  function Insert(x: JsString, s: seq<JsString>): (r: seq<JsString>)
    ensures |r| == |s| + 1
    ensures r[0] == x || (|s| > 0 && r[0] == s[0])
    ensures multiset(r) == multiset(s) + multiset{x}
    ensures Sorted(s) ==> Sorted(r)
  {
    if |s| == 0 then [x]
    else if Le(x, s[0]) then [x] + s
    else
      LeTotal(x, s[0]);
      assert s == [s[0]] + s[1..];
      [s[0]] + Insert(x, s[1..])
  }

  /** `Array.prototype.sort()` without a comparator, on an array of strings:
      the result is the ascending rearrangement of the input. (The JavaScript
      sort is stable, but equal strings are identical, so stability cannot be
      observed here.) */
  function Sort(s: seq<JsString>): (r: seq<JsString>)
    ensures Sorted(r)
    ensures multiset(r) == multiset(s)
  {
    if |s| == 0 then []
    else
      assert s == [s[0]] + s[1..];
      Insert(s[0], Sort(s[1..]))
  }

  /** Sorting an already sorted array leaves it as it is. */
  lemma {:induction false} SortOfSorted(s: seq<JsString>)
    requires Sorted(s)
    ensures Sort(s) == s
  {
    if |s| > 0 {
      assert Sorted(s[1..]);
      SortOfSorted(s[1..]);
      assert Sort(s) == Insert(s[0], s[1..]);
      if |s| == 1 {
        assert s == [s[0]];
      } else {
        assert Le(s[0], s[1..][0]);
        assert Insert(s[0], s[1..]) == [s[0]] + s[1..];
        HeadTail(s);
      }
    }
  }

  lemma HeadTail<T>(s: seq<T>)
    requires |s| > 0
    ensures [s[0]] + s[1..] == s
  {
  }

  lemma ConsAppend<T>(a: seq<T>, b: seq<T>)
    requires |a| > 0
    ensures a + b == [a[0]] + (a[1..] + b)
  {
    HeadTail(a);
  }

  lemma AppendAssoc<T>(x: seq<T>, y: seq<T>, z: seq<T>)
    ensures x + (y + z) == (x + y) + z
  {
  }

  lemma SplitLast<T>(s: seq<T>)
    requires |s| > 0
    ensures s[..|s| - 1] + [s[|s| - 1]] == s
  {
  }

  /** The sorted form of a pair does not depend on the order it is given in. */
  lemma SortPairSymmetric(a: JsString, b: JsString)
    ensures Sort([a, b]) == Sort([b, a])
  {
    assert [a, b][1..] == [b];
    assert [b, a][1..] == [a];
    assert Sort([b]) == [b] && Sort([a]) == [a];
    LeTotal(a, b);
    if Le(a, b) && Le(b, a) {
      LeAntisymmetric(a, b);
    }
  }

  /** `parts.join(sep)`. */
  function Join(parts: seq<JsString>, sep: JsString): JsString
  {
    if |parts| == 0 then []
    else if |parts| == 1 then parts[0]
    else parts[0] + sep + Join(parts[1..], sep)
  }

  /** A code unit that occurs neither in the separator nor in any part does not
      occur in the joined string. */
  lemma {:induction false} JoinOmits(parts: seq<JsString>, sep: JsString, u: CodeUnit)
    requires u !in sep
    requires forall i :: 0 <= i < |parts| ==> u !in parts[i]
    ensures u !in Join(parts, sep)
  {
    if |parts| > 1 {
      JoinOmits(parts[1..], sep, u);
    }
  }

  /** `s.slice(0, n)`: the first `n` code units, or all of `s` when shorter. */
  function Slice(s: JsString, n: nat): (r: JsString)
    ensures |r| == if |s| < n then |s| else n
    ensures r <= s
  {
    if |s| <= n then s else s[..n]
  }
}
