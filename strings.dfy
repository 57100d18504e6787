/**
 * String helpers shared by the resolution engine and the renderer: suffix tests,
 * the lexicographic order of Go's `strings.Compare`, sortedness by a string key,
 * a sort that the sort passes use, and `strings.Join`.
 */
module Strings {

  /** Go's `strings.HasSuffix`. */
  predicate EndsWith(s: string, suffix: string) {
    |suffix| <= |s| && s[|s| - |suffix|..] == suffix
  }

  /**
   * `strings.Compare(a, b) < 0`. Go compares the UTF-8 bytes; on code points
   * UTF-8 preserves that order, so comparing characters gives the same answer.
   */
  predicate Less(a: string, b: string) {
    if |a| == 0 then |b| > 0
    else if |b| == 0 then false
    else a[0] < b[0] || (a[0] == b[0] && Less(a[1..], b[1..]))
  }

  predicate LessEq(a: string, b: string) {
    !Less(b, a)
  }

  lemma {:induction false} LessIrreflexive(a: string)
    ensures !Less(a, a)
  {
    if |a| > 0 {
      LessIrreflexive(a[1..]);
    }
  }

  lemma {:induction false} LessTransitive(a: string, b: string, c: string)
    requires Less(a, b) && Less(b, c)
    ensures Less(a, c)
  {
    if |a| > 0 && |b| > 0 && |c| > 0 && a[0] == b[0] == c[0] {
      LessTransitive(a[1..], b[1..], c[1..]);
    }
  }

  lemma {:induction false} LessTrichotomous(a: string, b: string)
    ensures a == b || Less(a, b) || Less(b, a)
  {
    if |a| > 0 && |b| > 0 && a[0] == b[0] {
      LessTrichotomous(a[1..], b[1..]);
      if a[1..] == b[1..] {
        assert a == [a[0]] + a[1..] && b == [b[0]] + b[1..];
      }
    }
  }

  lemma LessEqTransitive(a: string, b: string, c: string)
    requires LessEq(a, b) && LessEq(b, c)
    ensures LessEq(a, c)
  {
    if Less(c, a) {
      LessTrichotomous(a, b);
      LessTrichotomous(b, c);
      if a == b {
      } else if b == c {
      } else {
        LessTransitive(a, b, c);
        LessTransitive(c, a, b);
        LessIrreflexive(c);
      }
    }
  }

  lemma LessLessEq(a: string, b: string, c: string)
    requires Less(a, b) && LessEq(b, c)
    ensures Less(a, c)
  {
    LessTrichotomous(b, c);
    if b != c {
      LessTransitive(a, b, c);
    }
  }

  /** Every element's key is at most every later element's key. */
  predicate SortedBy<T>(s: seq<T>, key: T -> string) {
    forall i, j :: 0 <= i < j < |s| ==> LessEq(key(s[i]), key(s[j]))
  }

  /** The contract of Go's `sort.Slice` with a `Less` on a key: sorted, and a permutation. */
  ghost predicate SortedPermutation<T>(before: seq<T>, after: seq<T>, key: T -> string) {
    multiset(after) == multiset(before) && SortedBy(after, key)
  }

  lemma ConsSorted<T>(h: T, t: seq<T>, key: T -> string)
    requires SortedBy(t, key)
    requires forall y | y in t :: LessEq(key(h), key(y))
    ensures SortedBy([h] + t, key)
  {
    forall i, j | 0 <= i < j < |[h] + t|
      ensures LessEq(key(([h] + t)[i]), key(([h] + t)[j]))
    {
      if i > 0 {
        assert ([h] + t)[i] == t[i - 1];
      }
      assert ([h] + t)[j] == t[j - 1];
    }
  }

  /** Inserts `x` into a sequence in front of the first element with a larger key. */
  function Insert<T>(s: seq<T>, x: T, key: T -> string): seq<T> {
    if |s| == 0 then [x]
    else if LessEq(key(s[0]), key(x)) then [s[0]] + Insert(s[1..], x, key)
    else [x] + s
  }

  lemma {:induction false} InsertSorted<T>(s: seq<T>, x: T, key: T -> string)
    requires SortedBy(s, key)
    ensures SortedBy(Insert(s, x, key), key)
    ensures multiset(Insert(s, x, key)) == multiset(s) + multiset{x}
    decreases |s|
  {
    if |s| == 0 {
    } else if LessEq(key(s[0]), key(x)) {
      InsertSorted(s[1..], x, key);
      InsertBehind(s, x, key);
    } else {
      InsertInFront(s, x, key);
    }
  }

  /** `x` goes behind the head: the head stays in front of the sorted insertion into the tail. */
  lemma InsertBehind<T>(s: seq<T>, x: T, key: T -> string)
    requires |s| > 0 && SortedBy(s, key) && LessEq(key(s[0]), key(x))
    requires SortedBy(Insert(s[1..], x, key), key)
    requires multiset(Insert(s[1..], x, key)) == multiset(s[1..]) + multiset{x}
    ensures SortedBy(Insert(s, x, key), key)
    ensures multiset(Insert(s, x, key)) == multiset(s) + multiset{x}
  {
    var rest := Insert(s[1..], x, key);
    assert Insert(s, x, key) == [s[0]] + rest;
    assert s == [s[0]] + s[1..];
    HeadBelowTail(s, x, rest, key);
    ConsSorted(s[0], rest, key);
  }

  lemma HeadBelowTail<T>(s: seq<T>, x: T, rest: seq<T>, key: T -> string)
    requires |s| > 0 && SortedBy(s, key) && LessEq(key(s[0]), key(x))
    requires multiset(rest) == multiset(s[1..]) + multiset{x}
    ensures forall y | y in rest :: LessEq(key(s[0]), key(y))
  {
    forall y | y in rest
      ensures LessEq(key(s[0]), key(y))
    {
      assert y in multiset(rest);
      if y != x {
        assert y in multiset(s[1..]);
        var k :| 0 <= k < |s[1..]| && s[1..][k] == y;
        assert s[k + 1] == y;
      }
    }
  }

  /** `x` goes in front: its key is below the head's, hence below every key. */
  lemma InsertInFront<T>(s: seq<T>, x: T, key: T -> string)
    requires |s| > 0 && SortedBy(s, key) && !LessEq(key(s[0]), key(x))
    ensures SortedBy(Insert(s, x, key), key)
    ensures multiset(Insert(s, x, key)) == multiset(s) + multiset{x}
  {
    if Less(key(s[0]), key(x)) {
      LessTransitive(key(x), key(s[0]), key(x));
      LessIrreflexive(key(x));
    }
    forall y | y in s
      ensures LessEq(key(x), key(y))
    {
      var k :| 0 <= k < |s| && s[k] == y;
      if k > 0 {
        LessEqTransitive(key(x), key(s[0]), key(y));
      }
    }
    ConsSorted(x, s, key);
  }

  /** A sort by key (insertion sort); only its contract is relied upon. */
  function SortByKey<T>(s: seq<T>, key: T -> string): (r: seq<T>)
    ensures SortedPermutation(s, r, key)
    ensures |r| == |s|
  {
    if |s| == 0 then []
    else
      var x := s[|s| - 1];
      var init := SortByKey(s[..|s| - 1], key);
      InsertSorted(init, x, key);
      assert s == s[..|s| - 1] + [x];
      assert multiset(s) == multiset(s[..|s| - 1]) + multiset{x};
      var r := Insert(init, x, key);
      assert |r| == |multiset(r)| == |multiset(s)| == |s|;
      r
  }

  /** Go's `strings.Join`. */
  function Join(parts: seq<string>, sep: string): string {
    if |parts| == 0 then ""
    else if |parts| == 1 then parts[0]
    else parts[0] + sep + Join(parts[1..], sep)
  }
}
