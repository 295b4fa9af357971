/** The single string order the kernel sorts and compares ids by, and a
    stable insertion sort keyed by that order.

    The source compares ids in two ways: `localeCompare` when it sorts
    commands and enemies, and the raw `<` operator when the enemy AI breaks
    distance ties. Both are modelled by `Less`, the lexicographic order on
    characters by code point. On characters of the Basic Multilingual Plane
    this is the UTF-16 code-unit order that `<` computes; above it the two
    can differ. `localeCompare` agrees with it on the ASCII ids the kernel
    generates only up to case and punctuation weighting, which the model
    does not represent. */
module Order {

  /** Strict lexicographic order on strings by code point. */
  predicate Less(a: string, b: string)
    decreases |a|
  {
    if |a| == 0 then |b| > 0
    else if |b| == 0 then false
    else if a[0] != b[0] then a[0] < b[0]
    else Less(a[1..], b[1..])
  }

  predicate LessEq(a: string, b: string) {
    a == b || Less(a, b)
  }

  lemma {:induction false} LessIrreflexive(a: string)
    ensures !Less(a, a)
    decreases |a|
  {
    if |a| > 0 {
      LessIrreflexive(a[1..]);
    }
  }

  lemma {:induction false} LessTransitive(a: string, b: string, c: string)
    requires Less(a, b) && Less(b, c)
    ensures Less(a, c)
    decreases |a|
  {
    if |a| > 0 && |b| > 0 && |c| > 0 && a[0] == b[0] && b[0] == c[0] {
      LessTransitive(a[1..], b[1..], c[1..]);
    }
  }

  /** Any two distinct strings are ordered one way or the other. */
  lemma {:induction false} LessTotal(a: string, b: string)
    ensures a == b || Less(a, b) || Less(b, a)
    decreases |a|
  {
    if |a| > 0 && |b| > 0 && a[0] == b[0] {
      LessTotal(a[1..], b[1..]);
      if a[1..] == b[1..] {
        assert a == [a[0]] + a[1..] && b == [b[0]] + b[1..];
      }
    }
  }

  lemma {:induction false} LessAsymmetric(a: string, b: string)
    requires Less(a, b)
    ensures !Less(b, a)
  {
    if Less(b, a) {
      LessTransitive(a, b, a);
      LessIrreflexive(a);
    }
  }

  /** Non-strict order is transitive: a <= b <= c gives a <= c. */
  lemma NotLessTransitive(a: string, b: string, c: string)
    requires !Less(b, a) && !Less(c, b)
    ensures !Less(c, a)
  {
    LessTotal(a, b);
    LessTotal(b, c);
    if a == b && b == c {
      LessIrreflexive(a);
    } else if a == b || b == c {
      LessAsymmetric(a, c);
    } else {
      LessTransitive(a, b, c);
      LessAsymmetric(a, c);
    }
  }

  lemma LessAntisymmetric(a: string, b: string)
    requires !Less(a, b) && !Less(b, a)
    ensures a == b
  {
    LessTotal(a, b);
  }

  /** `s` is ordered by `key`, allowing equal keys next to each other. */
  ghost predicate SortedBy<T>(s: seq<T>, key: T -> string) {
    forall i, j :: 0 <= i < j < |s| ==> !Less(key(s[j]), key(s[i]))
  }

  /** Places `x` in front of the first element whose key is not below its own. */
  function Insert<T>(x: T, s: seq<T>, key: T -> string): (r: seq<T>)
    ensures multiset(r) == multiset(s) + multiset{x}
    ensures |r| == |s| + 1
    decreases |s|
  {
    if |s| == 0 then [x]
    else if !Less(key(s[0]), key(x)) then [x] + s
    else
      assert s == [s[0]] + s[1..];
      [s[0]] + Insert(x, s[1..], key)
  }

  /** Stable sort of `s` by `key` under `Less` (the comparator-based sort of the source). */
  function SortBy<T>(s: seq<T>, key: T -> string): (r: seq<T>)
    ensures multiset(r) == multiset(s)
    ensures |r| == |s|
    decreases |s|
  {
    if |s| == 0 then []
    else
      assert s == [s[0]] + s[1..];
      Insert(s[0], SortBy(s[1..], key), key)
  }

  lemma {:induction false} InsertSorted<T>(x: T, s: seq<T>, key: T -> string)
    requires SortedBy(s, key)
    ensures SortedBy(Insert(x, s, key), key)
    decreases |s|
  {
    var r := Insert(x, s, key);
    if |s| == 0 {
    } else if !Less(key(s[0]), key(x)) {
      forall i, j | 0 <= i < j < |r|
        ensures !Less(key(r[j]), key(r[i]))
      {
        if i == 0 && j - 1 > 0 {
          assert r[j] == s[j-1];
          NotLessTransitive(key(x), key(s[0]), key(s[j-1]));
        }
      }
    } else {
      var t := Insert(x, s[1..], key);
      assert SortedBy(s[1..], key);
      InsertSorted(x, s[1..], key);
      assert multiset(t) == multiset(s[1..]) + multiset{x};
      forall i, j | 0 <= i < j < |r|
        ensures !Less(key(r[j]), key(r[i]))
      {
        if i == 0 {
          assert r[j] == t[j-1];
          assert r[j] in multiset(t);
          if r[j] == x {
            LessAsymmetric(key(s[0]), key(x));
          } else {
            assert r[j] in multiset(s[1..]);
            var k :| 0 <= k < |s[1..]| && s[1..][k] == r[j];
            assert s[k+1] == r[j];
          }
        } else {
          assert r[i] == t[i-1] && r[j] == t[j-1];
        }
      }
    }
  }

  lemma {:induction false} SortBySorted<T>(s: seq<T>, key: T -> string)
    ensures SortedBy(SortBy(s, key), key)
    decreases |s|
  {
    if |s| > 0 {
      SortBySorted(s[1..], key);
      InsertSorted(s[0], SortBy(s[1..], key), key);
    }
  }

  /** Sorted rearrangements of one distinct-keyed multiset start with the same element. */
  lemma SortedHeadsEqual<T>(a: seq<T>, b: seq<T>, key: T -> string)
    requires SortedBy(a, key) && SortedBy(b, key)
    requires multiset(a) == multiset(b) && |a| > 0
    requires forall i, j :: 0 <= i < j < |a| ==> key(a[i]) != key(a[j])
    ensures |b| > 0 && a[0] == b[0]
  {
    assert a[0] in multiset(b);
    var i :| 0 <= i < |b| && b[i] == a[0];
    assert b[0] in multiset(a);
    var j :| 0 <= j < |a| && a[j] == b[0];
    assert !Less(key(a[0]), key(b[0])) by {
      if i == 0 { LessIrreflexive(key(a[0])); }
    }
    assert !Less(key(b[0]), key(a[0])) by {
      if j == 0 { LessIrreflexive(key(b[0])); }
    }
    LessAntisymmetric(key(a[0]), key(b[0]));
    assert j == 0;
  }

  /** Two orderings of the same distinct-keyed elements sort to one sequence. */
  lemma {:induction false} SortedUnique<T>(a: seq<T>, b: seq<T>, key: T -> string)
    requires SortedBy(a, key) && SortedBy(b, key)
    requires multiset(a) == multiset(b)
    requires forall i, j :: 0 <= i < j < |a| ==> key(a[i]) != key(a[j])
    ensures a == b
    decreases |a|
  {
    if |a| == 0 {
      assert |b| == |multiset(b)| == 0;
    } else {
      SortedHeadsEqual(a, b, key);
      SortedTail(a, key);
      SortedTail(b, key);
      MultisetTail(a);
      MultisetTail(b);
      DistinctKeysTail(a, key);
      SortedUnique(a[1..], b[1..], key);
      assert a == [a[0]] + a[1..] && b == [b[0]] + b[1..];
    }
  }

  lemma SortedTail<T>(a: seq<T>, key: T -> string)
    requires SortedBy(a, key) && |a| > 0
    ensures SortedBy(a[1..], key)
  {
  }

  lemma DistinctKeysTail<T>(a: seq<T>, key: T -> string)
    requires |a| > 0 && forall i, j :: 0 <= i < j < |a| ==> key(a[i]) != key(a[j])
    ensures forall i, j :: 0 <= i < j < |a[1..]| ==> key(a[1..][i]) != key(a[1..][j])
  {
  }

  lemma MultisetTail<T>(a: seq<T>)
    requires |a| > 0
    ensures multiset(a[1..]) == multiset(a) - multiset{a[0]}
  {
    assert a == [a[0]] + a[1..];
  }
}
