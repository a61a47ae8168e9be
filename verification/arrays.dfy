/**
 * Set algebra over small-integer arrays (src/utils/arrays.ts), plus the
 * order-preserving `filter` those helpers are built from.
 */
module Arrays {

  /** True iff no value occurs twice in `s`. */
  predicate NoDups<T(==)>(s: seq<T>) {
    forall i, j :: 0 <= i < j < |s| ==> s[i] != s[j]
  }

  /** `a` and `b` hold the same values, ignoring order and multiplicity. */
  predicate SameElements<T(==)>(a: seq<T>, b: seq<T>) {
    (forall x :: x in a ==> x in b) && (forall x :: x in b ==> x in a)
  }

  /** `s.filter(p)`: the elements of `s` that satisfy `p`, in their original order. */
  function Filter<T(!new)>(s: seq<T>, p: T -> bool): (r: seq<T>)
    ensures |r| <= |s|
    ensures forall x :: x in r <==> x in s && p(x)
  {
    if s == [] then [] else (if p(s[0]) then [s[0]] else []) + Filter(s[1..], p)
  }

  /** The predicate "occurs in `s`" (`s.includes`). */
  function In(s: seq<int>): int -> bool {
    x => x in s
  }

  /** The predicate "does not occur in `s`" (`!s.includes`). */
  function NotIn(s: seq<int>): int -> bool {
    x => x !in s
  }

  /** Filtering distributes over concatenation, so `Filter` keeps the input order. */
  lemma {:induction false} FilterConcat<T(!new)>(a: seq<T>, b: seq<T>, p: T -> bool)
    ensures Filter(a + b, p) == Filter(a, p) + Filter(b, p)
  {
    if a == [] {
      assert a + b == b;
    } else {
      assert (a + b)[1..] == a[1..] + b;
      FilterConcat(a[1..], b, p);
    }
  }

  /** A filter that every element passes returns its input unchanged. */
  lemma {:induction false} FilterKeepsAll<T(!new)>(s: seq<T>, p: T -> bool)
    requires forall x :: x in s ==> p(x)
    ensures Filter(s, p) == s
  {
    if s != [] {
      assert forall x :: x in s[1..] ==> x in s;
      FilterKeepsAll(s[1..], p);
    }
  }

  /** Filters whose predicates agree on the elements of `s` give the same result. */
  lemma {:induction false} FilterAgrees<T(!new)>(s: seq<T>, p: T -> bool, q: T -> bool)
    requires forall x :: x in s ==> p(x) == q(x)
    ensures Filter(s, p) == Filter(s, q)
  {
    if s != [] {
      assert forall x :: x in s[1..] ==> x in s;
      FilterAgrees(s[1..], p, q);
    }
  }

  /** Filtering twice by the same predicate is filtering once. */
  lemma FilterIdempotent<T(!new)>(s: seq<T>, p: T -> bool)
    ensures Filter(Filter(s, p), p) == Filter(s, p)
  {
    FilterKeepsAll(Filter(s, p), p);
  }

  /** Dropping the numbers of `a` and then those of `b` is dropping the numbers of `a + b`. */
  lemma {:induction false} FilterNotInConcat(s: seq<int>, a: seq<int>, b: seq<int>)
    ensures Filter(Filter(s, NotIn(a)), NotIn(b)) == Filter(s, NotIn(a + b))
  {
    if s != [] {
      FilterNotInConcat(s[1..], a, b);
      var rest := Filter(s[1..], NotIn(a));
      var once := Filter(s, NotIn(a));
      if s[0] in a {
        assert once == rest;
        assert !NotIn(a + b)(s[0]);
      } else {
        assert once == [s[0]] + rest;
        assert once[1..] == rest;
        assert NotIn(b)(s[0]) == NotIn(a + b)(s[0]);
      }
    }
  }

  /** A filter that rejects some element strictly shortens its input. */
  lemma {:induction false} FilterDrops<T(!new)>(s: seq<T>, p: T -> bool, x: T)
    requires x in s && !p(x)
    ensures |Filter(s, p)| < |s|
  {
    if s[0] != x {
      FilterDrops(s[1..], p, x);
    }
  }

  /** Filtering keeps a duplicate-free sequence duplicate-free. */
  lemma {:induction false} FilterNoDups<T(!new)>(s: seq<T>, p: T -> bool)
    requires NoDups(s)
    ensures NoDups(Filter(s, p))
  {
    if s != [] {
      assert NoDups(s[1..]) by {
        forall i, j | 0 <= i < j < |s[1..]| ensures s[1..][i] != s[1..][j] {
          assert s[1..][i] == s[i + 1] && s[1..][j] == s[j + 1];
        }
      }
      FilterNoDups(s[1..], p);
      var t := Filter(s[1..], p);
      assert s[0] !in s[1..] by {
        forall k | 0 <= k < |s[1..]| ensures s[1..][k] != s[0] {
          assert s[1..][k] == s[k + 1];
        }
      }
      assert s[0] !in t;
    }
  }

  /** A duplicate-free sequence is exactly as long as the set of its values. */
  lemma {:induction false} NoDupsCardinality<T>(s: seq<T>)
    requires NoDups(s)
    ensures |set x | x in s| == |s|
  {
    if s != [] {
      var tail := s[1..];
      assert NoDups(tail) by {
        forall i, j | 0 <= i < j < |tail| ensures tail[i] != tail[j] {
          assert tail[i] == s[i + 1] && tail[j] == s[j + 1];
        }
      }
      NoDupsCardinality(tail);
      assert s[0] !in tail by {
        forall k | 0 <= k < |tail| ensures tail[k] != s[0] {
          assert tail[k] == s[k + 1];
        }
      }
      assert (set x | x in s) == {s[0]} + (set x | x in tail);
    }
  }

  /** `intersection(arr1, arr2)`: the elements of `a` that occur in `b`, in `a`'s order. */
  function Intersection(a: seq<int>, b: seq<int>): (r: seq<int>)
    ensures |r| <= |a|
    ensures forall x :: x in r <==> x in a && x in b
  {
    Filter(a, In(b))
  }

  /** `intersection` keeps `a`'s order: it maps a concatenation to the concatenation of the parts. */
  lemma IntersectionKeepsOrder(a1: seq<int>, a2: seq<int>, b: seq<int>)
    ensures Intersection(a1 + a2, b) == Intersection(a1, b) + Intersection(a2, b)
  {
    FilterConcat(a1, a2, In(b));
  }

  /** When every element of `a` occurs in `b`, `intersection(a, b)` is `a` itself. */
  lemma IntersectionOfContained(a: seq<int>, b: seq<int>)
    requires forall x :: x in a ==> x in b
    ensures Intersection(a, b) == a
  {
    assert forall x :: x in a ==> In(b)(x);
    FilterKeepsAll(a, In(b));
  }

  /** `symmetricDifference(arr1, arr2)`: what `a` has that `b` lacks, then what `b` has that `a` lacks. */
  function SymmetricDifference(a: seq<int>, b: seq<int>): (r: seq<int>)
    ensures forall x :: x in r <==> (x in a && x !in b) || (x in b && x !in a)
    ensures r == [] <==> SameElements(a, b)
  {
    var r := Filter(a, NotIn(b)) + Filter(b, NotIn(a));
    assert r != [] ==> r[0] in r;
    r
  }

  /** The symmetric difference is empty regardless of argument order and of the order inside each array. */
  lemma SymmetricDifferenceOrderInsensitive(a: seq<int>, b: seq<int>, a': seq<int>, b': seq<int>)
    requires SameElements(a, a') && SameElements(b, b')
    ensures (SymmetricDifference(a, b) == []) == (SymmetricDifference(b', a') == [])
  {
  }

  /** `[...new Set(arr)]`: each value once, in order of first occurrence. */
  function Unique(s: seq<int>): (r: seq<int>)
    ensures NoDups(r)
    ensures forall x :: x in r <==> x in s
    ensures |r| <= |s|
  {
    if s == [] then []
    else
      var u := Unique(s[..|s| - 1]);
      var last := s[|s| - 1];
      assert forall x :: x in s <==> x in s[..|s| - 1] || x == last by {
        assert s == s[..|s| - 1] + [last];
      }
      if last in u then u else u + [last]
  }

  /** `unique` is the identity on a duplicate-free array. */
  lemma {:induction false} UniqueOfNoDups(s: seq<int>)
    requires NoDups(s)
    ensures Unique(s) == s
  {
    if s != [] {
      var init := s[..|s| - 1];
      assert NoDups(init);
      UniqueOfNoDups(init);
      assert s[|s| - 1] !in init;
      assert s == init + [s[|s| - 1]];
    }
  }

  /** Applying `unique` twice is applying it once. */
  lemma UniqueIdempotent(s: seq<int>)
    ensures Unique(Unique(s)) == Unique(s)
  {
    UniqueOfNoDups(Unique(s));
  }

  /** First-occurrence order: deduplicating a prefix gives a prefix of the deduplicated whole. */
  lemma {:induction false} UniquePrefix(s: seq<int>, k: nat)
    requires k <= |s|
    ensures Unique(s[..k]) <= Unique(s)
    decreases |s| - k
  {
    if k < |s| {
      var init := s[..|s| - 1];
      assert init[..k] == s[..k];
      UniquePrefix(init, k);
      assert s[..|s|] == s;
    } else {
      assert s[..k] == s;
    }
  }

  /** `equal(arr1, arr2)`: same length and equal at every index. */
  function Equal(a: seq<int>, b: seq<int>): (r: bool)
    ensures r <==> a == b
  {
    if |a| != |b| then false else EqualFrom(a, b, 0)
  }

  /** The `every` loop of `equal`, from index `i` on. */
  function EqualFrom(a: seq<int>, b: seq<int>, i: nat): (r: bool)
    requires |a| == |b| && i <= |a|
    ensures r <==> a[i..] == b[i..]
    decreases |a| - i
  {
    if i == |a| then true
    else
      assert a[i..] == [a[i]] + a[i + 1..] && b[i..] == [b[i]] + b[i + 1..];
      a[i] == b[i] && EqualFrom(a, b, i + 1)
  }

  /** `getAllCommonElements(arr1, arr2)`: the elements of `b` present in `a`, in `b`'s order. */
  function GetAllCommonElements(a: seq<int>, b: seq<int>): (r: seq<int>)
    ensures |r| <= |b|
    ensures forall x :: x in r <==> x in a && x in b
  {
    Filter(b, In(a))
  }

  /** On duplicate-free arrays, `getAllCommonElements(a, b)` and `intersection(a, b)` hold the same
      values and have the same length. */
  lemma CommonElementsMatchIntersection(a: seq<int>, b: seq<int>)
    requires NoDups(a) && NoDups(b)
    ensures SameElements(GetAllCommonElements(a, b), Intersection(a, b))
    ensures |GetAllCommonElements(a, b)| == |Intersection(a, b)|
  {
    var c := GetAllCommonElements(a, b);
    var i := Intersection(a, b);
    FilterNoDups(b, In(a));
    FilterNoDups(a, In(b));
    NoDupsCardinality(c);
    NoDupsCardinality(i);
    assert (set x | x in c) == (set x | x in i);
  }
}
