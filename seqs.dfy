/**
 * Sequence operations the components use: `Array.prototype.filter` and the
 * stable `Array.prototype.sort` driven by a comparator that returns a number
 * (negative: first argument first; zero: keep input order; positive: second
 * argument first).
 */
module Seqs {

  /** `s.filter(p)`: the elements satisfying `p`, in their original order. */
  function Filter<T>(s: seq<T>, p: T -> bool): seq<T> {
    if s == [] then []
    else if p(s[0]) then [s[0]] + Filter(s[1..], p)
    else Filter(s[1..], p)
  }

  /** The filtered sequence is a sub-multiset of `s` whose elements all pass `p`. */
  lemma {:induction false} FilterFacts<T>(s: seq<T>, p: T -> bool)
    ensures |Filter(s, p)| <= |s|
    ensures forall i :: 0 <= i < |Filter(s, p)| ==> p(Filter(s, p)[i])
    ensures multiset(Filter(s, p)) <= multiset(s)
  {
    if s != [] {
      FilterFacts(s[1..], p);
      assert s == [s[0]] + s[1..];
    }
  }

  /** An element survives the filter exactly when it is in `s` and passes `p`. */
  lemma {:induction false} FilterMember<T>(s: seq<T>, p: T -> bool, x: T)
    ensures x in Filter(s, p) <==> x in s && p(x)
  {
    if s != [] {
      FilterMember(s[1..], p, x);
      assert x in s <==> x == s[0] || x in s[1..] by { assert s == [s[0]] + s[1..]; }
    }
  }

  /** Filtering a concatenation filters each part. */
  lemma {:induction false} FilterAppend<T>(a: seq<T>, b: seq<T>, p: T -> bool)
    ensures Filter(a + b, p) == Filter(a, p) + Filter(b, p)
  {
    if a == [] {
      assert a + b == b;
    } else {
      FilterAppend(a[1..], b, p);
      assert (a + b)[1..] == a[1..] + b;
    }
  }

  /** A filter that every element passes keeps the whole sequence. */
  lemma {:induction false} FilterKeepsAll<T>(s: seq<T>, p: T -> bool)
    requires forall i :: 0 <= i < |s| ==> p(s[i])
    ensures Filter(s, p) == s
  {
    if s != [] {
      FilterKeepsAll(s[1..], p);
    }
  }

  /** Filtering with two predicates that agree everywhere gives the same result. */
  lemma {:induction false} FilterCongruent<T>(s: seq<T>, p: T -> bool, q: T -> bool)
    requires forall x :: p(x) == q(x)
    ensures Filter(s, p) == Filter(s, q)
  {
    if s != [] {
      FilterCongruent(s[1..], p, q);
    }
  }

  /** Filtering out one value removes all its occurrences and keeps every other
      element as often as before. */
  lemma {:induction false} FilterOutValue<T>(s: seq<T>, p: T -> bool, x: T)
    requires forall y :: p(y) <==> y != x
    ensures multiset(Filter(s, p)) == multiset(s)[x := 0]
  {
    if s != [] {
      FilterOutValue(s[1..], p, x);
      assert s == [s[0]] + s[1..];
    }
  }

  /** The number of elements satisfying `p`, i.e. `s.filter(p).length`. */
  function Count<T>(s: seq<T>, p: T -> bool): nat {
    |Filter(s, p)|
  }

  /** `Count` is at least one when some element satisfies `p`. */
  lemma CountPositive<T>(s: seq<T>, p: T -> bool, x: T)
    requires x in s && p(x)
    ensures 1 <= Count(s, p) <= |s|
  {
    FilterMember(s, p, x);
    FilterFacts(s, p);
  }

  /** No element occurs twice. */
  ghost predicate NoDuplicates<T>(s: seq<T>) {
    forall i, j :: 0 <= i < j < |s| ==> s[i] != s[j]
  }

  /** In a sequence without duplicates every value occurs at most once. */
  lemma {:induction false} NoDuplicatesCount<T>(s: seq<T>, x: T)
    requires NoDuplicates(s)
    ensures multiset(s)[x] <= 1
  {
    if s != [] {
      var t := s[1..];
      assert s == [s[0]] + t;
      assert NoDuplicates(t) by {
        forall i, j | 0 <= i < j < |t| ensures t[i] != t[j] {
          assert t[i] == s[i + 1] && t[j] == s[j + 1];
        }
      }
      NoDuplicatesCount(t, x);
      if s[0] == x {
        assert x !in t by {
          forall k | 0 <= k < |t| ensures t[k] != x {
            assert t[k] == s[k + 1];
          }
        }
      }
    }
  }

  /** A rearrangement of a sequence without duplicates has none either. */
  lemma PermutationNoDuplicates<T>(a: seq<T>, b: seq<T>)
    requires multiset(a) == multiset(b) && NoDuplicates(a)
    ensures NoDuplicates(b)
  {
    forall i, j | 0 <= i < j < |b| ensures b[i] != b[j] {
      if b[i] == b[j] {
        assert b == b[..j] + b[j..];
        assert b[i] in multiset(b[..j]) && b[j] in multiset(b[j..]);
        assert multiset(b)[b[i]] >= 2;
        NoDuplicatesCount(a, b[i]);
        assert false;
      }
    }
  }

  /**
   * A comparator that behaves like a total preorder: `cmp(a, b) <= 0` ("a may
   * come first") is the converse of `cmp(b, a) >= 0`, and it is transitive.
   * `String.prototype.localeCompare` and a difference of timestamps are such
   * comparators.
   */
  ghost predicate Consistent<T(!new)>(cmp: (T, T) -> int) {
    && (forall a, b :: cmp(a, b) <= 0 <==> cmp(b, a) >= 0)
    && (forall a, b, c :: cmp(a, b) <= 0 && cmp(b, c) <= 0 ==> cmp(a, c) <= 0)
  }

  /** Every element may come before every later one. */
  ghost predicate Sorted<T>(s: seq<T>, cmp: (T, T) -> int) {
    forall i, j :: 0 <= i < j < |s| ==> cmp(s[i], s[j]) <= 0
  }

  /** Places `x` just before the first element it may precede. */
  function Insert<T>(x: T, s: seq<T>, cmp: (T, T) -> int): (r: seq<T>)
    ensures multiset(r) == multiset(s) + multiset{x}
    ensures |r| == |s| + 1
    ensures forall i :: 0 <= i < |r| ==> r[i] == x || r[i] in s
  {
    if s == [] || cmp(x, s[0]) <= 0 then [x] + s
    else
      assert s == [s[0]] + s[1..];
      [s[0]] + Insert(x, s[1..], cmp)
  }

  /** A stable sort by `cmp` (insertion sort); for a consistent comparator it is
      the only stable ordering, so it is what `Array.prototype.sort` returns. */
  function Sort<T>(s: seq<T>, cmp: (T, T) -> int): (r: seq<T>)
    ensures multiset(r) == multiset(s)
    ensures |r| == |s|
  {
    if s == [] then []
    else
      assert s == [s[0]] + s[1..];
      Insert(s[0], Sort(s[1..], cmp), cmp)
  }

  /** Prepending an element that may precede everything keeps a sequence sorted. */
  lemma SortedCons<T>(h: T, t: seq<T>, cmp: (T, T) -> int)
    requires Sorted(t, cmp)
    requires forall j :: 0 <= j < |t| ==> cmp(h, t[j]) <= 0
    ensures Sorted([h] + t, cmp)
  {
    var s := [h] + t;
    forall i, j | 0 <= i < j < |s| ensures cmp(s[i], s[j]) <= 0 {
      if i == 0 {
        assert s[j] == t[j - 1];
      } else {
        assert s[i] == t[i - 1] && s[j] == t[j - 1];
      }
    }
  }

  lemma {:induction false} InsertSorted<T(!new)>(x: T, s: seq<T>, cmp: (T, T) -> int)
    requires Consistent(cmp) && Sorted(s, cmp)
    ensures Sorted(Insert(x, s, cmp), cmp)
  {
    if s == [] || cmp(x, s[0]) <= 0 {
      forall j | 0 <= j < |s| ensures cmp(x, s[j]) <= 0 {
        if j > 0 {
          assert cmp(s[0], s[j]) <= 0;
        }
      }
      SortedCons(x, s, cmp);
    } else {
      var tail := s[1..];
      assert Sorted(tail, cmp) by {
        forall i, j | 0 <= i < j < |tail| ensures cmp(tail[i], tail[j]) <= 0 {
          assert tail[i] == s[i + 1] && tail[j] == s[j + 1];
        }
      }
      InsertSorted(x, tail, cmp);
      var t := Insert(x, tail, cmp);
      assert cmp(s[0], x) <= 0;
      forall j | 0 <= j < |t| ensures cmp(s[0], t[j]) <= 0 {
        if t[j] != x {
          var k :| 0 <= k < |tail| && tail[k] == t[j];
          assert s[k + 1] == t[j];
        }
      }
      SortedCons(s[0], t, cmp);
    }
  }

  /** The sorted sequence is in `cmp` order. */
  lemma {:induction false} SortSorted<T(!new)>(s: seq<T>, cmp: (T, T) -> int)
    requires Consistent(cmp)
    ensures Sorted(Sort(s, cmp), cmp)
  {
    if s != [] {
      SortSorted(s[1..], cmp);
      InsertSorted(s[0], Sort(s[1..], cmp), cmp);
    }
  }

  /** The elements of `s` that compare equal to `e`, in their order in `s`. */
  function Ties<T>(s: seq<T>, e: T, cmp: (T, T) -> int): seq<T> {
    if s == [] then []
    else if cmp(s[0], e) == 0 then [s[0]] + Ties(s[1..], e, cmp)
    else Ties(s[1..], e, cmp)
  }

  lemma {:induction false} InsertTies<T(!new)>(x: T, s: seq<T>, e: T, cmp: (T, T) -> int)
    requires Consistent(cmp)
    ensures Ties(Insert(x, s, cmp), e, cmp) == (if cmp(x, e) == 0 then [x] else []) + Ties(s, e, cmp)
  {
    if s == [] || cmp(x, s[0]) <= 0 {
      assert ([x] + s)[1..] == s;
    } else {
      InsertTies(x, s[1..], e, cmp);
      assert ([s[0]] + Insert(x, s[1..], cmp))[1..] == Insert(x, s[1..], cmp);
    }
  }

  /** Stability: elements that compare equal keep their relative input order. */
  lemma {:induction false} SortStable<T(!new)>(s: seq<T>, e: T, cmp: (T, T) -> int)
    requires Consistent(cmp)
    ensures Ties(Sort(s, cmp), e, cmp) == Ties(s, e, cmp)
  {
    if s != [] {
      SortStable(s[1..], e, cmp);
      InsertTies(s[0], Sort(s[1..], cmp), e, cmp);
    }
  }

  /** The reversed comparator of a consistent comparator is consistent. */
  lemma NegatedConsistent<T(!new)>(cmp: (T, T) -> int)
    requires Consistent(cmp)
    ensures Consistent((a, b) => -cmp(a, b))
  {
    var neg := (a, b) => -cmp(a, b);
    forall a, b, c | neg(a, b) <= 0 && neg(b, c) <= 0 ensures neg(a, c) <= 0 {
      assert cmp(c, b) <= 0 && cmp(b, a) <= 0;
    }
  }
}
