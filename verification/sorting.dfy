/**
 * Python's `sorted(xs, key=cmp_to_key(cmp), reverse=True)`: a stable
 * sort into descending order under a three-way comparison. The model is
 * an insertion sort that places each element after every earlier
 * element that does not compare below it. When `cmp` is a total preorder
 * on the elements, that is the one order every stable descending sort
 * produces. When it is not (version strings of which some parse and some
 * do not can compare in a cycle), CPython's timsort, with its binary
 * insertion, can order the same elements differently.
 */
module Sorting {

  /** `cmp` behaves as a total preorder on the elements of `s`. */
  ghost predicate TotalPreorder<T(!new)>(cmp: (T, T) -> int, s: set<T>) {
    (forall a, b | a in s && b in s :: -1 <= cmp(a, b) <= 1 && cmp(a, b) == -cmp(b, a))
    && (forall a, b, c | a in s && b in s && c in s :: cmp(a, b) >= 0 && cmp(b, c) >= 0 ==> cmp(a, c) >= 0)
  }

  ghost predicate SortedDesc<T>(cmp: (T, T) -> int, s: seq<T>) {
    forall i, j | 0 <= i < j < |s| :: cmp(s[i], s[j]) >= 0
  }

  /** Inserts `x` before the first element that compares strictly below it. */
  function InsertDesc<T>(cmp: (T, T) -> int, x: T, ys: seq<T>): (r: seq<T>)
    ensures multiset(r) == multiset(ys) + multiset{x}
    ensures |r| == |ys| + 1
  {
    if |ys| == 0 then [x]
    else if cmp(ys[0], x) < 0 then [x] + ys
    else
      assert ys == [ys[0]] + ys[1..];
      [ys[0]] + InsertDesc(cmp, x, ys[1..])
  }

  /** Stable descending sort: each element is inserted in original order. */
  function SortDesc<T>(cmp: (T, T) -> int, xs: seq<T>): (r: seq<T>)
    ensures multiset(r) == multiset(xs)
    ensures |r| == |xs|
  {
    if |xs| == 0 then []
    else
      assert xs == xs[..|xs| - 1] + [xs[|xs| - 1]];
      InsertDesc(cmp, xs[|xs| - 1], SortDesc(cmp, xs[..|xs| - 1]))
  }

  /** A sorted tail headed by an element that dominates it is sorted. */
  lemma SortedCons<T>(cmp: (T, T) -> int, h: T, t: seq<T>)
    requires SortedDesc(cmp, t)
    requires forall j | 0 <= j < |t| :: cmp(h, t[j]) >= 0
    ensures SortedDesc(cmp, [h] + t)
  {
    var r := [h] + t;
    forall i, j | 0 <= i < j < |r| ensures cmp(r[i], r[j]) >= 0 {
      assert r[j] == t[j - 1];
      if i > 0 {
        assert r[i] == t[i - 1];
      }
    }
  }

  /** Every element of an insertion result is `x` or an element of `ys`. */
  lemma InsertDescMembers<T>(cmp: (T, T) -> int, x: T, ys: seq<T>, j: nat)
    requires j < |InsertDesc(cmp, x, ys)|
    ensures InsertDesc(cmp, x, ys)[j] == x || InsertDesc(cmp, x, ys)[j] in ys
  {
    var r := InsertDesc(cmp, x, ys);
    assert r[j] in multiset(r);
  }

  lemma {:induction false} InsertDescSorted<T(!new)>(cmp: (T, T) -> int, x: T, ys: seq<T>, s: set<T>)
    requires TotalPreorder(cmp, s)
    requires x in s && forall i | 0 <= i < |ys| :: ys[i] in s
    requires SortedDesc(cmp, ys)
    ensures SortedDesc(cmp, InsertDesc(cmp, x, ys))
    decreases |ys|
  {
    if |ys| == 0 {
    } else if cmp(ys[0], x) < 0 {
      forall j | 0 <= j < |ys| ensures cmp(x, ys[j]) >= 0 {
        assert cmp(x, ys[0]) > 0;
        assert cmp(ys[0], ys[j]) >= 0 || j == 0;
      }
      SortedCons(cmp, x, ys);
    } else {
      var t := ys[1..];
      assert SortedDesc(cmp, t) by {
        forall i, j | 0 <= i < j < |t| ensures cmp(t[i], t[j]) >= 0 {
          assert t[i] == ys[i + 1] && t[j] == ys[j + 1];
        }
      }
      InsertDescSorted(cmp, x, t, s);
      var rt := InsertDesc(cmp, x, t);
      forall j | 0 <= j < |rt| ensures cmp(ys[0], rt[j]) >= 0 {
        InsertDescMembers(cmp, x, t, j);
        if rt[j] != x {
          var k :| 0 <= k < |t| && t[k] == rt[j];
          assert t[k] == ys[k + 1];
        }
      }
      SortedCons(cmp, ys[0], rt);
    }
  }

  /** Under a total preorder the result is in descending order. */
  lemma {:induction false} SortDescSorted<T(!new)>(cmp: (T, T) -> int, xs: seq<T>, s: set<T>)
    requires TotalPreorder(cmp, s)
    requires forall i | 0 <= i < |xs| :: xs[i] in s
    ensures SortedDesc(cmp, SortDesc(cmp, xs))
    decreases |xs|
  {
    if |xs| > 0 {
      var init := xs[..|xs| - 1];
      SortDescSorted(cmp, init, s);
      var r := SortDesc(cmp, init);
      forall i | 0 <= i < |r| ensures r[i] in s {
        assert r[i] in multiset(r);
        assert r[i] in multiset(init);
      }
      InsertDescSorted(cmp, xs[|xs| - 1], r, s);
    }
  }

  /** The elements satisfying `p`, in their original order (a list comprehension with a filter). */
  function Filter<T>(p: T -> bool, xs: seq<T>): (r: seq<T>)
    ensures |r| <= |xs|
    ensures forall i | 0 <= i < |r| :: p(r[i])
    decreases |xs|
  {
    if |xs| == 0 then []
    else if p(xs[0]) then [xs[0]] + Filter(p, xs[1..])
    else Filter(p, xs[1..])
  }

  /** Every element satisfies `p` exactly when the first does and every later one does. */
  lemma AllCons<T>(p: T -> bool, xs: seq<T>)
    requires |xs| > 0
    ensures (forall i | 0 <= i < |xs| :: p(xs[i]))
      <==> (p(xs[0]) && forall i | 0 <= i < |xs[1..]| :: p(xs[1..][i]))
  {
    var t := xs[1..];
    if p(xs[0]) && forall i | 0 <= i < |t| :: p(t[i]) {
      forall i | 0 <= i < |xs| ensures p(xs[i]) {
        if i > 0 {
          assert xs[i] == t[i - 1];
        }
      }
    }
    if forall i | 0 <= i < |xs| :: p(xs[i]) {
      forall i | 0 <= i < |t| ensures p(t[i]) {
        assert t[i] == xs[i + 1];
      }
    }
  }

  /** An element is kept exactly when it occurs in the input and satisfies `p`. */
  lemma {:induction false} FilterMembers<T>(p: T -> bool, xs: seq<T>, x: T)
    ensures x in Filter(p, xs) <==> x in xs && p(x)
    decreases |xs|
  {
    if |xs| > 0 {
      FilterMembers(p, xs[1..], x);
      assert xs == [xs[0]] + xs[1..];
    }
  }

  /** Filtering out an element that occurs in the input shortens it. */
  lemma {:induction false} FilterShrinks<T>(p: T -> bool, xs: seq<T>, x: T)
    requires x in xs && !p(x)
    ensures |Filter(p, xs)| < |xs|
    decreases |xs|
  {
    if xs[0] != x {
      FilterShrinks(p, xs[1..], x);
    }
  }

  /** Filtering keeps a descending order. */
  lemma {:induction false} FilterSorted<T>(cmp: (T, T) -> int, p: T -> bool, xs: seq<T>)
    requires SortedDesc(cmp, xs)
    ensures SortedDesc(cmp, Filter(p, xs))
    decreases |xs|
  {
    if |xs| > 0 {
      var t := xs[1..];
      assert SortedDesc(cmp, t) by {
        forall i, j | 0 <= i < j < |t| ensures cmp(t[i], t[j]) >= 0 {
          assert t[i] == xs[i + 1] && t[j] == xs[j + 1];
        }
      }
      FilterSorted(cmp, p, t);
      if p(xs[0]) {
        var ft := Filter(p, t);
        forall j | 0 <= j < |ft| ensures cmp(xs[0], ft[j]) >= 0 {
          FilterMembers(p, t, ft[j]);
          var k :| 0 <= k < |t| && t[k] == ft[j];
          assert t[k] == xs[k + 1];
        }
        SortedCons(cmp, xs[0], ft);
      }
    }
  }
}
