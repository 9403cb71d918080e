/**
 * Python dictionaries with string keys, as the engine uses them: an
 * association list in insertion order. Assigning to a present key keeps
 * its position; assigning to an absent key appends; `pop` removes the
 * entry and keeps the order of the rest. `sorted(d.items())` sorts by
 * key, which for distinct keys is the order of the items.
 */
module Dicts {
  import opened Wrappers
  import opened Strs
  import opened Sorting

  /** No key is bound twice, as in every dictionary. */
  predicate DistinctKeys<V>(d: seq<(string, V)>) {
    forall i, j | 0 <= i < j < |d| :: d[i].0 != d[j].0
  }

  /** The keys, in insertion order. */
  function Keys<V>(d: seq<(string, V)>): (r: seq<string>)
    ensures |r| == |d| && forall i | 0 <= i < |d| :: r[i] == d[i].0
  {
    seq(|d|, i requires 0 <= i < |d| => d[i].0)
  }

  /** `k in d`. */
  predicate HasKey<V>(d: seq<(string, V)>, k: string) {
    exists i | 0 <= i < |d| :: d[i].0 == k
  }

  /** `d.get(k)`: the value bound to `k`, if any. */
  function Get<V>(d: seq<(string, V)>, k: string): (r: Option<V>)
    ensures r.Some? <==> HasKey(d, k)
    ensures r.Some? ==> (k, r.value) in d
    decreases |d|
  {
    if |d| == 0 then None
    else if d[0].0 == k then Some(d[0].1)
    else
      var r := Get(d[1..], k);
      assert forall i | 1 <= i < |d| :: d[i] == d[1..][i - 1];
      assert r.Some? ==> (k, r.value) in d[1..];
      r
  }

  /** In a dictionary, the value of an entry's key is that entry's value. */
  lemma {:induction false} GetMember<V>(d: seq<(string, V)>, k: string, v: V)
    requires DistinctKeys(d) && (k, v) in d
    ensures Get(d, k) == Some(v)
    decreases |d|
  {
    if d[0] != (k, v) {
      var i :| 0 <= i < |d| && d[i] == (k, v);
      assert i > 0;
      var t := d[1..];
      assert t[i - 1] == (k, v);
      assert DistinctKeys(t) by {
        forall a, b | 0 <= a < b < |t| ensures t[a].0 != t[b].0 {
          assert t[a] == d[a + 1] && t[b] == d[b + 1];
        }
      }
      assert d[0].0 != k;
      GetMember(t, k, v);
    }
  }

  /** `d[k] = v`: replaced in place when `k` is present, appended otherwise. */
  function Put<V>(d: seq<(string, V)>, k: string, v: V): (r: seq<(string, V)>)
    ensures (k, v) in r
    ensures forall e | e in r :: e in d || e == (k, v)
    ensures forall e | e in d && e.0 != k :: e in r
    decreases |d|
  {
    if |d| == 0 then [(k, v)]
    else if d[0].0 == k then
      var r := [(k, v)] + d[1..];
      assert forall e | e in d :: e == d[0] || e in d[1..] by {
        assert d == [d[0]] + d[1..];
      }
      r
    else
      var rest := Put(d[1..], k, v);
      assert forall e | e in d :: e == d[0] || e in d[1..] by {
        assert d == [d[0]] + d[1..];
      }
      [d[0]] + rest
  }

  /** Assigning keeps the keys of a dictionary distinct. */
  lemma {:induction false} PutDistinct<V>(d: seq<(string, V)>, k: string, v: V)
    requires DistinctKeys(d)
    ensures DistinctKeys(Put(d, k, v))
    decreases |d|
  {
    if |d| > 0 {
      var t := d[1..];
      assert DistinctKeys(t) by {
        forall a, b | 0 <= a < b < |t| ensures t[a].0 != t[b].0 {
          assert t[a] == d[a + 1] && t[b] == d[b + 1];
        }
      }
      if d[0].0 == k {
        var r := Put(d, k, v);
        forall a, b | 0 <= a < b < |r| ensures r[a].0 != r[b].0 {
          assert r[b] == d[b];
          if a > 0 {
            assert r[a] == d[a];
          }
        }
      } else {
        PutDistinct(t, k, v);
        ConsDistinct(d[0], Put(t, k, v), t, k, v);
      }
    }
  }

  lemma ConsDistinct<V>(h: (string, V), rest: seq<(string, V)>, t: seq<(string, V)>, k: string, v: V)
    requires DistinctKeys([h] + t) && DistinctKeys(rest) && h.0 != k
    requires forall e | e in rest :: e in t || e == (k, v)
    ensures DistinctKeys([h] + rest)
  {
    var r := [h] + rest;
    forall a, b | 0 <= a < b < |r| ensures r[a].0 != r[b].0 {
      if a == 0 {
        assert r[b] == rest[b - 1] && r[b] in rest;
        if r[b] != (k, v) {
          assert r[b] in t;
          var m :| 0 <= m < |t| && t[m] == r[b];
          var ht := [h] + t;
          assert ht[0] == h && ht[m + 1] == r[b];
          assert ht[0].0 != ht[m + 1].0;
        }
      } else {
        assert r[a] == rest[a - 1] && r[b] == rest[b - 1];
      }
    }
  }

  /** `d.pop(k, None)`: the entry for `k` is gone and the others keep their order. */
  function Remove<V>(d: seq<(string, V)>, k: string): (r: seq<(string, V)>)
    ensures r == Filter((e: (string, V)) => e.0 != k, d)
    ensures !HasKey(r, k)
  {
    var r := Filter((e: (string, V)) => e.0 != k, d);
    assert forall i | 0 <= i < |r| :: r[i].0 != k;
    r
  }

  /** After `d[k] = v`, `k` reads `v` and every other key reads what it read before. */
  lemma {:induction false} GetPut<V>(d: seq<(string, V)>, k: string, v: V, key: string)
    ensures Get(Put(d, k, v), key) == if key == k then Some(v) else Get(d, key)
    decreases |d|
  {
    if |d| > 0 {
      if d[0].0 == k {
        assert ([(k, v)] + d[1..])[1..] == d[1..];
      } else {
        GetPut(d[1..], k, v, key);
        assert ([d[0]] + Put(d[1..], k, v))[1..] == Put(d[1..], k, v);
      }
    }
  }

  /** Dropping entries whose keys differ from `key` does not change what `key` reads. */
  lemma {:induction false} GetFilter<V>(p: ((string, V)) -> bool, d: seq<(string, V)>, key: string)
    requires forall e: (string, V) | e.0 == key :: p(e)
    ensures Get(Filter(p, d), key) == Get(d, key)
    decreases |d|
  {
    if |d| > 0 {
      GetFilter(p, d[1..], key);
      if p(d[0]) {
        assert ([d[0]] + Filter(p, d[1..]))[1..] == Filter(p, d[1..]);
      }
    }
  }

  /** After `d.pop(k)`, `k` is absent and every other key reads what it read before. */
  lemma GetRemove<V>(d: seq<(string, V)>, k: string, key: string)
    ensures Get(Remove(d, k), key) == if key == k then None else Get(d, key)
  {
    if key != k {
      var p := (e: (string, V)) => e.0 != k;
      assert Remove(d, k) == Filter(p, d);
      GetFilter(p, d, key);
    }
  }

  /** Keeping some entries keeps the keys distinct. */
  lemma {:induction false} FilterDistinct<V>(p: ((string, V)) -> bool, d: seq<(string, V)>)
    requires DistinctKeys(d)
    ensures DistinctKeys(Filter(p, d))
    decreases |d|
  {
    if |d| > 0 {
      var t := d[1..];
      assert DistinctKeys(t) by {
        forall a, b | 0 <= a < b < |t| ensures t[a].0 != t[b].0 {
          assert t[a] == d[a + 1] && t[b] == d[b + 1];
        }
      }
      FilterDistinct(p, t);
      if p(d[0]) {
        var rest := Filter(p, t);
        var r := [d[0]] + rest;
        forall a, b | 0 <= a < b < |r| ensures r[a].0 != r[b].0 {
          if a == 0 {
            FilterMembers(p, t, r[b]);
            var m :| 0 <= m < |t| && t[m] == r[b];
            assert d[m + 1] == r[b];
          } else {
            assert r[a] == rest[a - 1] && r[b] == rest[b - 1];
          }
        }
      }
    }
  }

  /** Prepending an entry under the first key of `items` to a list with the keys of the rest gives the keys of `items`. */
  lemma {:induction false} KeysCons<V, W>(x: (string, V), acts: seq<(string, V)>, items: seq<(string, W)>)
    requires |items| > 0 && x.0 == items[0].0 && Keys(acts) == Keys(items[1..])
    ensures Keys([x] + acts) == Keys(items)
  {
    assert Keys([x] + acts) == [x.0] + Keys(acts);
    assert Keys(items) == [items[0].0] + Keys(items[1..]);
  }

  /** Every entry of a dictionary is found under its key: membership of keys, by entries. */
  lemma KeysMember<V>(d: seq<(string, V)>, k: string)
    ensures k in Keys(d) <==> HasKey(d, k)
  {
    if HasKey(d, k) {
      var i :| 0 <= i < |d| && d[i].0 == k;
      assert Keys(d)[i] == k;
    }
  }

  // ---------------------------------------------------------------------
  // sorted(d.items())
  // ---------------------------------------------------------------------

  /** The item order `sorted` uses, reversed so that the descending sort yields ascending keys. */
  function ByKey<V>(a: (string, V), b: (string, V)): int {
    LexCompare(b.0, a.0)
  }

  /** `sorted(d.items())`. */
  function SortedItems<V>(d: seq<(string, V)>): seq<(string, V)> {
    SortDesc(ByKey, d)
  }

  ghost predicate Ascending<V>(d: seq<(string, V)>) {
    forall i, j | 0 <= i < j < |d| :: LexCompare(d[i].0, d[j].0) <= 0
  }

  lemma ByKeyOrder<V(!new)>(s: set<(string, V)>)
    ensures TotalPreorder(ByKey, s)
  {
    forall a, b | a in s && b in s
      ensures -1 <= ByKey(a, b) <= 1 && ByKey(a, b) == -ByKey(b, a)
    {
      LexCompareAntisymmetric(a.0, b.0);
    }
    forall a, b, c | a in s && b in s && c in s && ByKey(a, b) >= 0 && ByKey(b, c) >= 0
      ensures ByKey(a, c) >= 0
    {
      LexCompareAntisymmetric(a.0, b.0);
      LexCompareAntisymmetric(b.0, c.0);
      LexCompareAntisymmetric(a.0, c.0);
      LexCompareTransitive(a.0, b.0, c.0);
    }
  }

  /** The sorted items are the same items, in ascending order of key. */
  lemma SortedItemsOrder<V(!new)>(d: seq<(string, V)>)
    ensures multiset(SortedItems(d)) == multiset(d)
    ensures Ascending(SortedItems(d))
  {
    var s := set e | e in d;
    ByKeyOrder(s);
    SortDescSorted(ByKey, d, s);
    var r := SortedItems(d);
    forall i, j | 0 <= i < j < |r| ensures LexCompare(r[i].0, r[j].0) <= 0 {
      assert ByKey(r[i], r[j]) >= 0;
      LexCompareAntisymmetric(r[i].0, r[j].0);
    }
  }

  /** Sorting keeps the entries, hence the keys. */
  lemma SortedItemsMembers<V>(d: seq<(string, V)>, e: (string, V))
    ensures e in SortedItems(d) <==> e in d
  {
    assert multiset(SortedItems(d)) == multiset(d);
    assert e in SortedItems(d) <==> e in multiset(SortedItems(d));
  }

  /** With distinct keys no entry occurs twice. */
  lemma {:induction false} DistinctCount<V>(d: seq<(string, V)>, e: (string, V))
    requires DistinctKeys(d)
    ensures multiset(d)[e] <= 1
    decreases |d|
  {
    if |d| > 0 {
      var t := d[1..];
      assert d == [d[0]] + t;
      assert DistinctKeys(t) by {
        forall a, b | 0 <= a < b < |t| ensures t[a].0 != t[b].0 {
          assert t[a] == d[a + 1] && t[b] == d[b + 1];
        }
      }
      DistinctCount(t, e);
    }
  }

  /** Sorting keeps the keys distinct. */
  lemma SortedItemsDistinct<V(!new)>(d: seq<(string, V)>)
    requires DistinctKeys(d)
    ensures DistinctKeys(SortedItems(d))
  {
    var s := SortedItems(d);
    SortedItemsOrder(d);
    forall i, j | 0 <= i < j < |s| ensures s[i].0 != s[j].0 {
      if s[i].0 == s[j].0 {
        SortedItemsMembers(d, s[i]);
        SortedItemsMembers(d, s[j]);
        var a :| 0 <= a < |d| && d[a] == s[i];
        var b :| 0 <= b < |d| && d[b] == s[j];
        assert a == b;
        assert s == s[..j] + s[j..];
        assert s[i] in s[..j];
        assert s[j] in s[j..];
        assert multiset(s)[s[j]] >= 2;
        DistinctCount(d, s[j]);
        assert false;
      }
    }
  }
}
