/**
 * Python's `dict`, as the program uses it: a finite map whose keys remember the
 * order in which they were first inserted. Assigning to a present key replaces
 * its value and keeps its position; a new key goes to the end; `del` removes a
 * key and keeps the order of the others.
 */
module Dicts {

  datatype Dict<K, V> = Dict(order: seq<K>, entries: map<K, V>)

  ghost predicate Distinct<K>(s: seq<K>) {
    forall i, j :: 0 <= i < j < |s| ==> s[i] != s[j]
  }

  /** The keys in `order` are exactly the keys of `entries`, each once. */
  ghost predicate Valid<K(!new), V>(d: Dict<K, V>) {
    && Distinct(d.order)
    && forall k :: k in d.entries <==> k in d.order
  }

  /** `d[k] = v` */
  function Set<K(!new), V>(d: Dict<K, V>, k: K, v: V): (r: Dict<K, V>)
    requires Valid(d)
    ensures Valid(r)
  {
    if k in d.entries then Dict(d.order, d.entries[k := v])
    else Dict(d.order + [k], d.entries[k := v])
  }

  /** `d.values()`, in insertion order. */
  function Values<K(!new), V(!new)>(d: Dict<K, V>): (vs: seq<V>)
    requires Valid(d)
    ensures |vs| == |d.order|
    ensures forall v :: v in vs <==> exists k :: k in d.entries && d.entries[k] == v
  {
    var vs := seq(|d.order|, i requires 0 <= i < |d.order| => d.entries[d.order[i]]);
    forall k | k in d.entries ensures d.entries[k] in vs {
      var i :| 0 <= i < |d.order| && d.order[i] == k;
      assert vs[i] == d.entries[k];
    }
    vs
  }

  lemma {:induction false} DistinctCard<K>(s: seq<K>)
    requires Distinct(s)
    ensures |set k | k in s| == |s|
  {
    if s != [] {
      var n := |s| - 1;
      DistinctCard(s[..n]);
      assert (set k | k in s) == (set k | k in s[..n]) + {s[n]};
      assert s[n] !in (set k | k in s[..n]);
    }
  }

  /** A dict has as many keys as its insertion order lists. */
  lemma ValidSize<K(!new), V>(d: Dict<K, V>)
    requires Valid(d)
    ensures |d.entries| == |d.order|
  {
    DistinctCard(d.order);
    assert d.entries.Keys == set k | k in d.order;
  }

  // ---------------------------------------------------------------------------
  // Dict comprehensions: {key(x): val(x) for x in xs if keep(x)}

  /** Builds the dict by assigning `key(x): val(x)` for each kept `x`, left to right. */
  function Comprehension<T, K(!new), V>(xs: seq<T>, key: T -> K, val: T -> V, keep: T -> bool): (r: Dict<K, V>)
    ensures Valid(r)
    decreases |xs|
  {
    if xs == [] then Dict([], map[])
    else
      var d := Comprehension(xs[..|xs| - 1], key, val, keep);
      var x := xs[|xs| - 1];
      if keep(x) then Set(d, key(x), val(x)) else d
  }

  /** xs[i] is kept and no later kept element has the same key. */
  ghost predicate LastKept<T, K(!new)>(xs: seq<T>, key: T -> K, keep: T -> bool, i: int)
    requires 0 <= i < |xs|
  {
    keep(xs[i]) && forall j :: i < j < |xs| ==> !(keep(xs[j]) && key(xs[j]) == key(xs[i]))
  }

  /** The keys are exactly the keys of the kept elements. */
  lemma {:induction false} ComprehensionKeys<T, K(!new), V>(xs: seq<T>, key: T -> K, val: T -> V, keep: T -> bool)
    ensures forall k :: k in Comprehension(xs, key, val, keep).entries <==>
                        exists i :: 0 <= i < |xs| && keep(xs[i]) && key(xs[i]) == k
  {
    if xs != [] {
      var n := |xs| - 1;
      ComprehensionKeys(xs[..n], key, val, keep);
      forall k
        ensures k in Comprehension(xs, key, val, keep).entries <==>
                exists i :: 0 <= i < |xs| && keep(xs[i]) && key(xs[i]) == k
      {
        if k in Comprehension(xs[..n], key, val, keep).entries {
          var i :| 0 <= i < n && keep(xs[..n][i]) && key(xs[..n][i]) == k;
          assert xs[i] == xs[..n][i];
        } else if exists i :: 0 <= i < |xs| && keep(xs[i]) && key(xs[i]) == k {
          var i :| 0 <= i < |xs| && keep(xs[i]) && key(xs[i]) == k;
          if i < n {
            assert xs[..n][i] == xs[i];
          }
        }
      }
    }
  }

  /** The last kept element with a given key supplies that key's value. */
  lemma {:induction false} ComprehensionLastWins<T, K(!new), V>(xs: seq<T>, key: T -> K, val: T -> V, keep: T -> bool, i: int)
    requires 0 <= i < |xs| && LastKept(xs, key, keep, i)
    ensures key(xs[i]) in Comprehension(xs, key, val, keep).entries
    ensures Comprehension(xs, key, val, keep).entries[key(xs[i])] == val(xs[i])
  {
    var n := |xs| - 1;
    if i < n {
      assert xs[..n][i] == xs[i];
      forall j | i < j < n ensures !(keep(xs[..n][j]) && key(xs[..n][j]) == key(xs[..n][i])) {
        assert xs[..n][j] == xs[j];
      }
      ComprehensionLastWins(xs[..n], key, val, keep, i);
    }
  }

  /** Every value comes from the last kept element with its key. */
  lemma {:induction false} ComprehensionSource<T, K(!new), V>(xs: seq<T>, key: T -> K, val: T -> V, keep: T -> bool, k: K)
    requires k in Comprehension(xs, key, val, keep).entries
    ensures exists i :: 0 <= i < |xs| && key(xs[i]) == k && LastKept(xs, key, keep, i) &&
                        Comprehension(xs, key, val, keep).entries[k] == val(xs[i])
  {
    var n := |xs| - 1;
    var x := xs[n];
    if keep(x) && key(x) == k {
      assert LastKept(xs, key, keep, n);
    } else {
      assert k in Comprehension(xs[..n], key, val, keep).entries;
      ComprehensionSource(xs[..n], key, val, keep, k);
      var i :| 0 <= i < n && key(xs[..n][i]) == k && LastKept(xs[..n], key, keep, i) &&
               Comprehension(xs[..n], key, val, keep).entries[k] == val(xs[..n][i]);
      assert xs[..n][i] == xs[i];
      forall j | i < j < |xs| ensures !(keep(xs[j]) && key(xs[j]) == key(xs[i])) {
        if j < n { assert xs[..n][j] == xs[j]; }
      }
      assert LastKept(xs, key, keep, i);
    }
  }

  /**
   * Insertion order: a key listed before another was inserted (by a kept
   * element) before any kept element carried the later key.
   */
  lemma {:induction false} ComprehensionOrder<T, K(!new), V>(xs: seq<T>, key: T -> K, val: T -> V, keep: T -> bool, p: int, q: int)
    requires 0 <= p < q < |Comprehension(xs, key, val, keep).order|
    ensures var order := Comprehension(xs, key, val, keep).order;
            exists i :: 0 <= i < |xs| && keep(xs[i]) && key(xs[i]) == order[p] &&
                        forall j :: 0 <= j <= i && keep(xs[j]) ==> key(xs[j]) != order[q]
  {
    var n := |xs| - 1;
    var x := xs[n];
    var d := Comprehension(xs[..n], key, val, keep);
    var order := Comprehension(xs, key, val, keep).order;
    if q < |d.order| {
      assert order[p] == d.order[p] && order[q] == d.order[q];
      ComprehensionOrder(xs[..n], key, val, keep, p, q);
      var i :| 0 <= i < n && keep(xs[..n][i]) && key(xs[..n][i]) == d.order[p] &&
               forall j :: 0 <= j <= i && keep(xs[..n][j]) ==> key(xs[..n][j]) != d.order[q];
      assert xs[..n][i] == xs[i];
      forall j | 0 <= j <= i && keep(xs[j]) ensures key(xs[j]) != order[q] {
        assert xs[..n][j] == xs[j];
      }
    } else {
      // The last element added a new key, now at position q.
      assert keep(x) && key(x) !in d.entries && order == d.order + [key(x)] && order[q] == key(x);
      assert order[p] == d.order[p] && order[p] in d.entries;
      ComprehensionKeys(xs[..n], key, val, keep);
      var i :| 0 <= i < n && keep(xs[..n][i]) && key(xs[..n][i]) == order[p];
      assert xs[..n][i] == xs[i];
      forall j | 0 <= j <= i && keep(xs[j]) ensures key(xs[j]) != order[q] {
        assert xs[..n][j] == xs[j];
      }
    }
  }

  // ---------------------------------------------------------------------------
  // d.update(e)

  /** `d.update(e)` after the first `n` keys of `e`. */
  function UpdatePrefix<K(!new), V>(d: Dict<K, V>, e: Dict<K, V>, n: nat): (r: Dict<K, V>)
    requires Valid(d) && Valid(e) && n <= |e.order|
    ensures Valid(r)
    ensures forall k :: k in r.entries <==> k in d.entries || k in e.order[..n]
    ensures forall k :: k in r.entries ==>
              r.entries[k] == if k in e.order[..n] then e.entries[k] else d.entries[k]
    ensures |d.order| <= |r.order| && r.order[..|d.order|] == d.order
    decreases n
  {
    if n == 0 then d
    else
      var k := e.order[n - 1];
      assert e.order[..n] == e.order[..n - 1] + [k];
      Set(UpdatePrefix(d, e, n - 1), k, e.entries[k])
  }

  /**
   * `d.update(e)`: every key of `e` gets `e`'s value, the other keys of `d`
   * keep theirs, and the keys `d` already had keep their positions.
   */
  function Update<K(!new), V>(d: Dict<K, V>, e: Dict<K, V>): (r: Dict<K, V>)
    requires Valid(d) && Valid(e)
    ensures Valid(r)
    ensures r.entries == d.entries + e.entries
    ensures |d.order| <= |r.order| && r.order[..|d.order|] == d.order
  {
    assert e.order[..|e.order|] == e.order;
    UpdatePrefix(d, e, |e.order|)
  }

  // ---------------------------------------------------------------------------
  // del d[k]

  function IndexOf<K(==)>(s: seq<K>, k: K): (i: nat)
    requires k in s
    ensures i < |s| && s[i] == k
  {
    if s[0] == k then 0 else 1 + IndexOf(s[1..], k)
  }

  /** Dropping position `p` of a distinct sequence drops exactly `s[p]` and keeps it distinct. */
  lemma RemoveAt<K>(s: seq<K>, p: nat)
    requires Distinct(s) && p < |s|
    ensures Distinct(s[..p] + s[p + 1..])
    ensures forall x :: x in s[..p] + s[p + 1..] <==> x in s && x != s[p]
  {
  }

  /**
   * `del d[k]` for a present key: `k` is gone, every other key keeps its value,
   * and the remaining keys keep their relative order.
   */
  function Delete<K(!new), V>(d: Dict<K, V>, k: K): (r: Dict<K, V>)
    requires Valid(d) && k in d.entries
    ensures Valid(r)
    ensures r.entries.Keys == d.entries.Keys - {k}
    ensures forall k' :: k' in r.entries ==> r.entries[k'] == d.entries[k']
    ensures exists p :: 0 <= p < |d.order| && d.order[p] == k && r.order == d.order[..p] + d.order[p + 1..]
  {
    var p := IndexOf(d.order, k);
    RemoveAt(d.order, p);
    Dict(d.order[..p] + d.order[p + 1..], d.entries - {k})
  }
}
