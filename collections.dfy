/** Sequences and dictionaries as the pipeline's JavaScript uses them.

    `Filter` is `Array.prototype.filter`; `Dedup` is `[...new Set(s)]`, which
    keeps the first occurrence of each element. A JavaScript object whose keys
    are not integer-like iterates its keys in insertion order, so a dictionary
    is a sequence of key/value pairs: `Put` is `obj[k] = v` (a new key goes to
    the end, an existing key keeps its place and takes the new value) and `Get`
    is `obj[k]`. */
module Collections {
  import opened Wrappers

  function Filter<T(==,!new)>(s: seq<T>, f: T -> bool): (r: seq<T>)
    ensures |r| <= |s|
    ensures forall x :: x in r <==> x in s && f(x)
    decreases |s|
  {
    if s == [] then [] else (if f(s[0]) then [s[0]] else []) + Filter(s[1..], f)
  }

  lemma {:induction false} FilterKeepsDistinct<T(!new)>(s: seq<T>, f: T -> bool)
    requires Distinct(s)
    ensures Distinct(Filter(s, f))
    decreases |s|
  {
    if s != [] {
      FilterKeepsDistinct(s[1..], f);
      assert s[0] !in s[1..];
    }
  }

  lemma {:induction false} FilterNone<T(!new)>(s: seq<T>, f: T -> bool)
    requires forall x :: x in s ==> !f(x)
    ensures Filter(s, f) == []
    decreases |s|
  {
    if s != [] {
      assert s[0] in s;
      FilterNone(s[1..], f);
    }
  }

  lemma {:induction false} FilterAppend<T(!new)>(a: seq<T>, b: seq<T>, f: T -> bool)
    ensures Filter(a + b, f) == Filter(a, f) + Filter(b, f)
    decreases |a|
  {
    if a != [] {
      assert (a + b)[1..] == a[1..] + b;
      FilterAppend(a[1..], b, f);
    } else {
      assert a + b == b;
    }
  }

  /** Filtering an already filtered sequence with a predicate that excludes all
      of its elements leaves nothing; with one that admits all of them, changes nothing. */
  lemma {:induction false} FilterOfFiltered<T(!new)>(s: seq<T>, f: T -> bool, g: T -> bool)
    ensures (forall x :: f(x) ==> !g(x)) ==> Filter(Filter(s, f), g) == []
    ensures (forall x :: f(x) ==> g(x)) ==> Filter(Filter(s, f), g) == Filter(s, f)
    decreases |s|
  {
    if s != [] {
      FilterOfFiltered(s[1..], f, g);
      if f(s[0]) {
        var rest := Filter(s[1..], f);
        assert Filter(s, f) == [s[0]] + rest;
        assert ([s[0]] + rest)[1..] == rest;
      } else {
        assert Filter(s, f) == Filter(s[1..], f);
      }
    }
  }

  /** A predicate and its negation split a sequence: every element goes to
      exactly one side, and the two sides together hold the original multiset. */
  lemma FilterPartition<T(!new)>(s: seq<T>, f: T -> bool, g: T -> bool)
    requires forall x :: g(x) == !f(x)
    ensures |Filter(s, f)| + |Filter(s, g)| == |s|
    ensures multiset(Filter(s, f)) + multiset(Filter(s, g)) == multiset(s)
  {
    FilterSplitsMultiset(s, f, g);
    assert |multiset(Filter(s, f))| == |Filter(s, f)| && |multiset(Filter(s, g))| == |Filter(s, g)|;
  }

  lemma {:induction false} FilterSplitsMultiset<T(!new)>(s: seq<T>, f: T -> bool, g: T -> bool)
    requires forall x :: g(x) == !f(x)
    ensures multiset(Filter(s, f)) + multiset(Filter(s, g)) == multiset(s)
    decreases |s|
  {
    if s != [] {
      FilterSplitsMultiset(s[1..], f, g);
      var x, rest := s[0], s[1..];
      assert s == [x] + rest;
      assert multiset(s) == multiset{x} + multiset(rest);
      if f(x) {
        assert Filter(s, f) == [x] + Filter(rest, f);
        assert Filter(s, g) == Filter(rest, g);
        assert multiset(Filter(s, f)) == multiset{x} + multiset(Filter(rest, f));
      } else {
        assert Filter(s, f) == Filter(rest, f);
        assert Filter(s, g) == [x] + Filter(rest, g);
        assert multiset(Filter(s, g)) == multiset{x} + multiset(Filter(rest, g));
      }
    }
  }

  predicate Distinct<T(==,!new)>(s: seq<T>) {
    forall i, j :: 0 <= i < j < |s| ==> s[i] != s[j]
  }

  /** `[...new Set(s)]`. */
  function Dedup<T(==,!new)>(s: seq<T>): (r: seq<T>)
    ensures Distinct(r) && |r| <= |s|
    ensures forall x :: x in r <==> x in s
    decreases |s|
  {
    if s == [] then []
    else
      var d := Dedup(s[..|s| - 1]);
      var x := s[|s| - 1];
      assert forall y :: y in s <==> y in s[..|s| - 1] || y == x;
      if x in d then d else d + [x]
  }

  /** Dedup keeps first occurrences, so the element that comes first in `s` comes first in it. */
  lemma {:induction false} DedupPrefix<T(!new)>(s: seq<T>, t: seq<T>)
    ensures Dedup(s) <= Dedup(s + t)
    decreases |t|
  {
    if t == [] {
      assert s + t == s;
    } else {
      var u := s + t[..|t| - 1];
      assert (s + t)[..|s + t| - 1] == u;
      DedupPrefix(s, t[..|t| - 1]);
    }
  }

  /** Concatenation of a sequence of lists: `lists.reduce((acc, l) => [...acc, ...l], [])`. */
  function Flatten<T(==,!new)>(lists: seq<seq<T>>): (r: seq<T>)
    ensures forall x :: x in r <==> exists i :: 0 <= i < |lists| && x in lists[i]
    decreases |lists|
  {
    if lists == [] then []
    else
      var r := Flatten(lists[..|lists| - 1]) + lists[|lists| - 1];
      assert forall i :: 0 <= i < |lists| - 1 ==> lists[..|lists| - 1][i] == lists[i];
      r
  }

  // ---------------------------------------------------------------------------
  // Insertion-ordered dictionaries

  type Dict<K, V> = seq<(K, V)>

  function Get<K(==,!new), V>(d: Dict<K, V>, k: K): Option<V>
    decreases |d|
  {
    if d == [] then None else if d[0].0 == k then Some(d[0].1) else Get(d[1..], k)
  }

  function Put<K(==,!new), V>(d: Dict<K, V>, k: K, v: V): (r: Dict<K, V>)
    ensures Get(r, k) == Some(v)
    ensures forall k' :: k' != k ==> Get(r, k') == Get(d, k')
    ensures Get(d, k).None? ==> r == d + [(k, v)]
    ensures Get(d, k).Some? ==> |r| == |d|
    decreases |d|
  {
    if d == [] then [(k, v)]
    else if d[0].0 == k then [(k, v)] + d[1..]
    else [d[0]] + Put(d[1..], k, v)
  }

  function KeysOf<K(==,!new), V>(d: Dict<K, V>): (ks: seq<K>)
    ensures |ks| == |d|
    ensures forall i :: 0 <= i < |d| ==> ks[i] == d[i].0
  {
    seq(|d|, i requires 0 <= i < |d| => d[i].0)
  }

  predicate DistinctKeys<K(==,!new), V>(d: Dict<K, V>) {
    Distinct(KeysOf(d))
  }

  lemma {:induction false} GetSomeIffKey<K(!new), V>(d: Dict<K, V>, k: K)
    ensures Get(d, k).Some? <==> k in KeysOf(d)
    decreases |d|
  {
    if d != [] {
      GetSomeIffKey(d[1..], k);
      assert KeysOf(d) == [d[0].0] + KeysOf(d[1..]);
    }
  }

  /** With distinct keys, the value stored at an entry is what `Get` returns for its key. */
  lemma {:induction false} GetAtEntry<K(!new), V>(d: Dict<K, V>, i: nat)
    requires DistinctKeys(d) && i < |d|
    ensures Get(d, d[i].0) == Some(d[i].1)
    decreases i
  {
    if i > 0 {
      assert KeysOf(d)[0] != KeysOf(d)[i];
      assert DistinctKeys(d[1..]) by {
        assert forall j :: 0 <= j < |d| - 1 ==> KeysOf(d[1..])[j] == KeysOf(d)[j + 1];
      }
      GetAtEntry(d[1..], i - 1);
    }
  }

  lemma {:induction false} PutKeepsDistinct<K(!new), V>(d: Dict<K, V>, k: K, v: V)
    requires DistinctKeys(d)
    ensures DistinctKeys(Put(d, k, v))
    ensures KeysOf(d) <= KeysOf(Put(d, k, v))
    decreases |d|
  {
    GetSomeIffKey(d, k);
    if Get(d, k).Some? {
      PutSameKeys(d, k, v);
    } else {
      assert KeysOf(Put(d, k, v)) == KeysOf(d) + [k];
    }
  }

  lemma KeysOfCons<K(!new), V>(e: (K, V), d: Dict<K, V>)
    ensures KeysOf([e] + d) == [e.0] + KeysOf(d)
  {
  }

  lemma {:induction false} PutSameKeys<K(!new), V>(d: Dict<K, V>, k: K, v: V)
    requires Get(d, k).Some?
    ensures KeysOf(Put(d, k, v)) == KeysOf(d)
    decreases |d|
  {
    assert d == [d[0]] + d[1..];
    KeysOfCons(d[0], d[1..]);
    if d[0].0 != k {
      PutSameKeys(d[1..], k, v);
      KeysOfCons(d[0], Put(d[1..], k, v));
    } else {
      KeysOfCons((k, v), d[1..]);
    }
  }

  /** What `Get` finds is an entry of the dictionary. */
  lemma {:induction false} GetFound<K(!new), V>(d: Dict<K, V>, k: K)
    ensures Get(d, k).Some? ==> (k, Get(d, k).value) in d
    decreases |d|
  {
    if d != [] && d[0].0 != k {
      GetFound(d[1..], k);
    }
  }

  /** Every entry of `Put(d, k, v)` is `(k, v)` or an entry of `d`. */
  lemma {:induction false} PutEntries<K(!new), V>(d: Dict<K, V>, k: K, v: V)
    ensures forall e :: e in Put(d, k, v) ==> e == (k, v) || e in d
    decreases |d|
  {
    if d != [] && d[0].0 != k {
      PutEntries(d[1..], k, v);
    }
  }
}
