/**
`std::map`: a list of pairs in the strict order of their keys, which is the order its loops run in, and the
finite map it stands for.
 */
module OrderedMaps {
  import opened Wrappers

  type Pairs<K, V> = seq<(K, V)>

  /** A strict total order, with which the keys are compared. */
  ghost predicate IsOrder<K(!new)>(less: (K, K) -> bool) {
    && (forall a :: !less(a, a))
    && (forall a, b :: less(a, b) || less(b, a) || a == b)
    && (forall a, b, c :: less(a, b) && less(b, c) ==> less(a, c))
  }

  ghost predicate Sorted<K, V>(less: (K, K) -> bool, m: Pairs<K, V>) {
    forall i, j :: 0 <= i < j < |m| ==> less(m[i].0, m[j].0)
  }

  function Get<K(==), V>(m: Pairs<K, V>, k: K): Option<V> {
    if m == [] then None else if m[0].0 == k then Some(m[0].1) else Get(m[1..], k)
  }

  /** `m[k] = v`. */
  function Put<K(==), V>(less: (K, K) -> bool, m: Pairs<K, V>, k: K, v: V): Pairs<K, V> {
    if m == [] then [(k, v)]
    else if m[0].0 == k then [(k, v)] + m[1..]
    else if less(k, m[0].0) then [(k, v)] + m
    else [m[0]] + Put(less, m[1..], k, v)
  }

  function ToMap<K, V>(m: Pairs<K, V>): map<K, V> {
    if m == [] then map[] else ToMap(m[1..])[m[0].0 := m[0].1]
  }

  lemma {:induction false} ToMapKeys<K, V>(m: Pairs<K, V>)
    ensures forall k :: k in ToMap(m) <==> exists i :: 0 <= i < |m| && m[i].0 == k
  {
    if m != [] {
      ToMapKeys(m[1..]);
      assert forall i :: 1 <= i < |m| ==> m[i] == m[1..][i - 1];
    }
  }

  lemma {:induction false} GetIsLookup<K, V>(m: Pairs<K, V>, k: K)
    ensures Get(m, k) == if k in ToMap(m) then Some(ToMap(m)[k]) else None
  {
    if m != [] { GetIsLookup(m[1..], k); }
  }

  /** The keys behind the first one do not hold it. */
  lemma SortedTail<K(!new), V>(less: (K, K) -> bool, m: Pairs<K, V>)
    requires IsOrder(less) && Sorted(less, m) && m != []
    ensures Sorted(less, m[1..]) && m[0].0 !in ToMap(m[1..])
  {
    ToMapKeys(m[1..]);
    assert forall i :: 0 <= i < |m[1..]| ==> less(m[0].0, m[1..][i].0);
  }

  /** Storing a value keeps the order of the keys and is an update of the map. */
  lemma {:induction false} PutUpdates<K(!new), V>(less: (K, K) -> bool, m: Pairs<K, V>, k: K, v: V)
    requires IsOrder(less) && Sorted(less, m)
    ensures Sorted(less, Put(less, m, k, v))
    ensures ToMap(Put(less, m, k, v)) == ToMap(m)[k := v]
    decreases |m|
  {
    if m != [] {
      SortedTail(less, m);
      var r := Put(less, m, k, v);
      if m[0].0 == k {
        assert r[1..] == m[1..];
      } else if less(k, m[0].0) {
        assert r[1..] == m;
      } else {
        PutUpdates(less, m[1..], k, v);
        var s := Put(less, m[1..], k, v);
        assert r[1..] == s;
        ToMapKeys(s);
        ToMapKeys(m[1..]);
        forall i | 0 <= i < |s| ensures less(m[0].0, s[i].0) {
          assert s[i].0 in ToMap(s);
        }
      }
    }
  }

  /** Two ordered lists that stand for the same map are the same list. */
  lemma {:induction false} Canonical<K(!new), V>(less: (K, K) -> bool, m: Pairs<K, V>, n: Pairs<K, V>)
    requires IsOrder(less) && Sorted(less, m) && Sorted(less, n) && ToMap(m) == ToMap(n)
    ensures m == n
    decreases |m|
  {
    ToMapKeys(m);
    ToMapKeys(n);
    assert m != [] ==> m[0].0 in ToMap(m);
    assert n != [] ==> n[0].0 in ToMap(n);
    if m != [] && n != [] {
      SortedTail(less, m);
      SortedTail(less, n);
      assert m[0].0 == n[0].0;
      assert ToMap(m[1..]) == ToMap(m) - {m[0].0};
      assert ToMap(n[1..]) == ToMap(n) - {n[0].0};
      Canonical(less, m[1..], n[1..]);
    }
  }

  /** What a lookup finds after a value is stored. */
  lemma GetPut<K(!new), V>(less: (K, K) -> bool, m: Pairs<K, V>, k: K, v: V, key: K)
    requires IsOrder(less) && Sorted(less, m)
    ensures Get(Put(less, m, k, v), key) == if key == k then Some(v) else Get(m, key)
  {
    PutUpdates(less, m, k, v);
    GetIsLookup(m, key);
    GetIsLookup(Put(less, m, k, v), key);
  }

  lemma {:induction false} PutElements<K, V>(less: (K, K) -> bool, m: Pairs<K, V>, k: K, v: V)
    ensures forall x :: x in Put(less, m, k, v) ==> x in m || x == (k, v)
  {
    if m != [] { PutElements(less, m[1..], k, v); }
  }

  lemma {:induction false} GetElement<K, V>(m: Pairs<K, V>, k: K)
    requires Get(m, k).Some?
    ensures (k, Get(m, k).value) in m
  {
    if m[0].0 != k { GetElement(m[1..], k); }
  }

  /** The sum of the weights of the values. */
  function Weight<K, V>(m: Pairs<K, V>, w: V -> int): int {
    if m == [] then 0 else w(m[0].1) + Weight(m[1..], w)
  }

  /** Storing a value takes the weight of the old one away and adds its own. */
  lemma {:induction false} WeightPut<K(!new), V>(less: (K, K) -> bool, m: Pairs<K, V>, k: K, v: V, w: V -> int)
    requires IsOrder(less) && Sorted(less, m)
    ensures Weight(Put(less, m, k, v), w)
         == Weight(m, w) + w(v) - (match Get(m, k) case None => 0 case Some(x) => w(x))
    decreases |m|
  {
    if m != [] {
      var r := Put(less, m, k, v);
      if m[0].0 == k {
        assert r[1..] == m[1..];
      } else if less(k, m[0].0) {
        assert r[1..] == m;
        if Get(m, k).Some? { GetElement(m, k); }
      } else {
        assert r[1..] == Put(less, m[1..], k, v);
        WeightPut(less, m[1..], k, v, w);
      }
    }
  }

  // ---------- the orders of the keys ----------

  predicate IntLess(a: int, b: int) { a < b }

  lemma IntLessIsOrder()
    ensures IsOrder(IntLess)
  {}

  /** `operator<` of strings. */
  predicate StringLess(a: string, b: string) {
    b != "" && (a == "" || a[0] < b[0] || (a[0] == b[0] && StringLess(a[1..], b[1..])))
  }

  lemma {:induction false} StringLessTotal(a: string, b: string)
    ensures StringLess(a, b) || StringLess(b, a) || a == b
    ensures !StringLess(a, a)
    ensures !(StringLess(a, b) && StringLess(b, a))
  {
    if a != "" { StringLessTotal(a[1..], a[1..]); }
    if a != "" && b != "" {
      StringLessTotal(a[1..], b[1..]);
      assert a == [a[0]] + a[1..] && b == [b[0]] + b[1..];
    }
  }

  lemma {:induction false} StringLessTransitive(a: string, b: string, c: string)
    requires StringLess(a, b) && StringLess(b, c)
    ensures StringLess(a, c)
  {
    if a != "" && a[0] == b[0] == c[0] { StringLessTransitive(a[1..], b[1..], c[1..]); }
  }

  lemma StringLessIsOrder()
    ensures IsOrder(StringLess)
  {
    forall a, b ensures !StringLess(a, a) && (StringLess(a, b) || StringLess(b, a) || a == b) {
      StringLessTotal(a, b);
    }
    forall a, b, c | StringLess(a, b) && StringLess(b, c) ensures StringLess(a, c) {
      StringLessTransitive(a, b, c);
    }
  }

  /** At position `k` the first text ends or has the smaller character, and in front of it they agree. */
  ghost predicate DiffersAt(a: string, b: string, k: nat) {
    k <= |a| && k < |b| && a[..k] == b[..k] && (k == |a| || a[k] < b[k])
  }

  /** Texts are compared as in a dictionary: by the first character in which they differ, and a prefix is less. */
  lemma {:induction false} DictionaryOrder(a: string, b: string)
    ensures StringLess(a, b) <==> exists k: nat :: DiffersAt(a, b, k)
  {
    if a != "" && b != "" && a[0] == b[0] {
      DictionaryOrder(a[1..], b[1..]);
      forall k: nat | DiffersAt(a[1..], b[1..], k) ensures DiffersAt(a, b, k + 1) {
        assert a[..k + 1] == [a[0]] + a[1..][..k] && b[..k + 1] == [b[0]] + b[1..][..k];
      }
      forall k: nat | DiffersAt(a, b, k) && k > 0 ensures DiffersAt(a[1..], b[1..], k - 1) {
        assert a[1..][..k - 1] == a[..k][1..] && b[1..][..k - 1] == b[..k][1..];
      }
      assert !DiffersAt(a, b, 0);
      if k: nat :| DiffersAt(a, b, k) { assert DiffersAt(a[1..], b[1..], k - 1); }
      if k: nat :| DiffersAt(a[1..], b[1..], k) { assert DiffersAt(a, b, k + 1); }
    } else {
      forall k: nat | DiffersAt(a, b, k) ensures k == 0 {
        if k > 0 { SameFirst(a, b, k); }
      }
      assert DiffersAt(a, b, 0) <==> b != "" && (a == "" || a[0] < b[0]);
    }
  }

  lemma SameFirst(a: string, b: string, k: nat)
    requires DiffersAt(a, b, k) && k > 0
    ensures a != "" && b != "" && a[0] == b[0]
  {
    assert a[..k][0] == a[0] && b[..k][0] == b[0];
  }

  /** Numbers are compared as numbers: the loops over a map of numbers go upwards. */
  lemma NumbersGoUp<V>(m: Pairs<int, V>)
    ensures Sorted(IntLess, m) <==> forall i, j :: 0 <= i < j < |m| ==> m[i].0 < m[j].0
  {}
}
