/** A dictionary whose keys remember the order in which they were first
    added. It stands for a .NET `Dictionary<K, V>` whose enumeration order
    the modelled code depends on: overwriting a key keeps its place, adding a
    new key appends it, removing a key drops it from the order. */
module OrderedDict {
  import opened Seqs

  datatype RawDict<K(==), V> = RawDict(keys: seq<K>, vals: map<K, V>)

  /** No element occurs twice. Stated recursively so that it unfolds only
      where a proof asks for it. */
  predicate Distinct<K(==)>(s: seq<K>) {
    |s| == 0 || (s[0] !in s[1..] && Distinct(s[1..]))
  }

  lemma {:induction false} DistinctAppend<K>(s: seq<K>, k: K)
    requires Distinct(s) && k !in s
    ensures Distinct(s + [k])
  {
    if |s| > 0 {
      assert (s + [k])[1..] == s[1..] + [k];
      DistinctAppend(s[1..], k);
    }
  }

  lemma {:induction false} DistinctIndices<K>(s: seq<K>, i: nat, j: nat)
    requires Distinct(s) && i < j < |s|
    ensures s[i] != s[j]
  {
    if i > 0 {
      DistinctIndices(s[1..], i - 1, j - 1);
    } else {
      assert s[j] == s[1..][j - 1];
    }
  }

  /** In a duplicate-free sequence an element does not occur before its own
      position. */
  lemma DistinctNotInPrefix<K>(s: seq<K>, n: nat)
    requires Distinct(s) && 0 < n <= |s|
    ensures s[n - 1] !in s[..n - 1]
  {
    forall i | 0 <= i < n - 1
      ensures s[i] != s[n - 1]
    {
      DistinctIndices(s, i, n - 1);
    }
    assert forall i | 0 <= i < n - 1 :: s[..n - 1][i] == s[i];
  }

  /** `keys` enumerates exactly the keys of `vals`, each once. */
  predicate WellFormed<K(==), V>(d: RawDict<K, V>) {
    && Distinct(d.keys)
    && (forall k | k in d.keys :: k in d.vals)
    && (forall k | k in d.vals :: k in d.keys)
  }

  type Dict<K(==), V> = d: RawDict<K, V> | WellFormed(d) witness RawDict([], map[])

  function Empty<K(==), V>(): (d: Dict<K, V>)
    ensures d.keys == [] && d.vals == map[]
  {
    RawDict([], map[])
  }

  /** The elements of `s` that are not in `ks`, in their original order. */
  function Without<K(==)>(s: seq<K>, ks: set<K>): (r: seq<K>)
    ensures forall x | x in r :: x in s && x !in ks
    ensures forall x | x in s && x !in ks :: x in r
    ensures Distinct(s) ==> Distinct(r)
    ensures |r| <= |s|
  {
    if |s| == 0 then []
    else if s[0] in ks then Without(s[1..], ks)
    else
      var rest := Without(s[1..], ks);
      assert ([s[0]] + rest)[1..] == rest;
      [s[0]] + rest
  }

  /** Removing no keys keeps the sequence. */
  lemma {:induction false} WithoutNothing<K>(s: seq<K>)
    ensures Without(s, {}) == s
  {
    if |s| > 0 {
      WithoutNothing(s[1..]);
    }
  }

  /** The dictionary indexer `d[k] = v`: an existing key keeps its place in
      the enumeration order, a new key goes last. */
  function Put<K(==), V>(d: Dict<K, V>, k: K, v: V): (r: Dict<K, V>)
    ensures r.vals == d.vals[k := v]
    ensures k in d.vals ==> r.keys == d.keys
    ensures k !in d.vals ==> r.keys == d.keys + [k]
  {
    if k in d.vals then RawDict(d.keys, d.vals[k := v])
    else
      DistinctAppend(d.keys, k);
      RawDict(d.keys + [k], d.vals[k := v])
  }

  /** The enumeration order after a put, stated on the order alone. */
  lemma PutKeys<K, V>(d: Dict<K, V>, k: K, v: V)
    ensures Put(d, k, v).keys == if k in d.keys then d.keys else d.keys + [k]
  {
    assert k in d.vals <==> k in d.keys;
  }

  /** `Dictionary.Remove` applied to every key of `ks`; absent keys are ignored. */
  function RemoveAll<K(==), V>(d: Dict<K, V>, ks: set<K>): (r: Dict<K, V>)
    ensures r.vals == d.vals - ks
    ensures r.keys == Without(d.keys, ks)
  {
    RawDict(Without(d.keys, ks), d.vals - ks)
  }

  function Remove<K(==), V>(d: Dict<K, V>, k: K): (r: Dict<K, V>)
    ensures r.vals == d.vals - {k}
    ensures r.keys == Without(d.keys, {k})
  {
    RemoveAll(d, {k})
  }

  /** The values in enumeration order (the `Values` collection). */
  function ValuesInOrder<K(==), V>(d: Dict<K, V>): (vs: seq<V>)
    ensures |vs| == |d.keys|
    ensures forall i | 0 <= i < |vs| :: vs[i] == d.vals[d.keys[i]]
  {
    seq(|d.keys|, i requires 0 <= i < |d.keys| => d.vals[d.keys[i]])
  }

  /** The dictionary built from an empty one by `d[ks[i]] = vs[i]` for the
      first `n` positions in order. */
  function PutEach<K(==), V>(ks: seq<K>, vs: seq<V>, n: nat): (r: Dict<K, V>)
    requires |ks| == |vs| && n <= |ks|
    ensures |r.keys| <= n
  {
    if n == 0 then Empty() else Put(PutEach(ks, vs, n - 1), ks[n - 1], vs[n - 1])
  }

  /** The enumeration order after putting the first `n` keys: each key
      goes last the first time it is put. */
  function KeyOrder<K(==)>(ks: seq<K>, n: nat): (r: seq<K>)
    requires n <= |ks|
  {
    if n == 0 then []
    else
      var prev := KeyOrder(ks, n - 1);
      if ks[n - 1] in prev then prev else prev + [ks[n - 1]]
  }

  /** Which keys get in, and in which order, does not depend on the values. */
  lemma {:induction false} PutEachKeyOrder<K, V>(ks: seq<K>, vs: seq<V>, n: nat)
    requires |ks| == |vs| && n <= |ks|
    ensures PutEach(ks, vs, n).keys == KeyOrder(ks, n)
  {
    if n > 0 {
      PutEachKeyOrder(ks, vs, n - 1);
      PutKeys(PutEach(ks, vs, n - 1), ks[n - 1], vs[n - 1]);
    }
  }

  lemma PutEachKeys<K, V, W>(ks: seq<K>, vs: seq<V>, ws: seq<W>, n: nat)
    requires |ks| == |vs| == |ws| && n <= |ks|
    ensures PutEach(ks, vs, n).keys == PutEach(ks, ws, n).keys
  {
    PutEachKeyOrder(ks, vs, n);
    PutEachKeyOrder(ks, ws, n);
  }

  /** Exactly the first `n` keys get in. */
  lemma {:induction false} PutEachHas<K, V>(ks: seq<K>, vs: seq<V>, n: nat, k: K)
    requires |ks| == |vs| && n <= |ks|
    ensures k in PutEach(ks, vs, n).vals <==> k in ks[..n]
  {
    if n > 0 {
      PutEachHas(ks, vs, n - 1, k);
      PrefixStep(ks, n);
    }
  }

  /** A key holds the value put with its last occurrence. */
  lemma {:induction false} PutEachLastWins<K, V>(ks: seq<K>, vs: seq<V>, n: nat, i: nat)
    requires |ks| == |vs| && i < n <= |ks|
    requires forall j | i < j < n :: ks[j] != ks[i]
    ensures ks[i] in PutEach(ks, vs, n).vals && PutEach(ks, vs, n).vals[ks[i]] == vs[i]
  {
    if i < n - 1 {
      PutEachLastWins(ks, vs, n - 1, i);
    }
  }

  /** Every value in the result is one of the values put. */
  lemma {:induction false} PutEachValues<K, V>(ks: seq<K>, vs: seq<V>, n: nat, k: K)
    requires |ks| == |vs| && n <= |ks|
    requires k in PutEach(ks, vs, n).vals
    ensures exists i | 0 <= i < n :: ks[i] == k && vs[i] == PutEach(ks, vs, n).vals[k]
  {
    if k != ks[n - 1] {
      PutEachValues(ks, vs, n - 1, k);
      var i :| 0 <= i < n - 1 && ks[i] == k && vs[i] == PutEach(ks, vs, n - 1).vals[k];
      assert 0 <= i < n && ks[i] == k && vs[i] == PutEach(ks, vs, n).vals[k];
    }
  }

  /** Keys that are all different go in in the order they are put. */
  lemma {:induction false} KeyOrderOfDistinct<K>(ks: seq<K>, n: nat)
    requires Distinct(ks) && n <= |ks|
    ensures KeyOrder(ks, n) == ks[..n]
  {
    if n > 0 {
      KeyOrderOfDistinct(ks, n - 1);
      DistinctNotInPrefix(ks, n);
      PrefixStep(ks, n);
    }
  }

  /** Putting a dictionary's own entries back, in its enumeration order,
      into an empty dictionary rebuilds it. */
  lemma PutEachRebuilds<K, V>(d: Dict<K, V>, vs: seq<V>)
    requires |vs| == |d.keys|
    requires forall i | 0 <= i < |vs| :: vs[i] == d.vals[d.keys[i]]
    ensures PutEach(d.keys, vs, |vs|) == d
  {
    var r := PutEach(d.keys, vs, |vs|);
    PutEachKeyOrder(d.keys, vs, |vs|);
    KeyOrderOfDistinct(d.keys, |vs|);
    assert d.keys[..|vs|] == d.keys;
    forall k | k in r.vals
      ensures r.vals[k] == d.vals[k]
    {
      PutEachValues(d.keys, vs, |vs|, k);
    }
    Extensionality(r, d);
  }

  /** Two dictionaries with the same enumeration and the same values are equal. */
  lemma Extensionality<K, V>(a: Dict<K, V>, b: Dict<K, V>)
    requires a.keys == b.keys
    requires forall k | k in a.vals :: a.vals[k] == b.vals[k]
    ensures a == b
  {
    assert a.vals.Keys == b.vals.Keys;
    assert a.vals == b.vals;
  }
}
