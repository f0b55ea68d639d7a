/** The .NET `Dictionary<TKey, TValue>` as the original program uses it: only
    insertions and indexer assignments, never removals. Under that usage the
    dictionary enumerates its entries in first-insertion order, and assigning
    to an existing key replaces the value in place. It is modelled as an
    association list whose keys are pairwise distinct. */
module Dictionaries {
  import opened Wrappers

  datatype Entry<K, V> = Entry(key: K, value: V)

  type Dict<K, V> = seq<Entry<K, V>>

  /** The keys in enumeration order. */
  function Keys<K, V>(d: Dict<K, V>): (ks: seq<K>)
    ensures |ks| == |d|
    ensures forall i :: 0 <= i < |d| ==> ks[i] == d[i].key
    decreases |d|
  {
    if |d| == 0 then [] else [d[0].key] + Keys(d[1..])
  }

  /** No key is stored twice. */
  ghost predicate DistinctKeys<K, V>(d: Dict<K, V>)
  {
    forall i, j :: 0 <= i < j < |d| ==> d[i].key != d[j].key
  }

  /** The indexer read `d[k]` as a lookup that may miss. */
  function Get<K(==), V>(d: Dict<K, V>, k: K): Option<V>
    decreases |d|
  {
    if |d| == 0 then None
    else if d[0].key == k then Some(d[0].value)
    else Get(d[1..], k)
  }

  /** A lookup misses exactly when the key is absent. */
  lemma {:induction false} GetMissesAbsentKey<K, V>(d: Dict<K, V>, k: K)
    ensures Get(d, k).None? <==> k !in Keys(d)
    decreases |d|
  {
    if |d| > 0 && d[0].key != k {
      GetMissesAbsentKey(d[1..], k);
      assert Keys(d) == [d[0].key] + Keys(d[1..]);
    }
  }

  /** The indexer assignment `d[k] = v`: a new key is appended, an existing
      key keeps its position and takes the new value. */
  function Put<K(==), V>(d: Dict<K, V>, k: K, v: V): (r: Dict<K, V>)
    ensures |d| <= |r| <= |d| + 1
    ensures Get(r, k) == Some(v)
    decreases |d|
  {
    if |d| == 0 then [Entry(k, v)]
    else if d[0].key == k then
      var r := [Entry(k, v)] + d[1..];
      assert r[1..] == d[1..];
      r
    else
      var rest := Put(d[1..], k, v);
      var r := [d[0]] + rest;
      assert r[1..] == rest;
      r
  }

  /** Assignment keeps the existing keys in place and appends the key when
      it is new. */
  lemma {:induction false} PutKeys<K, V>(d: Dict<K, V>, k: K, v: V)
    ensures Keys(Put(d, k, v)) == if k in Keys(d) then Keys(d) else Keys(d) + [k]
    decreases |d|
  {
    if |d| > 0 {
      var r := Put(d, k, v);
      assert Keys(d) == [d[0].key] + Keys(d[1..]);
      if d[0].key == k {
        assert r[1..] == d[1..];
        assert Keys(r) == [k] + Keys(d[1..]);
      } else {
        PutKeys(d[1..], k, v);
        assert r[1..] == Put(d[1..], k, v);
        assert Keys(r) == [d[0].key] + Keys(Put(d[1..], k, v));
        assert k in Keys(d) <==> k in Keys(d[1..]);
      }
    }
  }

  /** After `d[k] = v`, reading `k` gives `v` and reading any other key gives
      what it gave before. */
  lemma {:induction false} PutThenGet<K, V>(d: Dict<K, V>, k: K, v: V, k': K)
    ensures Get(Put(d, k, v), k') == if k' == k then Some(v) else Get(d, k')
    decreases |d|
  {
    if |d| > 0 && d[0].key != k {
      PutThenGet(d[1..], k, v, k');
      assert Put(d, k, v)[1..] == Put(d[1..], k, v);
    } else if |d| > 0 {
      assert Put(d, k, v)[1..] == d[1..];
    }
  }

  /** Assignment keeps the keys pairwise distinct. */
  lemma PutKeepsKeysDistinct<K(!new), V>(d: Dict<K, V>, k: K, v: V)
    requires DistinctKeys(d)
    ensures DistinctKeys(Put(d, k, v))
  {
    var r := Put(d, k, v);
    var ks := Keys(d);
    PutKeys(d, k, v);
    forall i, j | 0 <= i < j < |r|
      ensures r[i].key != r[j].key
    {
      assert r[i].key == Keys(r)[i] && r[j].key == Keys(r)[j];
      if j < |d| {
        assert Keys(r)[i] == ks[i] && Keys(r)[j] == ks[j];
      } else {
        assert Keys(r)[i] == ks[i] && ks[i] in ks;
      }
    }
  }

  /** The elements of `s` without repetitions, each at its first occurrence. */
  function Dedup<T(==)>(s: seq<T>): seq<T>
    decreases |s|
  {
    if |s| == 0 then []
    else
      var prefix := Dedup(s[..|s| - 1]);
      if s[|s| - 1] in s[..|s| - 1] then prefix else prefix + [s[|s| - 1]]
  }

  /** Deduplication keeps every element and repeats none. */
  lemma {:induction false} DedupSpec<T>(s: seq<T>)
    ensures forall x :: x in Dedup(s) <==> x in s
    ensures forall i, j :: 0 <= i < j < |Dedup(s)| ==> Dedup(s)[i] != Dedup(s)[j]
    decreases |s|
  {
    if |s| > 0 {
      var init := s[..|s| - 1];
      DedupSpec(init);
      assert s == init + [s[|s| - 1]];
    }
  }

  /** Appending an element extends the deduplicated sequence exactly when the
      element is new. */
  lemma DedupSnoc<T>(s: seq<T>, x: T)
    ensures Dedup(s + [x]) == if x in s then Dedup(s) else Dedup(s) + [x]
  {
  }

  /** If a dictionary's keys are the first occurrences of `ks`, assigning
      `k` leaves its keys the first occurrences of `ks + [k]`. */
  lemma PutKeepsFirstOccurrenceOrder<K, V>(d: Dict<K, V>, ks: seq<K>, k: K, v: V)
    requires Keys(d) == Dedup(ks)
    ensures Keys(Put(d, k, v)) == Dedup(ks + [k])
  {
    PutKeys(d, k, v);
    DedupSnoc(ks, k);
    DedupSpec(ks);
  }

  /** Assigning the pairs of `ps` one after another, starting from an empty
      dictionary. */
  function PutAll<K(==), V>(ps: seq<Entry<K, V>>): Dict<K, V>
    decreases |ps|
  {
    if |ps| == 0 then []
    else
      var last := ps[|ps| - 1];
      Put(PutAll(ps[..|ps| - 1]), last.key, last.value)
  }

  /** Appending an entry appends its key. */
  lemma KeysSnoc<K, V>(d: Dict<K, V>, e: Entry<K, V>)
    ensures Keys(d + [e]) == Keys(d) + [e.key]
  {
    var ks := Keys(d + [e]);
    forall i | 0 <= i < |ks|
      ensures ks[i] == (Keys(d) + [e.key])[i]
    {
      if i < |d| {
        assert (d + [e])[i] == d[i];
      }
    }
  }

  /** The keys end up in the order of their first assignment. */
  lemma {:induction false} PutAllKeys<K, V>(ps: seq<Entry<K, V>>)
    ensures Keys(PutAll(ps)) == Dedup(Keys(ps))
    decreases |ps|
  {
    if |ps| > 0 {
      var init := ps[..|ps| - 1];
      var last := ps[|ps| - 1];
      var prev := PutAll(init);
      assert PutAll(ps) == Put(prev, last.key, last.value);
      PutAllKeys(init);
      assert ps == init + [last];
      KeysSnoc(init, last);
      PutKeepsFirstOccurrenceOrder(prev, Keys(init), last.key, last.value);
    }
  }

  /** A key holds the value of its last assignment. */
  lemma {:induction false} PutAllLastWins<K, V>(ps: seq<Entry<K, V>>, i: int)
    requires 0 <= i < |ps|
    requires forall j :: i < j < |ps| ==> ps[j].key != ps[i].key
    ensures Get(PutAll(ps), ps[i].key) == Some(ps[i].value)
    decreases |ps|
  {
    var n := |ps| - 1;
    var prev := PutAll(ps[..n]);
    assert PutAll(ps) == Put(prev, ps[n].key, ps[n].value);
    PutThenGet(prev, ps[n].key, ps[n].value, ps[i].key);
    if i < n {
      assert ps[..n][i] == ps[i];
      PutAllLastWins(ps[..n], i);
      assert ps[n].key != ps[i].key;
    }
  }

  /** A lookup misses exactly when the key was never assigned. */
  lemma PutAllMisses<K, V>(ps: seq<Entry<K, V>>, k: K)
    ensures Get(PutAll(ps), k).None? <==> k !in Keys(ps)
  {
    GetMissesAbsentKey(PutAll(ps), k);
    PutAllKeys(ps);
    DedupSpec(Keys(ps));
  }
}
