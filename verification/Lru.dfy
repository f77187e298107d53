/**
 What an LRU map of src/main/utils/lrumap.c stands for: its bindings in order of
 recency, the most recently touched first, with pairwise distinct keys.
 */
module Lru {
  import opened Collections

  datatype Entry<K, V> = Entry(key: K, value: V)

  type Recency<K, V> = seq<Entry<K, V>>

  ghost predicate DistinctKeys<K, V>(c: Recency<K, V>) {
    forall i, j :: 0 <= i < j < |c| ==> c[i].key != c[j].key
  }

  /** The position of a key, or the length if the key is absent. */
  function Find<K(==), V>(c: Recency<K, V>, key: K): (i: nat)
    ensures i <= |c|
    ensures i < |c| ==> c[i].key == key
    ensures forall j :: 0 <= j < i ==> c[j].key != key
  {
    if c == [] then 0 else if c[0].key == key then 0 else 1 + Find(c[1..], key)
  }

  predicate Has<K(==), V>(c: Recency<K, V>, key: K) {
    Find(c, key) < |c|
  }

  /** lrumap_get: touching a key makes it the newest. */
  function Touch<K(==), V>(c: Recency<K, V>, key: K): (r: Recency<K, V>)
    requires Has(c, key)
    ensures |r| == |c| && r[0] == c[Find(c, key)]
    ensures forall j :: 1 <= j < |r| ==> r[j] == if j <= Find(c, key) then c[j - 1] else c[j]
  {
    [c[Find(c, key)]] + RemoveAt(c, Find(c, key))
  }

  /** lrumap_put: a new binding is the newest. */
  function Put<K, V>(c: Recency<K, V>, key: K, value: V): Recency<K, V> {
    [Entry(key, value)] + c
  }

  /** lrumap_remove */
  function Remove<K(==), V>(c: Recency<K, V>, key: K): (r: Recency<K, V>)
    requires Has(c, key)
    ensures |r| == |c| - 1
    ensures forall j :: 0 <= j < |r| ==> r[j] == if j < Find(c, key) then c[j] else c[j + 1]
  {
    RemoveAt(c, Find(c, key))
  }

  /** lrumap_peek: the eldest binding. */
  function Eldest<K, V>(c: Recency<K, V>): Entry<K, V>
    requires c != []
  {
    c[|c| - 1]
  }

  /** lrumap_make_eldest: the key becomes the next to be evicted. */
  function MakeEldest<K(==), V>(c: Recency<K, V>, key: K): (r: Recency<K, V>)
    requires Has(c, key)
    ensures |r| == |c| && r[|r| - 1] == c[Find(c, key)]
    ensures forall j :: 0 <= j < |r| - 1 ==> r[j] == if j < Find(c, key) then c[j] else c[j + 1]
  {
    RemoveAt(c, Find(c, key)) + [c[Find(c, key)]]
  }

  lemma FindAt<K, V>(c: Recency<K, V>, i: nat)
    requires DistinctKeys(c) && i < |c|
    ensures Find(c, c[i].key) == i
  {
  }

  lemma EldestIsPresent<K, V>(c: Recency<K, V>)
    requires c != []
    ensures Has(c, Eldest(c).key)
  {
  }

  /** Removing the eldest binding takes off the end. */
  lemma RemoveEldest<K, V>(c: Recency<K, V>)
    requires DistinctKeys(c) && c != []
    ensures Has(c, Eldest(c).key) && Remove(c, Eldest(c).key) == c[..|c| - 1]
  {
    FindAt(c, |c| - 1);
  }

  lemma TouchKeepsDistinct<K, V>(c: Recency<K, V>, key: K)
    requires DistinctKeys(c) && Has(c, key)
    ensures DistinctKeys(Touch(c, key))
  {
    hide Find;
  }

  lemma RemoveForgets<K, V>(c: Recency<K, V>, key: K)
    requires DistinctKeys(c) && Has(c, key)
    ensures DistinctKeys(Remove(c, key)) && !Has(Remove(c, key), key)
  {
  }

  lemma PutKeepsDistinct<K, V>(c: Recency<K, V>, key: K, value: V)
    requires DistinctKeys(c) && !Has(c, key)
    ensures DistinctKeys(Put(c, key, value)) && Find(Put(c, key, value), key) == 0
  {
  }
}
