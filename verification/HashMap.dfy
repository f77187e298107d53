/**
 src/main/utils/hashmap.c: a hash table whose entries live in one array, found by
 probing, and are chained by bucket; it grows by rehashing. Keys are taken up to
 equal_func, which the hash respects.
 */
module HashMap {
  import opened Collections
  import opened Wrappers
  import opened HashChains

  /**
   The number of buckets for a capacity, (size_t) (capacity * factor): at least
   one and at most the capacity, and it at least doubles with the capacity.
   */
  ghost predicate Sizes(bucketsFor: nat -> nat, capacity: nat) {
    forall c: nat :: c >= capacity ==> 1 <= bucketsFor(c) <= c && bucketsFor(2 * c) >= 2 * bucketsFor(c)
  }

  function ThreeQuartersOf(c: nat): nat {
    3 * c / 4
  }

  /** hashmap_init1: the factor 0.75 will do exactly from capacity 2 on. */
  lemma ThreeQuarters(capacity: nat)
    ensures Sizes(ThreeQuartersOf, capacity) <==> capacity >= 2
  {
    assert ThreeQuartersOf(1) == 0;
  }

  /** Every used entry is the one of its key. */
  ghost predicate Indexed<K, V>(es: seq<Entry<K, V>>, at: map<K, nat>) {
    && (forall k :: k in at ==> at[k] < |es| && es[at[k]].Used? && es[at[k]].key == k)
    && (forall e :: 0 <= e < |es| && es[e].Used? ==> es[e].key in at && at[es[e].key] == e)
  }

  ghost function Values<K, V>(es: seq<Entry<K, V>>, at: map<K, nat>): map<K, V>
    requires Indexed(es, at)
  {
    map k | k in at :: es[at[k]].value
  }

  // ----- There is room.

  ghost function KeysBelow<K, V>(es: seq<Entry<K, V>>, n: nat): set<K>
    requires n <= |es| && forall e :: 0 <= e < n ==> es[e].Used?
  {
    if n == 0 then {} else KeysBelow(es, n - 1) + {es[n - 1].key}
  }

  lemma {:induction false} KeysBelowSize<K, V>(es: seq<Entry<K, V>>, at: map<K, nat>, n: nat)
    requires Indexed(es, at) && n <= |es| && forall e :: 0 <= e < n ==> es[e].Used?
    ensures |KeysBelow(es, n)| == n && KeysBelow(es, n) <= at.Keys
    ensures forall k :: k in KeysBelow(es, n) ==> at[k] < n
  {
    if n > 0 {
      KeysBelowSize(es, at, n - 1);
    }
  }

  /** The probing loop finds a free entry: fewer keys than entries leave one. */
  lemma FreeEntry<K, V>(es: seq<Entry<K, V>>, at: map<K, nat>) returns (e: nat)
    requires Indexed(es, at) && |at| < |es|
    ensures e < |es| && es[e].Free?
  {
    assert |at.Keys| == |at|;
    if forall e :: 0 <= e < |es| ==> es[e].Used? {
      KeysBelowSize(es, at, |es|);
      SubsetSize(KeysBelow(es, |es|), at.Keys);
    }
    e :| e < |es| && es[e].Free?;
  }

  /** hashmap_put_new's search for a free entry. */
  method Probe<K, V>(es: seq<Entry<K, V>>, start: nat, ghost at: map<K, nat>) returns (i: nat)
    requires Indexed(es, at) && |at| < |es| && start < |es|
    ensures i < |es| && es[i].Free?
  {
    hide Indexed;
    ghost var free := FreeEntry(es, at);
    i := start;
    while es[i].Used?
      invariant i < |es|
      decreases if i <= free then free - i else free + |es| - i
    {
      i := if i + 1 == |es| then 0 else i + 1;
    }
  }

  // ----- The operations on values.

  lemma PrependKeeps<K, V>(es: seq<Entry<K, V>>, head: int, e: nat, key: K, value: V, x: nat)
    requires e < |es| && es[e].Free? && Points(es, head) && x < |es|
    ensures x == e ==> Prepend(es, head, e, key, value)[x] == Used(key, value, NULL, head)
    ensures x != e ==> (Prepend(es, head, e, key, value)[x].Used? <==> es[x].Used?)
    ensures x != e && es[x].Used? ==> Prepend(es, head, e, key, value)[x].key == es[x].key
                                      && Prepend(es, head, e, key, value)[x].value == es[x].value
  {
  }

  /** Except for e, the entries have the same keys and values. */
  ghost predicate SameBut<K, V>(es: seq<Entry<K, V>>, es': seq<Entry<K, V>>, e: nat) {
    |es'| == |es| && forall x :: 0 <= x < |es| && x != e ==>
      (es'[x].Used? <==> es[x].Used?) && (es[x].Used? ==> es'[x].key == es[x].key && es'[x].value == es[x].value)
  }

  lemma AddIndexed<K, V>(es: seq<Entry<K, V>>, es': seq<Entry<K, V>>, at: map<K, nat>, e: nat)
    requires Indexed(es, at) && SameBut(es, es', e) && e < |es| && es[e].Free? && es'[e].Used? && es'[e].key !in at
    ensures Indexed(es', at[es'[e].key := e])
  {
  }

  lemma AddValues<K, V>(es: seq<Entry<K, V>>, es': seq<Entry<K, V>>, at: map<K, nat>, e: nat)
    requires Indexed(es, at) && SameBut(es, es', e) && e < |es| && es[e].Free? && es'[e].Used? && es'[e].key !in at
    requires Indexed(es', at[es'[e].key := e])
    ensures Values(es', at[es'[e].key := e]) == Values(es, at)[es'[e].key := es'[e].value]
  {
    var key := es'[e].key;
    forall k | k in at ensures at[key := e][k] == at[k] != e && es'[at[k]].value == es[at[k]].value {
    }
  }

  lemma OneMore<K, V>(m: map<K, V>, key: K, v: V)
    requires key !in m
    ensures |m[key := v]| == |m| + 1
  {
    assert m[key := v].Keys == m.Keys + {key};
  }

  lemma PrependIndexed<K, V>(es: seq<Entry<K, V>>, at: map<K, nat>, head: int, e: nat, key: K, value: V)
    requires Indexed(es, at) && e < |es| && es[e].Free? && Points(es, head) && key !in at
    ensures var es' := Prepend(es, head, e, key, value);
            && Indexed(es', at[key := e])
            && Values(es', at[key := e]) == Values(es, at)[key := value]
            && |at[key := e]| == |at| + 1
  {
    hide Prepend, Indexed, Values;
    var es' := Prepend(es, head, e, key, value);
    forall x: nat | x < |es|
      ensures x == e ==> es'[x] == Used(key, value, NULL, head)
      ensures x != e ==> (es'[x].Used? <==> es[x].Used?)
      ensures x != e && es[x].Used? ==> es'[x].key == es[x].key && es'[x].value == es[x].value
    {
      PrependKeeps(es, head, e, key, value, x);
    }
    AddIndexed(es, es', at, e);
    AddValues(es, es', at, e);
    OneMore(at, key, e);
  }

  lemma DropIndexed<K, V>(es: seq<Entry<K, V>>, es': seq<Entry<K, V>>, at: map<K, nat>, e: nat)
    requires Indexed(es, at) && SameBut(es, es', e) && e < |es| && es[e].Used? && es'[e].Free?
    ensures Indexed(es', at - {es[e].key}) && Values(es', at - {es[e].key}) == Values(es, at) - {es[e].key}
  {
  }

  lemma OneLess<K, V>(m: map<K, V>, key: K)
    requires key in m
    ensures |m - {key}| + 1 == |m|
  {
    assert (m - {key}).Keys + {key} == m.Keys;
  }

  lemma UnlinkIndexed<K, V>(es: seq<Entry<K, V>>, at: map<K, nat>, e: nat)
    requires Indexed(es, at) && e < |es| && es[e].Used? && Points(es, es[e].prev) && Points(es, es[e].next)
    ensures var key := es[e].key;
            && Indexed(Unlink(es, e), at - {key})
            && Values(Unlink(es, e), at - {key}) == Values(es, at) - {key}
            && key in at && |at - {key}| + 1 == |at|
  {
    hide Unlink, Values;
    var es' := Unlink(es, e);
    forall x: nat | x < |es|
      ensures x == e ==> es'[x].Free?
      ensures x != e ==> (es'[x].Used? <==> es[x].Used?)
      ensures x != e && es[x].Used? ==> es'[x].key == es[x].key && es'[x].value == es[x].value
    {
      UnlinkKeeps(es, e, x);
    }
    DropIndexed(es, es', at, e);
    OneLess(at, es[e].key);
  }

  /** Replacing the value of an entry. */
  lemma ReplaceKeeps<K, V>(es: seq<Entry<K, V>>, heads: seq<int>, hash: K -> nat, chains: seq<seq<nat>>,
                           at: map<K, nat>, e: nat, value: V)
    requires Chained(es, heads, hash, chains) && Indexed(es, at) && e < |es| && es[e].Used?
    ensures var es' := es[e := es[e].(value := value)];
            && Chained(es', heads, hash, chains) && Indexed(es', at)
            && Values(es', at) == Values(es, at)[es[e].key := value]
  {
    hide Bucket;
    var es' := es[e := es[e].(value := value)];
    forall b | 0 <= b < |chains| ensures Linked(es', heads[b], chains[b]) {
      assert Linked(es, heads[b], chains[b]);
      forall j | 0 <= j < |chains[b]| ensures Link(es', chains[b], j) {
        assert Link(es, chains[b], j);
      }
    }
    forall b, x: nat | 0 <= b < |chains| ensures x in chains[b] <==> Belongs(es', hash, |chains|, b, x) {
      assert x in chains[b] <==> Belongs(es, hash, |chains|, b, x);
    }
  }

  /** The entry of a key is in the chain of its bucket. */
  lemma ChainHolds<K, V>(es: seq<Entry<K, V>>, heads: seq<int>, hash: K -> nat, chains: seq<seq<nat>>, at: map<K, nat>,
                         key: K)
    requires Chained(es, heads, hash, chains) && Indexed(es, at) && key in at
    ensures at[key] in chains[Bucket(hash(key), |chains|)]
  {
    hide Linked, Bucket;
    var b := Bucket(hash(key), |chains|);
    assert Belongs(es, hash, |chains|, b, at[key]);
  }

  lemma ValueAt<K, V>(es: seq<Entry<K, V>>, at: map<K, nat>, key: K)
    requires Indexed(es, at) && key in at
    ensures at[key] < |es| && es[at[key]].Used? && es[at[key]].key == key
    ensures key in Values(es, at) && Values(es, at)[key] == es[at[key]].value
  {
  }

  /** The loop that looks for a key in its chain. */
  method Search<K(==), V>(es: seq<Entry<K, V>>, heads: seq<int>, hash: K -> nat, key: K, ghost chains: seq<seq<nat>>,
                          ghost at: map<K, nat>)
      returns (e: int, ghost j: nat)
    requires Chained(es, heads, hash, chains) && Indexed(es, at)
    ensures e == NULL <==> key !in at
    ensures e != NULL ==> && e == at[key] && 0 <= e < |es| && es[e].Used?
                          && j < |chains[Bucket(hash(key), |chains|)]| && chains[Bucket(hash(key), |chains|)][j] == e
  {
    hide Bucket, Belongs;
    var b := Bucket(hash(key), |heads|);
    ghost var c := chains[b];
    assert Linked(es, heads[b], c);
    e := heads[b];
    j := 0;
    while e != NULL
      invariant j <= |c| && e == At(c, j)
      invariant forall i :: 0 <= i < j ==> c[i] < |es| && es[c[i]].Used? && es[c[i]].key != key
      decreases |c| - j
    {
      assert Link(es, c, j);
      if es[e].key == key {
        return;
      }
      e := es[e].next;
      j := j + 1;
    }
    if key in at {
      ChainHolds(es, heads, hash, chains, at, key);
    }
  }

  lemma SizesAt(bucketsFor: nat -> nat, capacity: nat)
    requires Sizes(bucketsFor, capacity)
    ensures 1 <= bucketsFor(capacity) <= capacity
  {
  }

  lemma AllEmpty<K, V>(es: seq<Entry<K, V>>, heads: seq<int>, hash: K -> nat, chains: seq<seq<nat>>)
    requires |heads| == |chains| > 0 && (forall b :: 0 <= b < |heads| ==> heads[b] == NULL && chains[b] == [])
    requires forall e :: 0 <= e < |es| ==> es[e].Free?
    ensures Chained(es, heads, hash, chains) && Indexed(es, map[]) && Values(es, map[]) == map[]
  {
  }

  class Table<K(==), V> {
    const hash: K -> nat
    const bucketsFor: nat -> nat
    var capacity: nat
    var bucketNum: nat
    var size: nat
    var buckets: seq<int>
    var entries: seq<Entry<K, V>>
    ghost var chains: seq<seq<nat>>
    ghost var at: map<K, nat>

    ghost predicate Valid()
      reads this
    {
      && Sizes(bucketsFor, capacity) && bucketNum == bucketsFor(capacity)
      && |entries| == capacity && |buckets| == bucketNum
      && Chained(entries, buckets, hash, chains) && Indexed(entries, at)
      && size == |at| <= bucketNum
    }

    /** The map that the table stands for. */
    ghost function Contents(): map<K, V>
      reads this
      requires Valid()
    {
      Values(entries, at)
    }

    lemma Facts()
      requires Valid()
      ensures 1 <= bucketNum <= capacity && bucketsFor(2 * capacity) >= 2 * bucketNum && Sizes(bucketsFor, 2 * capacity)
      ensures Contents().Keys == at.Keys && size == |Contents()| && |chains| == bucketNum
    {
      hide Linked, Belongs;
      assert Contents().Keys == at.Keys;
      assert |Contents()| == |Contents().Keys| && |at| == |at.Keys|;
    }

    /** hashmap_alloc and hashmap_reset */
    method Reset(capacity: nat)
      requires Sizes(bucketsFor, capacity)
      modifies this`capacity, this`bucketNum, this`size, this`buckets, this`entries, this`chains, this`at
      ensures Valid() && this.capacity == capacity && size == 0 && Contents() == map[]
    {
      hide Chained, Indexed, Values, Sizes;
      SizesAt(bucketsFor, capacity);
      this.capacity := capacity;
      bucketNum := bucketsFor(capacity);
      size := 0;
      buckets := seq(bucketNum, i => NULL);
      entries := seq(capacity, i => Free);
      chains := seq(bucketNum, i => []);
      at := map[];
      AllEmpty(entries, buckets, hash, chains);
    }

    /** hashmap_init */
    constructor (capacity: nat, hash: K -> nat, bucketsFor: nat -> nat)
      requires Sizes(bucketsFor, capacity)
      ensures Valid() && Contents() == map[] && this.hash == hash && this.bucketsFor == bucketsFor
    {
      this.hash := hash;
      this.bucketsFor := bucketsFor;
      new;
      Reset(capacity);
    }

    /** hashmap_get */
    method Get(key: K) returns (r: Option<V>)
      requires Valid()
      ensures r == if key in Contents() then Some(Contents()[key]) else None
    {
      hide Chained, Indexed, Sizes;
      ghost var j;
      var e;
      e, j := Search(entries, buckets, hash, key, chains, at);
      r := if e == NULL then None else Some(entries[e].value);
    }

    /** The end of hashmap_put_new: a free entry goes to the front of the key's chain. */
    method Insert(key: K, value: V)
      requires Valid() && key !in Contents() && size < bucketNum
      modifies this`size, this`buckets, this`entries, this`chains, this`at
      ensures Valid() && Contents() == old(Contents())[key := value] && size == old(size) + 1
    {
      hide Chained, Indexed, Sizes, Prepend, Bucket, Values, At;
      Facts();
      var b := Bucket(hash(key), bucketNum);
      var e := Probe(entries, Bucket(hash(key), capacity), at);
      PrependKeepsChains(entries, buckets, hash, chains, b, e, key, value);
      PrependIndexed(entries, at, buckets[b], e, key, value);
      entries := Prepend(entries, buckets[b], e, key, value);
      buckets := buckets[b := e];
      size := size + 1;
      chains := chains[b := [e] + chains[b]];
      at := at[key := e];
    }

    /** hashmap_remove */
    method Remove(key: K) returns (r: Option<V>)
      requires Valid()
      modifies this`size, this`buckets, this`entries, this`chains, this`at
      ensures Valid() && Contents() == old(Contents()) - {key}
      ensures r == if key in old(Contents()) then Some(old(Contents())[key]) else None
    {
      hide Chained, Indexed, Sizes, Unlink, Bucket, Values, Points, At;
      Facts();
      ghost var j;
      var e;
      e, j := Search(entries, buckets, hash, key, chains, at);
      if e == NULL {
        assert Contents() - {key} == Contents();
        return None;
      }
      ValueAt(entries, at, key);
      r := Some(entries[e].value);
      Discard(key, e, j);
    }

    /** Taking the entry of a key out of its chain. */
    method Discard(key: K, e: nat, ghost j: nat)
      requires Valid() && key in at && e == at[key] && e < |entries| && entries[e].Used? && entries[e].key == key
      requires bucketNum == |chains| > 0 && j < |chains[Bucket(hash(key), bucketNum)]|
      requires chains[Bucket(hash(key), bucketNum)][j] == e
      modifies this`size, this`buckets, this`entries, this`chains, this`at
      ensures Valid() && Contents() == old(Contents()) - {key}
    {
      hide Chained, Indexed, Sizes, Unlink, Bucket, Values, Points, At;
      var b := Bucket(hash(key), bucketNum);
      UnlinkKeepsChains(entries, buckets, hash, chains, b, j);
      UnlinkIndexed(entries, at, e);
      if entries[e].prev == NULL {
        buckets := buckets[b := entries[e].next];
      }
      entries := Unlink(entries, e);
      size := size - 1;
      chains := chains[b := RemoveAt(chains[b], j)];
      at := at - {key};
    }

    /** Replacing the value of a key that is present. */
    method Replace(key: K, value: V, e: nat) returns (r: V)
      requires Valid() && key in at && at[key] == e && e < |entries| && entries[e].Used? && entries[e].key == key
      modifies this`entries
      ensures Valid() && Contents() == old(Contents())[key := value] && key in old(Contents())
      ensures r == old(Contents())[key]
    {
      hide Chained, Indexed, Sizes, Values;
      ValueAt(entries, at, key);
      ReplaceKeeps(entries, buckets, hash, chains, at, e, value);
      r := entries[e].value;
      entries := entries[e := entries[e].(value := value)];
    }

    /**
     hashmap_grow: every binding is put into a table of twice the capacity, which
     is large enough not to grow again meanwhile.
     */
    method Grow()
      requires Valid() && size == bucketNum
      modifies this`capacity, this`bucketNum, this`size, this`buckets, this`entries, this`chains, this`at
      ensures Valid() && Contents() == old(Contents()) && capacity == 2 * old(capacity) && size < bucketNum
      decreases 1, 0
    {
      hide Chained, Indexed, Sizes, Values;
      Facts();
      var oldEntries := entries;
      ghost var oldAt := at;
      Reset(2 * capacity);
      ghost var all := Values(oldEntries, oldAt);
      ValuesSize(oldEntries, oldAt);
      PutPrefixEnds(oldEntries, oldAt);
      for i := 0 to |oldEntries|
        invariant Valid() && capacity == 2 * old(capacity) && bucketNum > |all|
        invariant Contents() == Prefix(oldEntries, i) && size <= |all|
      {
        PutPrefix(oldEntries, oldAt, i);
        Facts();
        if oldEntries[i].Used? {
          var r := Put(oldEntries[i].key, oldEntries[i].value);
          Facts();
        }
      }
    }

    /** hashmap_put_new */
    method PutNew(key: K, value: V)
      requires Valid() && key !in Contents()
      modifies this`capacity, this`bucketNum, this`size, this`buckets, this`entries, this`chains, this`at
      ensures Valid() && Contents() == old(Contents())[key := value]
      ensures old(size < bucketNum) ==> capacity == old(capacity) && bucketNum == old(bucketNum)
      decreases if size < bucketNum then 0 else 1, 1
    {
      hide Chained, Indexed, Sizes, Values;
      if size >= bucketNum {
        Grow();
      }
      Insert(key, value);
    }

    /** hashmap_put */
    method Put(key: K, value: V) returns (r: Option<V>)
      requires Valid()
      modifies this`capacity, this`bucketNum, this`size, this`buckets, this`entries, this`chains, this`at
      ensures Valid() && Contents() == old(Contents())[key := value]
      ensures r == if key in old(Contents()) then Some(old(Contents())[key]) else None
      ensures old(size < bucketNum) ==> capacity == old(capacity) && bucketNum == old(bucketNum)
      decreases if size < bucketNum then 0 else 1, 2
    {
      hide Chained, Indexed, Sizes, Values;
      Facts();
      ghost var j;
      var e;
      e, j := Search(entries, buckets, hash, key, chains, at);
      if e != NULL {
        ValueAt(entries, at, key);
        var v := Replace(key, value, e);
        return Some(v);
      }
      PutNew(key, value);
      r := None;
    }

    /** hashmap_put_if_absent */
    method PutIfAbsent(key: K, value: V) returns (ok: bool)
      requires Valid()
      modifies this`capacity, this`bucketNum, this`size, this`buckets, this`entries, this`chains, this`at
      ensures Valid() && ok == (key !in old(Contents()))
      ensures Contents() == if ok then old(Contents())[key := value] else old(Contents())
    {
      hide Chained, Indexed, Sizes, Values;
      Facts();
      ghost var j;
      var e;
      e, j := Search(entries, buckets, hash, key, chains, at);
      ok := e == NULL;
      if ok {
        PutNew(key, value);
      }
    }

    /** hashmap_clear */
    method Clear()
      requires Valid()
      modifies this`capacity, this`bucketNum, this`size, this`buckets, this`entries, this`chains, this`at
      ensures Valid() && Contents() == map[] && capacity == old(capacity)
    {
      Facts();
      if size == 0 {
        return;
      }
      Reset(capacity);
    }

    /** find_valid_entry */
    method FindValidEntry(iter: nat) returns (i: nat)
      requires Valid() && iter <= capacity
      ensures iter <= i <= capacity && (i < capacity ==> entries[i].Used?)
      ensures forall e :: iter <= e < i ==> entries[e].Free?
    {
      i := iter;
      while i < capacity && entries[i].Free?
        invariant iter <= i <= capacity && forall e :: iter <= e < i ==> entries[e].Free?
      {
        i := i + 1;
      }
    }

    /** An iteration from hashmap_begin by hashmap_next to hashmap_end: every binding once. */
    method Iterate() returns (bindings: seq<(K, V)>)
      requires Valid()
      ensures forall i, j :: 0 <= i < j < |bindings| ==> bindings[i].0 != bindings[j].0
      ensures forall i :: 0 <= i < |bindings| ==>
                bindings[i].0 in Contents() && Contents()[bindings[i].0] == bindings[i].1
      ensures forall k :: k in Contents() ==> exists i :: 0 <= i < |bindings| && bindings[i].0 == k
    {
      hide Chained, Sizes, Indexed, Visited;
      bindings := [];
      NoneVisited(entries, at);
      var iter := FindValidEntry(0);
      SkipFree(entries, at, bindings, 0, iter);
      while iter < capacity
        invariant iter <= capacity && (iter < capacity ==> entries[iter].Used?) && Visited(entries, at, bindings, iter)
      {
        VisitNext(entries, at, bindings, iter);
        bindings := bindings + [(entries[iter].key, entries[iter].value)];
        var next := FindValidEntry(iter + 1);
        SkipFree(entries, at, bindings, iter + 1, next);
        iter := next;
      }
      AllVisited(entries, at, bindings);
    }
  }

  /** The iteration has passed the first n entries. */
  ghost predicate Visited<K, V>(es: seq<Entry<K, V>>, at: map<K, nat>, bindings: seq<(K, V)>, n: nat)
    requires Indexed(es, at)
  {
    && (forall i, j :: 0 <= i < j < |bindings| ==> bindings[i].0 != bindings[j].0)
    && (forall i :: 0 <= i < |bindings| ==>
        bindings[i].0 in at && at[bindings[i].0] < n && es[at[bindings[i].0]].value == bindings[i].1)
    && (forall k :: k in at && at[k] < n ==> exists i :: 0 <= i < |bindings| && bindings[i].0 == k)
  }

  lemma NoneVisited<K, V>(es: seq<Entry<K, V>>, at: map<K, nat>)
    requires Indexed(es, at)
    ensures Visited(es, at, [], 0)
  {
  }

  lemma SkipFree<K, V>(es: seq<Entry<K, V>>, at: map<K, nat>, bindings: seq<(K, V)>, n: nat, n': nat)
    requires Indexed(es, at) && Visited(es, at, bindings, n) && n <= n' <= |es| && forall e :: n <= e < n' ==>
              es[e].Free?
    ensures Visited(es, at, bindings, n')
  {
  }

  lemma VisitNext<K, V>(es: seq<Entry<K, V>>, at: map<K, nat>, bindings: seq<(K, V)>, n: nat)
    requires Indexed(es, at) && Visited(es, at, bindings, n) && n < |es| && es[n].Used?
    ensures Visited(es, at, bindings + [(es[n].key, es[n].value)], n + 1)
  {
    var b' := bindings + [(es[n].key, es[n].value)];
    forall k | k in at && at[k] < n + 1 ensures exists i :: 0 <= i < |b'| && b'[i].0 == k {
      if at[k] < n {
        var i :| 0 <= i < |bindings| && bindings[i].0 == k;
        assert b'[i].0 == k;
      } else {
        assert b'[|bindings|].0 == k;
      }
    }
  }

  lemma AllVisited<K, V>(es: seq<Entry<K, V>>, at: map<K, nat>, bindings: seq<(K, V)>)
    requires Indexed(es, at) && Visited(es, at, bindings, |es|)
    ensures forall i, j :: 0 <= i < j < |bindings| ==> bindings[i].0 != bindings[j].0
    ensures forall i :: 0 <= i < |bindings| ==>
              bindings[i].0 in Values(es, at) && Values(es, at)[bindings[i].0] == bindings[i].1
    ensures forall k :: k in Values(es, at) ==> exists i :: 0 <= i < |bindings| && bindings[i].0 == k
  {
  }

  /** The bindings of the first n entries. */
  ghost function Prefix<K, V>(es: seq<Entry<K, V>>, n: nat): map<K, V>
    requires n <= |es|
  {
    if n == 0 then map[]
    else if es[n - 1].Used? then Prefix(es, n - 1)[es[n - 1].key := es[n - 1].value]
    else Prefix(es, n - 1)
  }

  lemma {:induction false} PrefixIs<K, V>(es: seq<Entry<K, V>>, at: map<K, nat>, n: nat)
    requires Indexed(es, at) && n <= |es|
    ensures forall k :: k in Prefix(es, n) <==> k in at && at[k] < n
    ensures forall k :: k in Prefix(es, n) ==> Prefix(es, n)[k] == es[at[k]].value
    ensures Prefix(es, n).Keys <= at.Keys
  {
    if n > 0 {
      PrefixIs(es, at, n - 1);
    }
  }

  lemma PutPrefixEnds<K, V>(es: seq<Entry<K, V>>, at: map<K, nat>)
    requires Indexed(es, at)
    ensures Prefix(es, 0) == map[] && Prefix(es, |es|) == Values(es, at)
  {
    PrefixIs(es, at, |es|);
    assert Prefix(es, |es|).Keys == Values(es, at).Keys;
  }

  lemma PutPrefix<K, V>(es: seq<Entry<K, V>>, at: map<K, nat>, i: nat)
    requires Indexed(es, at) && i < |es|
    ensures Prefix(es, i + 1) == if es[i].Used? then Prefix(es, i)[es[i].key := es[i].value] else Prefix(es, i)
    ensures |Prefix(es, i + 1)| <= |at|
    ensures es[i].Used? ==> |Prefix(es, i)| < |at|
  {
    PrefixIs(es, at, i);
    PrefixIs(es, at, i + 1);
    SubsetSize(Prefix(es, i + 1).Keys, at.Keys);
    if es[i].Used? {
      assert Prefix(es, i).Keys + {es[i].key} == Prefix(es, i + 1).Keys;
    }
  }

  lemma ValuesSize<K, V>(es: seq<Entry<K, V>>, at: map<K, nat>)
    requires Indexed(es, at)
    ensures |Values(es, at)| == |at|
  {
    assert Values(es, at).Keys == at.Keys;
  }
}
