/**
 The two lists of src/main/utils/lrumap.c over one array of n entries: the pool of
 free entries and the queue of bindings, newest first. The sentinels are the nodes
 n to n + 3.
 */
module LruStore {
  import opened Collections
  import opened IntrusiveList
  import opened Lru
  import HashMap

  /** Pool and queue partition the entries, except e, which is in neither. */
  ghost predicate Partition(n: nat, pool: seq<nat>, queue: seq<nat>, e: int) {
    && (forall x :: x in pool ==> x < n && x != e && x !in queue)
    && (forall x :: x in queue ==> x < n && x != e)
    && (forall x :: 0 <= x < n && x != e ==> x in pool || x in queue)
  }

  ghost predicate Lists(l: Links, n: nat, pool: seq<nat>, queue: seq<nat>, e: int) {
    && |l| == n + 4 && Holds(l, n, n + 1, pool) && Holds(l, n + 2, n + 3, queue)
    && Partition(n, pool, queue, e)
    && |pool| + |queue| + (if e == NULL then 0 else 1) == n
  }

  lemma HoldsDistinct(l: Links, h: nat, t: nat, c: seq<nat>)
    requires Holds(l, h, t, c)
    ensures Distinct(c)
  {
    var f := Full(h, c, t);
    forall i, j | 0 <= i < j < |c| ensures c[i] != c[j] {
      assert f[i + 1] == c[i] && f[j + 1] == c[j];
    }
  }

  lemma FullMembers(h: nat, c: seq<nat>, t: nat)
    ensures forall x :: x in Full(h, c, t) <==> x == h || x == t || x in c
  {
    var f := Full(h, c, t);
    assert f[0] == h && f[|c| + 1] == t;
    forall x | x in c ensures x in f {
      var i :| 0 <= i < |c| && c[i] == x;
      assert f[i + 1] == x;
    }
  }

  /** A list that shares no node with another is not touched by changes of the other. */
  lemma OtherHolds(l: Links, l': Links, h: nat, t: nat, c: seq<nat>, h': nat, t': nat, c': seq<nat>, e: nat)
    requires Holds(l, h, t, c) && |l'| == |l| && h != h' && h != t' && t != h' && t != t'
    requires forall x :: 0 <= x < |l| && x != e && x !in Full(h', c', t') ==> l'[x] == l[x]
    requires forall x :: x in c ==> x !in c' && x != h' && x != t' && x != e
    requires h !in c' && t !in c' && h != e && t != e
    ensures Holds(l', h, t, c)
  {
    hide Chain;
    FullMembers(h, c, t);
    FullMembers(h', c', t');
    ChainFrame(l, l', Full(h, c, t));
  }

  lemma TakeFromQueue(l: Links, n: nat, pool: seq<nat>, queue: seq<nat>, j: nat)
    requires Lists(l, n, pool, queue, NULL) && j < |queue|
    ensures queue[j] < n && 0 <= l[queue[j]].prev < |l| && 0 <= l[queue[j]].next < |l|
    ensures Lists(Detach(l, queue[j]), n, pool, RemoveAt(queue, j), queue[j])
  {
    hide Holds, Detach;
    var e := queue[j];
    assert e in queue;
    DetachHolds(l, n + 2, n + 3, queue, j);
    FullMembers(n + 2, queue, n + 3);
    OtherHolds(l, Detach(l, e), n, n + 1, pool, n + 2, n + 3, queue, e);
    HoldsDistinct(l, n + 2, n + 3, queue);
    RemoveAtMembers(queue, j);
  }

  lemma TakeFromPool(l: Links, n: nat, pool: seq<nat>, queue: seq<nat>, j: nat)
    requires Lists(l, n, pool, queue, NULL) && j < |pool|
    ensures pool[j] < n && 0 <= l[pool[j]].prev < |l| && 0 <= l[pool[j]].next < |l|
    ensures Lists(Detach(l, pool[j]), n, RemoveAt(pool, j), queue, pool[j])
  {
    hide Holds, Detach;
    var e := pool[j];
    assert e in pool;
    DetachHolds(l, n, n + 1, pool, j);
    FullMembers(n, pool, n + 1);
    OtherHolds(l, Detach(l, e), n + 2, n + 3, queue, n, n + 1, pool, e);
    HoldsDistinct(l, n, n + 1, pool);
    RemoveAtMembers(pool, j);
  }

  lemma GiveToQueueFront(l: Links, n: nat, pool: seq<nat>, queue: seq<nat>, e: nat)
    requires Lists(l, n, pool, queue, e) && e < n
    ensures 0 <= l[n + 2].next < |l| && Lists(PushFront(l, n + 2, e), n, pool, [e] + queue, NULL)
  {
    hide Holds, PushFront;
    FullMembers(n + 2, queue, n + 3);
    PushFrontHolds(l, n + 2, n + 3, queue, e);
    OtherHolds(l, PushFront(l, n + 2, e), n, n + 1, pool, n + 2, n + 3, queue, e);
  }

  lemma GiveToQueueBack(l: Links, n: nat, pool: seq<nat>, queue: seq<nat>, e: nat)
    requires Lists(l, n, pool, queue, e) && e < n
    ensures 0 <= l[n + 3].prev < |l| && Lists(PushBack(l, n + 3, e), n, pool, queue + [e], NULL)
  {
    hide Holds, PushBack;
    FullMembers(n + 2, queue, n + 3);
    PushBackHolds(l, n + 2, n + 3, queue, e);
    OtherHolds(l, PushBack(l, n + 3, e), n, n + 1, pool, n + 2, n + 3, queue, e);
  }

  lemma GiveToPool(l: Links, n: nat, pool: seq<nat>, queue: seq<nat>, e: nat)
    requires Lists(l, n, pool, queue, e) && e < n
    ensures 0 <= l[n].next < |l| && Lists(PushFront(l, n, e), n, [e] + pool, queue, NULL)
  {
    hide Holds, PushFront;
    FullMembers(n, pool, n + 1);
    PushFrontHolds(l, n, n + 1, pool, e);
    OtherHolds(l, PushFront(l, n, e), n + 2, n + 3, queue, n, n + 1, pool, e);
  }

  // ----- The bindings.

  /** The hash map binds exactly the keys of the queue, each to its entry. */
  ghost predicate Bound<K, V>(m: map<K, nat>, pairs: seq<Entry<K, V>>, queue: seq<nat>) {
    && (forall i :: 0 <= i < |queue| ==>
        queue[i] < |pairs| && pairs[queue[i]].key in m && m[pairs[queue[i]].key] == queue[i])
    && (forall k :: k in m ==> m[k] in queue && m[k] < |pairs| && pairs[m[k]].key == k)
    && |m| == |queue|
  }

  /** The bindings, newest first. */
  ghost function Order<K, V>(pairs: seq<Entry<K, V>>, queue: seq<nat>): (r: Recency<K, V>)
    requires forall i :: 0 <= i < |queue| ==> queue[i] < |pairs|
    ensures |r| == |queue| && forall i :: 0 <= i < |queue| ==> r[i] == pairs[queue[i]]
  {
    seq(|queue|, i requires 0 <= i < |queue| => pairs[queue[i]])
  }

  lemma OrderDistinct<K, V>(m: map<K, nat>, pairs: seq<Entry<K, V>>, queue: seq<nat>)
    requires Bound(m, pairs, queue) && Distinct(queue)
    ensures DistinctKeys(Order(pairs, queue))
  {
  }

  /** The hash map finds the entry at the key's place in the queue. */
  lemma FindIs<K, V>(m: map<K, nat>, pairs: seq<Entry<K, V>>, queue: seq<nat>, key: K)
    requires Bound(m, pairs, queue) && Distinct(queue)
    ensures key in m <==> Has(Order(pairs, queue), key)
    ensures key in m ==> queue[Find(Order(pairs, queue), key)] == m[key]
  {
    hide Find;
    OrderDistinct(m, pairs, queue);
    var c := Order(pairs, queue);
    if key in m {
      var i :| 0 <= i < |queue| && queue[i] == m[key];
      FindAt(c, i);
    }
  }

  /** Only the place of one entry changes. */
  lemma MovedBound<K, V>(m: map<K, nat>, pairs: seq<Entry<K, V>>, queue: seq<nat>, queue': seq<nat>)
    requires Bound(m, pairs, queue) && |queue'| == |queue| && forall x :: x in queue' <==> x in queue
    ensures Bound(m, pairs, queue')
  {
    forall i | 0 <= i < |queue'|
      ensures queue'[i] < |pairs| && pairs[queue'[i]].key in m && m[pairs[queue'[i]].key] == queue'[i]
    {
      assert queue'[i] in queue';
      var j :| 0 <= j < |queue| && queue[j] == queue'[i];
    }
  }

  ghost predicate InRange<K, V>(pairs: seq<Entry<K, V>>, queue: seq<nat>) {
    forall i :: 0 <= i < |queue| ==> queue[i] < |pairs|
  }

  lemma OrderRemoveAt<K, V>(pairs: seq<Entry<K, V>>, queue: seq<nat>, j: nat)
    requires InRange(pairs, queue) && j < |queue|
    ensures InRange(pairs, RemoveAt(queue, j)) && Order(pairs, RemoveAt(queue, j)) == RemoveAt(Order(pairs, queue), j)
  {
  }

  lemma OrderEnds<K, V>(pairs: seq<Entry<K, V>>, queue: seq<nat>, e: nat)
    requires InRange(pairs, queue) && e < |pairs|
    ensures InRange(pairs, [e] + queue) && Order(pairs, [e] + queue) == [pairs[e]] + Order(pairs, queue)
    ensures InRange(pairs, queue + [e]) && Order(pairs, queue + [e]) == Order(pairs, queue) + [pairs[e]]
  {
  }

  lemma BoundFacts<K, V>(m: map<K, nat>, pairs: seq<Entry<K, V>>, queue: seq<nat>)
    requires Bound(m, pairs, queue)
    ensures InRange(pairs, queue)
  {
  }

  /** lrumap_get: the entry at place j moves to the front. */
  lemma TouchOrder<K, V>(m: map<K, nat>, pairs: seq<Entry<K, V>>, queue: seq<nat>, j: nat, key: K)
    requires Bound(m, pairs, queue) && Distinct(queue) && Has(Order(pairs, queue), key)
    requires j == Find(Order(pairs, queue), key)
    ensures Bound(m, pairs, [queue[j]] + RemoveAt(queue, j))
    ensures Order(pairs, [queue[j]] + RemoveAt(queue, j)) == Touch(Order(pairs, queue), key)
  {
    hide Find, Bound, Order, Distinct, RemoveAt, RemoveAt;
    BoundFacts(m, pairs, queue);
    RemoveAtMembers(queue, j);
    MovedBound(m, pairs, queue, [queue[j]] + RemoveAt(queue, j));
    OrderRemoveAt(pairs, queue, j);
    OrderEnds(pairs, RemoveAt(queue, j), queue[j]);
  }

  /** lrumap_make_eldest: it moves to the back. */
  lemma EldestOrder<K, V>(m: map<K, nat>, pairs: seq<Entry<K, V>>, queue: seq<nat>, j: nat, key: K)
    requires Bound(m, pairs, queue) && Distinct(queue) && Has(Order(pairs, queue), key)
    requires j == Find(Order(pairs, queue), key)
    ensures Bound(m, pairs, RemoveAt(queue, j) + [queue[j]])
    ensures Order(pairs, RemoveAt(queue, j) + [queue[j]]) == MakeEldest(Order(pairs, queue), key)
  {
    hide Find, Bound, Order, Distinct, RemoveAt, RemoveAt;
    BoundFacts(m, pairs, queue);
    RemoveAtMembers(queue, j);
    MovedBound(m, pairs, queue, RemoveAt(queue, j) + [queue[j]]);
    OrderRemoveAt(pairs, queue, j);
    OrderEnds(pairs, RemoveAt(queue, j), queue[j]);
  }

  lemma PutBound<K, V>(m: map<K, nat>, pairs: seq<Entry<K, V>>, queue: seq<nat>, e: nat, key: K, value: V)
    requires Bound(m, pairs, queue) && e < |pairs| && e !in queue && key !in m
    ensures Bound(m[key := e], pairs[e := Entry(key, value)], [e] + queue)
  {
    var m', pairs', queue' := m[key := e], pairs[e := Entry(key, value)], [e] + queue;
    assert m'.Keys == m.Keys + {key};
    assert |m'| == |m| + 1;
    forall i | 0 <= i < |queue'|
      ensures queue'[i] < |pairs'| && pairs'[queue'[i]].key in m' && m'[pairs'[queue'[i]].key] == queue'[i]
    {
      if i > 0 {
        assert queue'[i] == queue[i - 1] && queue[i - 1] in queue;
      }
    }
    forall k | k in m' ensures m'[k] in queue' && m'[k] < |pairs'| && pairs'[m'[k]].key == k {
      if k == key {
        assert queue'[0] == e;
      } else {
        assert m[k] in queue;
      }
    }
  }

  /** lrumap_put: a new entry at the front. */
  lemma PutOrder<K, V>(m: map<K, nat>, pairs: seq<Entry<K, V>>, queue: seq<nat>, e: nat, key: K, value: V)
    requires Bound(m, pairs, queue) && e < |pairs| && e !in queue && key !in m
    ensures Bound(m[key := e], pairs[e := Entry(key, value)], [e] + queue)
    ensures Order(pairs[e := Entry(key, value)], [e] + queue) == Put(Order(pairs, queue), key, value)
  {
    hide Bound;
    PutBound(m, pairs, queue, e, key, value);
    BoundFacts(m, pairs, queue);
    var pairs' := pairs[e := Entry(key, value)];
    assert forall i :: 0 <= i < |queue| ==> queue[i] in queue && pairs'[queue[i]] == pairs[queue[i]];
    OrderEnds(pairs', queue, e);
  }

  lemma BoundEntry<K, V>(m: map<K, nat>, pairs: seq<Entry<K, V>>, queue: seq<nat>, x: nat)
    requires Bound(m, pairs, queue) && x in queue
    ensures x < |pairs| && pairs[x].key in m && m[pairs[x].key] == x
  {
    var i :| 0 <= i < |queue| && queue[i] == x;
  }

  lemma BoundKey<K, V>(m: map<K, nat>, pairs: seq<Entry<K, V>>, queue: seq<nat>, k: K)
    requires Bound(m, pairs, queue) && k in m
    ensures m[k] in queue && m[k] < |pairs| && pairs[m[k]].key == k
  {
  }

  lemma MakeBound<K, V>(m: map<K, nat>, pairs: seq<Entry<K, V>>, queue: seq<nat>)
    requires forall x :: x in queue ==> x < |pairs| && pairs[x].key in m && m[pairs[x].key] == x
    requires forall k :: k in m ==> m[k] in queue && m[k] < |pairs| && pairs[m[k]].key == k
    requires |m| == |queue|
    ensures Bound(m, pairs, queue)
  {
  }

  lemma RemoveBound<K, V>(m: map<K, nat>, pairs: seq<Entry<K, V>>, queue: seq<nat>, j: nat, key: K)
    requires Bound(m, pairs, queue) && Distinct(queue) && j < |queue| && key in m && m[key] == queue[j]
    ensures Bound(m - {key}, pairs, RemoveAt(queue, j))
  {
    hide *;
    RemoveAtMembers(queue, j);
    HashMap.OneLess(m, key);
    BoundSize(m, pairs, queue);
    var m', queue' := m - {key}, RemoveAt(queue, j);
    forall x | x in queue' ensures x < |pairs| && pairs[x].key in m' && m'[pairs[x].key] == x {
      BoundEntry(m, pairs, queue, x);
    }
    forall k | k in m' ensures m'[k] in queue' && m'[k] < |pairs| && pairs[m'[k]].key == k {
      BoundKey(m, pairs, queue, k);
      BoundKey(m, pairs, queue, key);
    }
    MakeBound(m', pairs, queue');
  }

  lemma BoundSize<K, V>(m: map<K, nat>, pairs: seq<Entry<K, V>>, queue: seq<nat>)
    requires Bound(m, pairs, queue)
    ensures |m| == |queue|
  {
  }

  /** lrumap_remove */
  lemma RemoveOrder<K, V>(m: map<K, nat>, pairs: seq<Entry<K, V>>, queue: seq<nat>, j: nat, key: K)
    requires Bound(m, pairs, queue) && Distinct(queue) && Has(Order(pairs, queue), key)
    requires j == Find(Order(pairs, queue), key)
    ensures Bound(m - {key}, pairs, RemoveAt(queue, j))
    ensures Order(pairs, RemoveAt(queue, j)) == Remove(Order(pairs, queue), key)
  {
    hide Find, Bound, Order, Distinct, RemoveAt, RemoveAt;
    BoundFacts(m, pairs, queue);
    FindIs(m, pairs, queue, key);
    RemoveBound(m, pairs, queue, j, key);
    OrderRemoveAt(pairs, queue, j);
  }
}
