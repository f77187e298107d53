/**
 src/main/utils/lrumap.c: a map of bounded capacity that knows which of its keys
 was touched least recently, built from the hash map and two intrusive lists.
 */
module LruMap {
  import opened Collections
  import opened Wrappers
  import opened IntrusiveList
  import opened Lru
  import opened LruStore
  import opened HashMap

  class Lrumap<K(==), V> {
    const table: Table<K, nat>
    const capacity: nat
    var links: Links
    var pairs: seq<Entry<K, V>>
    ghost var pool: seq<nat>
    ghost var queue: seq<nat>

    ghost predicate Valid()
      reads this, table
    {
      && table.Valid() && |pairs| == capacity
      && Lists(links, capacity, pool, queue, IntrusiveList.NULL)
      && Bound(table.Contents(), pairs, queue)
    }

    /** The bindings in order of recency, which is what the map stands for. */
    ghost function Bindings(): Recency<K, V>
      reads this, table
      requires Valid()
    {
      Order(pairs, queue)
    }

    /** The keys are distinct, the hash map agrees with the queue, and lrumap_size is at most the capacity. */
    lemma Facts()
      requires Valid()
      ensures DistinctKeys(Bindings()) && |Bindings()| == table.size <= capacity && |queue| == |Bindings()|
      ensures |pool| + |queue| == capacity && |links| == capacity + 4 && Distinct(queue)
    {
      hide Holds, Table.Valid, Partition;
      HoldsDistinct(links, capacity + 2, capacity + 3, queue);
      OrderDistinct(table.Contents(), pairs, queue);
      table.Facts();
    }

    lemma Lookup(key: K)
      requires Valid()
      ensures key in table.Contents() <==> Has(Bindings(), key)
      ensures key in table.Contents() ==>
                Find(Bindings(), key) < |queue| && queue[Find(Bindings(), key)] == table.Contents()[key]
    {
      hide Holds, Table.Valid, Partition, Find;
      Facts();
      FindIs(table.Contents(), pairs, queue, key);
    }

    /** lrumap_init; junk is what the memory of the new entries happens to hold. */
    constructor (capacity: nat, hash: K -> nat, bucketsFor: nat -> nat, junk: Entry<K, V>)
      requires Sizes(bucketsFor, capacity)
      ensures Valid() && Bindings() == [] && this.capacity == capacity && fresh(table)
    {
      hide Table.Valid, Sizes, Lists;
      this.capacity := capacity;
      table := new Table<K, nat>(capacity, hash, bucketsFor);
      pairs := seq(capacity, i => junk);
      var l, free := AllFree(capacity);
      links := l;
      pool, queue := free, [];
    }

    /** lrumap_put: refuses when full; the key may not be present, or the program aborts. */
    method Put(key: K, value: V) returns (ok: bool)
      requires Valid() && (|Bindings()| < capacity ==> !Has(Bindings(), key))
      modifies this`links, this`pairs, this`pool, this`queue, table
      ensures Valid() && ok == (|old(Bindings())| < capacity)
      ensures Bindings() == if ok then Lru.Put(old(Bindings()), key, value) else old(Bindings())
    {
      hide Table.Valid, Lists, Bound, Find, Order, Detach, PushFront, Distinct;
      Facts();
      Lookup(key);
      if table.size == capacity {
        return false;
      }
      PoolBack(links, capacity, pool, queue);
      var e := links[capacity + 1].prev;
      TakeFromPool(links, capacity, pool, queue, |pool| - 1);
      links := Detach(links, e);
      pool := RemoveAt(pool, |pool| - 1);
      pairs := pairs[e := Entry(key, value)];
      Outside(links, capacity, pool, queue, e);
      PutOrder(table.Contents(), old(pairs), queue, e, key, value);
      var absent := table.PutIfAbsent(key, e);
      GiveToQueueFront(links, capacity, pool, queue, e);
      links := PushFront(links, capacity + 2, e);
      queue := [e] + queue;
      ok := true;
    }

    /** lrumap_get: the binding of a key, which becomes the newest. */
    method Get(key: K) returns (r: Option<Entry<K, V>>)
      requires Valid()
      modifies this`links, this`queue
      ensures Valid()
      ensures !Has(old(Bindings()), key) ==> r == None && Bindings() == old(Bindings())
      ensures Has(old(Bindings()), key) ==>
                r == Some(old(Bindings())[Find(old(Bindings()), key)]) && Bindings() == Touch(old(Bindings()), key)
    {
      hide Table.Valid, Lists, Bound, Find, Order, Detach, PushFront, Distinct, Touch;
      Facts();
      Lookup(key);
      var found := table.Get(key);
      if found == None {
        return None;
      }
      ghost var j := Find(Bindings(), key);
      var e := found.value;
      TakeFromQueue(links, capacity, pool, queue, j);
      GiveToQueueFront(Detach(links, e), capacity, pool, RemoveAt(queue, j), e);
      TouchOrder(table.Contents(), pairs, queue, j, key);
      links := PushFront(Detach(links, e), capacity + 2, e);
      queue := [e] + RemoveAt(queue, j);
      r := Some(pairs[e]);
    }

    /** lrumap_remove */
    method Remove(key: K) returns (ok: bool)
      requires Valid()
      modifies this`links, this`pool, this`queue, table
      ensures Valid() && ok == Has(old(Bindings()), key)
      ensures Bindings() == if ok then Lru.Remove(old(Bindings()), key) else old(Bindings())
    {
      hide Table.Valid, Lists, Bound, Find, Order, Detach, PushFront, Distinct, Lru.Remove;
      Facts();
      Lookup(key);
      ghost var m := table.Contents();
      var found := table.Remove(key);
      if found == None {
        assert m - {key} == m;
        return false;
      }
      ghost var j := Find(old(Bindings()), key);
      var e := found.value;
      RemoveOrder(m, pairs, queue, j, key);
      TakeFromQueue(links, capacity, pool, queue, j);
      GiveToPool(Detach(links, e), capacity, pool, RemoveAt(queue, j), e);
      links := PushFront(Detach(links, e), capacity, e);
      queue := RemoveAt(queue, j);
      pool := [e] + pool;
      ok := true;
    }

    /** lrumap_make_eldest */
    method MakeEldest(key: K) returns (ok: bool)
      requires Valid()
      modifies this`links, this`queue
      ensures Valid() && ok == Has(old(Bindings()), key)
      ensures Bindings() == if ok then Lru.MakeEldest(old(Bindings()), key) else old(Bindings())
    {
      hide Table.Valid, Lists, Bound, Find, Order, Detach, PushBack, Distinct, Lru.MakeEldest;
      Facts();
      Lookup(key);
      var found := table.Get(key);
      if found == None {
        return false;
      }
      ghost var j := Find(Bindings(), key);
      var e := found.value;
      TakeFromQueue(links, capacity, pool, queue, j);
      GiveToQueueBack(Detach(links, e), capacity, pool, RemoveAt(queue, j), e);
      EldestOrder(table.Contents(), pairs, queue, j, key);
      links := PushBack(Detach(links, e), capacity + 3, e);
      queue := RemoveAt(queue, j) + [e];
      ok := true;
    }

    /** lrumap_peek: the binding touched least recently. */
    method Peek() returns (r: Option<Entry<K, V>>)
      requires Valid()
      ensures r == if Bindings() == [] then None else Some(Eldest(Bindings()))
    {
      hide Table.Valid, Lists, Distinct;
      Facts();
      if table.size == 0 {
        return None;
      }
      QueueBack(links, capacity, pool, queue);
      r := Some(pairs[links[capacity + 3].prev]);
    }

    /** An iteration from lrumap_begin by lrumap_next to lrumap_end: all bindings, eldest first. */
    method Iterate() returns (bindings: seq<Entry<K, V>>)
      requires Valid()
      ensures |bindings| == |Bindings()|
      ensures forall i :: 0 <= i < |bindings| ==> bindings[i] == Bindings()[|bindings| - 1 - i]
    {
      hide Table.Valid, Lists, Distinct, Bound;
      Facts();
      BoundFacts(table.Contents(), pairs, queue);
      bindings := [];
      QueueBack(links, capacity, pool, queue);
      var iter := links[capacity + 3].prev;
      while iter != capacity + 2
        invariant |bindings| <= |queue|
        invariant iter == if |bindings| == |queue| then capacity + 2 else queue[|queue| - 1 - |bindings|]
        invariant forall i :: 0 <= i < |bindings| ==> bindings[i] == Bindings()[|queue| - 1 - i]
        decreases |queue| - |bindings|
      {
        QueuePrev(links, capacity, pool, queue, |queue| - 1 - |bindings|);
        bindings := bindings + [pairs[iter]];
        iter := links[iter].prev;
      }
      QueueEnd(links, capacity, pool, queue, |queue| - 1 - |bindings|);
    }
  }

  /** Entries from 0 to i - 1, the last first. */
  ghost function Countdown(i: nat): (c: seq<nat>)
    ensures |c| == i && forall x :: x in c <==> 0 <= x < i
  {
    if i == 0 then [] else
      var rest := Countdown(i - 1);
      assert forall x :: x in [i - 1] + rest <==> x == i - 1 || x in rest;
      [i - 1] + rest
  }

  /** The loop of lrumap_init that fills the pool. */
  method AllFree(n: nat) returns (l: Links, ghost pool: seq<nat>)
    ensures Lists(l, n, pool, [], IntrusiveList.NULL)
  {
    hide Chain, PushFront;
    l := seq(n + 4, i => if i == n then Node(IntrusiveList.NULL, n + 1) else if i == n + 1
             then Node(n, IntrusiveList.NULL)
                         else if i == n + 2 then Node(IntrusiveList.NULL, n + 3) else Node(n + 2, IntrusiveList.NULL));
    EmptyHolds(l, n, n + 1);
    EmptyHolds(l, n + 2, n + 3);
    pool := [];
    for i := 0 to n
      invariant |l| == n + 4 && pool == Countdown(i) && Holds(l, n, n + 1, pool) && Holds(l, n + 2, n + 3, [])
    {
      FullMembers(n, pool, n + 1);
      PushFrontHolds(l, n, n + 1, pool, i);
      OtherHolds(l, PushFront(l, n, i), n + 2, n + 3, [], n, n + 1, pool, i);
      l := PushFront(l, n, i);
      pool := [i] + pool;
    }
  }

  lemma PoolBack(l: Links, n: nat, pool: seq<nat>, queue: seq<nat>)
    requires Lists(l, n, pool, queue, IntrusiveList.NULL) && pool != []
    ensures n + 1 < |l| && l[n + 1].prev == pool[|pool| - 1]
  {
    hide Partition, Chain;
    BackIs(l, n, n + 1, pool);
  }

  lemma QueueBack(l: Links, n: nat, pool: seq<nat>, queue: seq<nat>)
    requires Lists(l, n, pool, queue, IntrusiveList.NULL)
    ensures n + 3 < |l| && l[n + 3].prev == if queue == [] then n + 2 else queue[|queue| - 1]
    ensures forall i :: 0 <= i < |queue| ==> queue[i] < n
  {
    hide Chain;
    BackIs(l, n + 2, n + 3, queue);
    assert forall i :: 0 <= i < |queue| ==> queue[i] in queue;
  }

  lemma QueuePrev(l: Links, n: nat, pool: seq<nat>, queue: seq<nat>, j: nat)
    requires Lists(l, n, pool, queue, IntrusiveList.NULL) && j < |queue|
    ensures queue[j] < n && |l| == n + 4 && l[queue[j]].prev == if j == 0 then n + 2 else queue[j - 1]
  {
    hide Chain;
    PrevIs(l, n + 2, n + 3, queue, j);
    assert queue[j] in queue;
  }

  lemma QueueEnd(l: Links, n: nat, pool: seq<nat>, queue: seq<nat>, j: int)
    requires Lists(l, n, pool, queue, IntrusiveList.NULL) && j < |queue|
    ensures 0 <= j ==> queue[j] != n + 2
  {
    hide Chain;
    if 0 <= j {
      assert queue[j] in queue;
    }
  }

  lemma Outside(l: Links, n: nat, pool: seq<nat>, queue: seq<nat>, e: nat)
    requires Lists(l, n, pool, queue, e)
    ensures e !in queue
  {
    hide Holds;
  }
}
