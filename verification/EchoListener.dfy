/**
 src/main/tunnel/nt_echo_listener.c: echoes requests, except duplicates. The keys of
 its LRU map live in buffers of a pool of the same size; a buffer is named by its
 number.
 */
module EchoListener {
  import opened Lru
  import opened LruStore
  import opened HashMap
  import opened LruMap
  import opened Dedup

  /** What header_hash_func and header_equal_func look at. */
  datatype Key = Key(tag: nat, id: nat, srcIp: nat, srcPort: nat)

  /** header_hash_func, on a size_t of 64 bits */
  function HeaderHash(k: Key): nat {
    (((k.tag * 31 + k.id) * 31 + k.srcIp) * 31 + k.srcPort) % 0x1_0000_0000_0000_0000
  }

  // ----- The pool of keys.

  /** Every buffer is either free or holds exactly one cached key. */
  ghost predicate Owned(c: Recency<Key, int>, buffers: map<Key, nat>, free: seq<nat>, capacity: nat) {
    && DistinctKeys(c)
    && (forall k :: k in buffers <==> Has(c, k))
    && (forall k :: k in buffers ==> buffers[k] < capacity && buffers[k] !in free)
    && (forall k, l :: k in buffers && l in buffers && buffers[k] == buffers[l] ==> k == l)
    && (forall i, j :: 0 <= i < j < |free| ==> free[i] != free[j])
    && (forall b :: b in free ==> b < capacity)
    && |c| + |free| == capacity
  }

  /** lrumap_remove and pool_free: the queue of the pool has room. */
  lemma RemoveOwned(c: Recency<Key, int>, buffers: map<Key, nat>, free: seq<nat>, capacity: nat, key: Key)
    requires Owned(c, buffers, free, capacity) && Has(c, key)
    ensures key in buffers && |free| < capacity
    ensures Owned(Remove(c, key), buffers - {key}, free + [buffers[key]], capacity)
  {
    RemoveForgets(c, key);
    forall k ensures k in buffers - {key} <==> Has(Remove(c, key), k) {
      RemoveOther(c, key, k);
    }
    hide Find, Has, Remove;
  }

  lemma RemoveOther(c: Recency<Key, int>, key: Key, k: Key)
    requires DistinctKeys(c) && Has(c, key)
    ensures Has(Remove(c, key), k) <==> Has(c, k) && k != key
  {
    hide Find;
    RemoveForgets(c, key);
    var r, n := Remove(c, key), Find(c, key);
    if Has(c, k) && k != key {
      var i := Find(c, k);
      assert r[if i < n then i else i - 1].key == k;
    }
  }

  /** pool_new and lrumap_put */
  lemma PutOwned(c: Recency<Key, int>, buffers: map<Key, nat>, free: seq<nat>, capacity: nat, key: Key, time: int)
    requires Owned(c, buffers, free, capacity) && !Has(c, key) && free != []
    ensures Owned(Put(c, key, time), buffers[key := free[0]], free[1..], capacity)
  {
    PutKeepsDistinct(c, key, time);
    assert free[0] in free && forall b :: b in free[1..] ==> b in free;
    forall k ensures k in buffers[key := free[0]] <==> Has(Put(c, key, time), k) {
      PutOther(c, key, time, k);
    }
    hide Find, Has, Put;
  }

  lemma PutOther(c: Recency<Key, int>, key: Key, time: int, k: Key)
    ensures Has(Put(c, key, time), k) <==> k == key || Has(c, k)
  {
    assert Put(c, key, time)[1..] == c;
  }

  lemma TouchOwned(c: Recency<Key, int>, buffers: map<Key, nat>, free: seq<nat>, capacity: nat, key: Key)
    requires Owned(c, buffers, free, capacity) && Has(c, key)
    ensures Owned(Touch(c, key), buffers, free, capacity) && Has(Touch(c, key), key)
  {
    TouchKeepsDistinct(c, key);
    forall k ensures Has(Touch(c, key), k) <==> Has(c, k) {
      TouchOther(c, key, k);
    }
    hide Find, Has, Touch;
  }

  lemma TouchOther(c: Recency<Key, int>, key: Key, k: Key)
    requires Has(c, key)
    ensures Has(Touch(c, key), k) <==> Has(c, k)
  {
    hide Find;
    var r, n := Touch(c, key), Find(c, key);
    if Has(c, k) {
      var i := Find(c, k);
      assert r[if i < n then i + 1 else if i == n then 0 else i].key == k;
    }
  }

  lemma OwnedSizes(c: Recency<Key, int>, buffers: map<Key, nat>, free: seq<nat>, capacity: nat)
    requires Owned(c, buffers, free, capacity)
    ensures |c| + |free| == capacity && DistinctKeys(c) && |c| <= capacity
  {
  }

  /** nt_echo_listener_t, with the log of every valid request. */
  class Listener {
    const capacity: nat
    const dedupTimeout: int
    const cache: Lrumap?<Key, int>
    var buffers: map<Key, nat>
    var free: seq<nat>
    ghost var log: seq<Event<Key>>

    ghost predicate Valid()
      reads this, cache, if cache == null then {} else {cache.table}
    {
      && Deduplicated(log, capacity, dedupTimeout)
      && (cache == null <==> capacity == 0)
      && (cache != null ==> && cache.capacity == capacity && cache.Valid()
                            && Remembers(cache.Bindings(), capacity, log)
                            && Owned(cache.Bindings(), buffers, free, capacity))
    }

    /**
     nt_echo_listener_init: all buffers of the pool are free. Capacity 0 disables
     deduplication, and the hash map inside the LRU map has no buckets for a
     capacity of 1.
     */
    constructor (capacity: nat, dedupTimeout: int)
      requires capacity == 0 || Sizes(ThreeQuartersOf, capacity)
      ensures Valid() && log == [] && this.capacity == capacity && this.dedupTimeout == dedupTimeout
      ensures cache != null ==> fresh(cache) && fresh(cache.table)
    {
      hide Lrumap.Valid, Order, Deduplicated, Remembers;
      this.capacity := capacity;
      this.dedupTimeout := dedupTimeout;
      buffers := map[];
      free := seq(capacity, i => i);
      log := [];
      NothingMet<Key>(capacity, dedupTimeout);
      if capacity == 0 {
        cache := null;
      } else {
        var lru := new Lrumap<Key, int>(capacity, HeaderHash, ThreeQuartersOf, Entry(Key(0, 0, 0, 0), 0));
        cache := lru;
      }
    }

    /**
     handle_read for a valid request: whether it is echoed. The allocation of the
     key never fails, and the buffers of cached keys are not freed.
     */
    method HandleRead(key: Key, now: int) returns (echo: bool)
      requires Valid()
      modifies this`buffers, this`free, this`log, cache, if cache == null then {} else {cache.table}
      ensures Valid()
      ensures echo <==> Due(old(log), key, now, capacity, dedupTimeout)
      ensures log == old(log) + [Event(key, now, echo)]
    {
      hide Deduplicated, Remembers, LastDelivery, ReceivedSince, Lrumap.Valid, Order, Owned;
      echo := true;
      if cache != null {
        echo := Filter(cache, key, now);
      } else {
        DisabledIsDue(log, key, now, dedupTimeout);
      }
      ghost var e := Event(key, now, echo);
      DeduplicatedNext(log, e, capacity, dedupTimeout);
      log := log + [e];
    }

    /** Over every run so far, a copy is echoed again exactly if it has come late enough, or enough others have. */
    lemma AgainExactly(i: nat, r: nat, j: nat)
      requires Valid() && Follows(log, i, r, j)
      ensures log[j].delivered <==>
                log[j].time - log[i].time > dedupTimeout || |set m: nat | r < m < j :: log[m].id| >= capacity
    {
      hide Remembers, Lrumap.Valid, Order, Deduplicated, Owned;
      AgainIff(log, capacity, dedupTimeout, i, r, j);
    }

    /** And what is not echoed is a copy that has come in time, with fewer others since. */
    lemma OnlyCopiesAreHeldBack(j: nat) returns (i: nat, r: nat)
      requires Valid() && j < |log| && !log[j].delivered
      ensures i <= r < j && log[i].id == log[r].id == log[j].id && log[i].delivered
      ensures forall m :: r < m < j ==> log[m].id != log[j].id
      ensures log[j].time - log[i].time <= dedupTimeout && |set m: nat | r < m < j :: log[m].id| < capacity
    {
      hide Remembers, Lrumap.Valid, Order, Deduplicated, Owned;
      i, r := HeldBack(log, capacity, dedupTimeout, j);
    }

    /** The deduplication of handle_read. */
    method Filter(lru: Lrumap<Key, int>, key: Key, now: int) returns (echo: bool)
      requires lru.Valid() && lru.capacity == capacity > 0 && Remembers(lru.Bindings(), capacity, log)
      requires Owned(lru.Bindings(), buffers, free, capacity)
      modifies this`buffers, this`free, lru, lru.table
      ensures lru.Valid() && (echo <==> Due(log, key, now, capacity, dedupTimeout))
      ensures Remembers(lru.Bindings(), capacity, log + [Event(key, now, echo)])
      ensures Owned(lru.Bindings(), buffers, free, capacity)
    {
      hide Remembers, LastDelivery, ReceivedSince, Find, Touch, Lru.Remove, Lru.Put, MakeRoom, DistinctKeys,
           Lrumap.Valid, Order, Owned;
      ghost var c := lru.Bindings();
      lru.Facts();
      var found := lru.Get(key);
      if found.Some? {
        CachedTime(c, capacity, log, key);
        CachedIsRecent(c, capacity, log, key);
        TouchOwned(c, buffers, free, capacity, key);
        if now - found.value.value > dedupTimeout {
          RedeliveryRemembered(c, capacity, log, Event(key, now, true));
          TouchKeepsDistinct(c, key);
          RemoveForgets(Touch(c, key), key);
          Forget(lru, key);
        } else {
          // A duplicate.
          DuplicateRemembered(c, capacity, log, Event(key, now, false));
          return false;
        }
      } else {
        // Expires the oldest data.
        DeliveryRemembered(c, capacity, log, Event(key, now, true));
        if LastDelivery(log, key).At? {
          ForgottenIsOld(c, capacity, log, key);
        }
        RoomMade(c, capacity, key);
        if lru.table.size == lru.capacity {
          var eldest := lru.Peek();
          Forget(lru, eldest.value.key);
        }
      }
      Remember(lru, key, now);
      return true;
    }

    /** lrumap_remove and pool_free of the key. */
    method Forget(lru: Lrumap<Key, int>, key: Key)
      requires lru.Valid() && Owned(lru.Bindings(), buffers, free, capacity) && Has(lru.Bindings(), key)
      modifies this`buffers, this`free, lru, lru.table
      ensures lru.Valid() && lru.Bindings() == Lru.Remove(old(lru.Bindings()), key)
      ensures Owned(lru.Bindings(), buffers, free, capacity)
    {
      hide Lru.Remove, Lrumap.Valid, Order, Owned, Find;
      RemoveOwned(lru.Bindings(), buffers, free, capacity, key);
      var removed := lru.Remove(key);
      free, buffers := free + [buffers[key]], buffers - {key};
    }

    /** pool_new, which does not fail, and lrumap_put. */
    method Remember(lru: Lrumap<Key, int>, key: Key, now: int)
      requires lru.Valid() && lru.capacity == capacity && Owned(lru.Bindings(), buffers, free, capacity)
      requires !Has(lru.Bindings(), key) && |lru.Bindings()| < capacity
      modifies this`buffers, this`free, lru, lru.table
      ensures lru.Valid() && lru.Bindings() == Lru.Put(old(lru.Bindings()), key, now)
      ensures Owned(lru.Bindings(), buffers, free, capacity)
    {
      hide Lru.Put, Lrumap.Valid, Order, Owned, Find;
      OwnedSizes(lru.Bindings(), buffers, free, capacity);
      PutOwned(lru.Bindings(), buffers, free, capacity, key, now);
      buffers, free := buffers[key := free[0]], free[1..];
      var ok := lru.Put(key, now);
    }
  }
}
