/**
 src/main/tunnel/nt_dup_fec.c: every message is sent N times, and the decoder
 keeps copies back with an LRU map of block ids and a timeout.
 */
module DupFec {
  import opened Lru
  import opened HashMap
  import opened LruStore
  import opened LruMap
  import opened Dedup
  import opened FecHeaders

  const NT_DUP_FEC_TAG := 49

  /** nt_dup_fec_t, with the log of every packet with a valid header that its decoder met. */
  class Decoder {
    const capacity: nat
    const dedupTimeout: int
    const cache: Lrumap?<nat, int>
    ghost var log: seq<Event<nat>>

    ghost predicate Valid()
      reads this, cache, if cache == null then {} else {cache.table}
    {
      && Deduplicated(log, capacity, dedupTimeout)
      && (cache == null <==> capacity == 0)
      && (cache != null ==>
          && cache.capacity == capacity && cache.Valid() && Remembers(cache.Bindings(), capacity, log))
    }

    /**
     nt_dup_fec_init; capacity 0 disables deduplication, and the hash map inside
     the LRU map has no buckets for a capacity of 1.
     */
    constructor (capacity: nat, dedupTimeout: int)
      requires capacity == 0 || Sizes(ThreeQuartersOf, capacity)
      ensures Valid() && log == [] && this.capacity == capacity && this.dedupTimeout == dedupTimeout
      ensures cache != null ==> fresh(cache) && fresh(cache.table)
    {
      hide Lrumap.Valid, Order, Deduplicated, Remembers;
      this.capacity := capacity;
      this.dedupTimeout := dedupTimeout;
      log := [];
      NothingMet<nat>(capacity, dedupTimeout);
      if capacity == 0 {
        cache := null;
      } else {
        var lru := new Lrumap<nat, int>(capacity, (id: nat) => id, ThreeQuartersOf, Entry(0, 0));
        cache := lru;
      }
    }

    /** nt_dup_fec_decode; the message is handed to the callback exactly if delivered. */
    method Decode(header: FecHeader, current: int) returns (err: int, delivered: bool)
      requires Valid()
      modifies this`log, cache, if cache == null then {} else {cache.table}
      ensures Valid()
      ensures err == if header.tag == 49 && header.K == 1 then 0 else E_FEC_INVALID_HEADER
      ensures header.tag != 49 || header.K != 1 ==> !delivered && log == old(log)
      ensures header.tag == 49 && header.K == 1 ==>
                && (delivered <==> Due(old(log), header.blockId, current, capacity, dedupTimeout))
                && log == old(log) + [Event(header.blockId, current, delivered)]
    {
      hide Deduplicated, Remembers, LastDelivery, ReceivedSince, Lrumap.Valid, Order;
      if header.tag != NT_DUP_FEC_TAG || header.K != 1 {
        return E_FEC_INVALID_HEADER, false;
      }
      delivered := true;
      if cache != null {
        delivered := Filter(cache, header.blockId, current);
      } else {
        DisabledIsDue(log, header.blockId, current, dedupTimeout);
      }
      ghost var e := Event(header.blockId, current, delivered);
      DeduplicatedNext(log, e, capacity, dedupTimeout);
      log := log + [e];
      err := 0;
    }

    /** Over every run so far, a copy is delivered again exactly if it has come late enough, or enough others have. */
    lemma AgainExactly(i: nat, r: nat, j: nat)
      requires Valid() && Follows(log, i, r, j)
      ensures log[j].delivered <==>
                log[j].time - log[i].time > dedupTimeout || |set m: nat | r < m < j :: log[m].id| >= capacity
    {
      hide Remembers, Lrumap.Valid, Order, Deduplicated;
      AgainIff(log, capacity, dedupTimeout, i, r, j);
    }

    /** And what is not delivered is a copy that has come in time, with fewer others since. */
    lemma OnlyCopiesAreHeldBack(j: nat) returns (i: nat, r: nat)
      requires Valid() && j < |log| && !log[j].delivered
      ensures i <= r < j && log[i].id == log[r].id == log[j].id && log[i].delivered
      ensures forall m :: r < m < j ==> log[m].id != log[j].id
      ensures log[j].time - log[i].time <= dedupTimeout && |set m: nat | r < m < j :: log[m].id| < capacity
    {
      hide Remembers, Lrumap.Valid, Order, Deduplicated;
      i, r := HeldBack(log, capacity, dedupTimeout, j);
    }

    /** The deduplication of nt_dup_fec_decode. */
    method Filter(lru: Lrumap<nat, int>, id: nat, current: int) returns (delivered: bool)
      requires lru.Valid() && lru.capacity == capacity > 0 && Remembers(lru.Bindings(), capacity, log)
      modifies lru, lru.table
      ensures lru.Valid() && (delivered <==> Due(log, id, current, capacity, dedupTimeout))
      ensures Remembers(lru.Bindings(), capacity, log + [Event(id, current, delivered)])
    {
      hide Remembers, LastDelivery, ReceivedSince, Find, Touch, Lru.Remove, Lru.Put, MakeRoom, DistinctKeys,
           Lrumap.Valid, Order;
      ghost var c := lru.Bindings();
      lru.Facts();
      var found := lru.Get(id);
      if found.Some? {
        CachedTime(c, capacity, log, id);
        CachedIsRecent(c, capacity, log, id);
        if current - found.value.value > dedupTimeout {
          // The entry has expired.
          RedeliveryRemembered(c, capacity, log, Event(id, current, true));
          TouchThenRemove(c, id);
          TouchKeepsDistinct(c, id);
          RemoveForgets(Touch(c, id), id);
          var removed := lru.Remove(id);
        } else {
          // A duplicate.
          DuplicateRemembered(c, capacity, log, Event(id, current, false));
          return false;
        }
      } else {
        // Expires the oldest binding if there is no room.
        DeliveryRemembered(c, capacity, log, Event(id, current, true));
        if LastDelivery(log, id).At? {
          ForgottenIsOld(c, capacity, log, id);
        }
        RoomMade(c, capacity, id);
        if lru.table.size == lru.capacity {
          var eldest := lru.Peek();
          var removed := lru.Remove(eldest.value.key);
        }
      }
      lru.Facts();
      var ok := lru.Put(id, current);
      return true;
    }
  }
}
