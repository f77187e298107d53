/**
 Deduplication with an LRU map of delivery times, as src/main/tunnel/nt_dup_fec.c and
 src/main/tunnel/nt_echo_listener.c do it: what the cache remembers, and what that
 means over a whole history of receptions.
 */
module Dedup {
  import opened Collections
  import opened Lru

  /** A reception of a key, and whether it was delivered. */
  datatype Event<K> = Event(id: K, time: int, delivered: bool)

  // ----- Recency of the ids received.

  function Excluding<K(==)>(ids: seq<K>, id: K): seq<K>
  {
    if ids == [] then []
    else if ids[0] == id then Excluding(ids[1..], id)
    else [ids[0]] + Excluding(ids[1..], id)
  }

  lemma {:induction false} ExcludingMembers<K>(ids: seq<K>, id: K)
    ensures forall x :: x in Excluding(ids, id) <==> x in ids && x != id
  {
    if ids != [] {
      ExcludingMembers(ids[1..], id);
    }
  }

  /** The distinct ids received, the last received first. */
  ghost function ByRecency<K>(log: seq<Event<K>>): seq<K> {
    if log == [] then []
    else
      var id := log[|log| - 1].id;
      [id] + Excluding(ByRecency(log[..|log| - 1]), id)
  }

  /** The ids received since id was last received. */
  ghost function ReceivedSince<K>(log: seq<Event<K>>, id: K): set<K> {
    if log == [] || log[|log| - 1].id == id then {}
    else ReceivedSince(log[..|log| - 1], id) + {log[|log| - 1].id}
  }

  ghost predicate Received<K>(log: seq<Event<K>>, id: K) {
    exists i :: 0 <= i < |log| && log[i].id == id
  }

  datatype Delivery = Never | At(time: int)

  /** The last delivery of id. */
  ghost function LastDelivery<K>(log: seq<Event<K>>, id: K): Delivery {
    if log == [] then Never
    else
      var e := log[|log| - 1];
      if e.id == id && e.delivered then At(e.time) else LastDelivery(log[..|log| - 1], id)
  }

  lemma {:induction false} RecencyIsDistinct<K>(log: seq<Event<K>>)
    ensures Distinct(ByRecency(log))
  {
    if log != [] {
      var front, id := log[..|log| - 1], log[|log| - 1].id;
      RecencyIsDistinct(front);
      ExcludingIsDistinct(ByRecency(front), id);
      ExcludingMembers(ByRecency(front), id);
      ConsIsDistinct(id, Excluding(ByRecency(front), id));
    }
  }

  lemma ConsIsDistinct<K>(x: K, ids: seq<K>)
    requires Distinct(ids) && x !in ids
    ensures Distinct([x] + ids)
  {
  }

  lemma {:induction false} ExcludingIsDistinct<K>(ids: seq<K>, id: K)
    requires Distinct(ids)
    ensures Distinct(Excluding(ids, id))
  {
    if ids != [] {
      ExcludingIsDistinct(ids[1..], id);
      ExcludingMembers(ids[1..], id);
      assert ids[0] !in ids[1..];
      ConsIsDistinct(ids[0], Excluding(ids[1..], id));
    }
  }

  /** The elements of ids in front of id. */
  ghost function Before<K>(ids: seq<K>, id: K): set<K> {
    if ids == [] || ids[0] == id then {} else {ids[0]} + Before(ids[1..], id)
  }

  lemma {:induction false} BeforeWithout<K>(ids: seq<K>, x: K, id: K)
    requires x != id
    ensures Before(Excluding(ids, x), id) == Before(ids, id) - {x}
  {
    if ids != [] {
      BeforeWithout(ids[1..], x, id);
    }
  }

  /** The ids in front of a received id are those received since. */
  lemma {:induction false} BeforeIsReceivedSince<K>(log: seq<Event<K>>, id: K)
    ensures Before(ByRecency(log), id) == ReceivedSince(log, id)
  {
    if log != [] {
      var front, x := log[..|log| - 1], log[|log| - 1].id;
      BeforeIsReceivedSince(front, id);
      if x != id {
        BeforeWithout(ByRecency(front), x, id);
        assert ByRecency(log)[1..] == Excluding(ByRecency(front), x);
      }
    }
  }

  lemma {:induction false} BeforeIsLarge<K>(ids: seq<K>, id: K, n: nat)
    requires Distinct(ids) && n <= |ids| && id !in ids[..n]
    ensures |Before(ids, id)| >= n
  {
    if n != 0 {
      assert ids[0] == ids[..n][0];
      assert ids[1..][..n - 1] == ids[..n][1..];
      BeforeIsLarge(ids[1..], id, n - 1);
      BeforeAreMembers(ids[1..], id);
    }
  }

  lemma {:induction false} BeforeAreMembers<K>(ids: seq<K>, id: K)
    ensures forall x :: x in Before(ids, id) ==> x in ids
  {
    if ids != [] {
      BeforeAreMembers(ids[1..], id);
    }
  }

  // ----- The cache remembers the most recent ids.

  ghost function Keys<K>(c: Recency<K, int>): (ks: seq<K>)
    ensures |ks| == |c| && forall i :: 0 <= i < |c| ==> ks[i] == c[i].key
  {
    seq(|c|, i requires 0 <= i < |c| => c[i].key)
  }

  /** The keys are the capacity first of ids, or all of them. */
  ghost predicate Recent<K>(ks: seq<K>, capacity: nat, ids: seq<K>) {
    |ks| <= capacity && ks <= ids && (|ks| < capacity ==> ks == ids)
  }

  /** Every cached time is that of the last delivery. */
  ghost predicate Timed<K>(c: Recency<K, int>, log: seq<Event<K>>) {
    forall i :: 0 <= i < |c| ==> LastDelivery(log, c[i].key) == At(c[i].value)
  }

  /** The cache holds the capacity most recently received ids, with their last delivery. */
  ghost predicate Remembers<K>(c: Recency<K, int>, capacity: nat, log: seq<Event<K>>) {
    Recent(Keys(c), capacity, ByRecency(log)) && Timed(c, log)
  }

  /** A prefix of ids that does not hold id keeps standing in front when id is taken out. */
  lemma {:induction false} ExcludingKeepsPrefix<K>(prefix: seq<K>, ids: seq<K>, id: K)
    requires prefix <= ids && id !in prefix
    ensures prefix <= Excluding(ids, id)
  {
    if prefix != [] {
      assert prefix[0] == ids[0];
      ExcludingKeepsPrefix(prefix[1..], ids[1..], id);
    }
  }

  /** A prefix that holds id loses it with the rest. */
  lemma {:induction false} ExcludingFromPrefix<K>(prefix: seq<K>, ids: seq<K>, id: K)
    requires prefix <= ids && Distinct(ids) && id in prefix
    ensures Excluding(prefix, id) <= Excluding(ids, id)
    ensures prefix == ids ==> Excluding(prefix, id) == Excluding(ids, id)
  {
    assert prefix[0] == ids[0];
    if ids[0] == id {
      assert id !in ids[1..];
      ExcludingAbsent(ids[1..], id);
      ExcludingAbsent(prefix[1..], id);
    } else {
      ExcludingFromPrefix(prefix[1..], ids[1..], id);
    }
  }

  lemma {:induction false} ExcludingAbsent<K>(ids: seq<K>, id: K)
    requires id !in ids
    ensures Excluding(ids, id) == ids
  {
    if ids != [] {
      ExcludingAbsent(ids[1..], id);
    }
  }

  lemma {:induction false} KeysOfTouch<K>(c: Recency<K, int>, key: K)
    requires DistinctKeys(c) && Has(c, key)
    ensures Keys(Touch(c, key)) == [key] + Excluding(Keys(c), key)
  {
    KeysOfRemove(c, key);
    assert Keys(Touch(c, key)) == [key] + Keys(Remove(c, key));
  }

  lemma RemoveFromTail<K>(c: Recency<K, int>, key: K)
    requires DistinctKeys(c) && Has(c, key) && c[0].key != key
    ensures DistinctKeys(c[1..]) && Has(c[1..], key) && Remove(c, key) == [c[0]] + Remove(c[1..], key)
  {
  }

  lemma {:induction false} KeysOfRemove<K>(c: Recency<K, int>, key: K)
    requires DistinctKeys(c) && Has(c, key)
    ensures Keys(Remove(c, key)) == Excluding(Keys(c), key)
  {
    var ks := Keys(c);
    if c[0].key == key {
      assert key !in ks[1..];
      ExcludingAbsent(ks[1..], key);
      assert Keys(Remove(c, key)) == ks[1..];
    } else {
      RemoveFromTail(c, key);
      hide Remove, Has, Find, DistinctKeys;
      KeysOfRemove(c[1..], key);
      assert Keys(c[1..]) == ks[1..];
      assert Keys(Remove(c, key)) == [c[0].key] + Keys(Remove(c[1..], key));
    }
  }

  lemma KeysDistinct<K>(c: Recency<K, int>, capacity: nat, log: seq<Event<K>>)
    requires Recent(Keys(c), capacity, ByRecency(log))
    ensures DistinctKeys(c)
  {
    hide ByRecency;
    RecencyIsDistinct(log);
    assert forall i :: 0 <= i < |c| ==> c[i].key == ByRecency(log)[i];
  }

  lemma HasIsMember<K>(c: Recency<K, int>, key: K)
    ensures Has(c, key) <==> key in Keys(c)
  {
    if Has(c, key) {
      assert Keys(c)[Find(c, key)] == key;
    }
  }

  lemma {:induction false} ExcludingSize<K>(ids: seq<K>, id: K)
    requires Distinct(ids) && id in ids
    ensures |Excluding(ids, id)| == |ids| - 1
  {
    if ids[0] == id {
      assert id !in ids[1..];
      ExcludingAbsent(ids[1..], id);
    } else {
      ExcludingSize(ids[1..], id);
    }
  }

  /** Receiving a cached id. */
  lemma RecentHit<K>(ks: seq<K>, capacity: nat, ids: seq<K>, id: K)
    requires Recent(ks, capacity, ids) && Distinct(ids) && id in ks
    ensures Recent([id] + Excluding(ks, id), capacity, [id] + Excluding(ids, id))
  {
    assert Distinct(ks);
    hide Excluding, Distinct;
    ExcludingSize(ks, id);
    ExcludingFromPrefix(ks, ids, id);
  }

  /** Receiving an id that is not cached. */
  lemma RecentMiss<K>(ks: seq<K>, capacity: nat, ids: seq<K>, id: K)
    requires Recent(ks, capacity, ids) && id !in ks && capacity > 0
    ensures Recent([id] + (if |ks| == capacity then ks[..|ks| - 1] else ks), capacity, [id] + Excluding(ids, id))
  {
    hide Excluding;
    var kept := if |ks| == capacity then ks[..|ks| - 1] else ks;
    ExcludingKeepsPrefix(kept, ids, id);
    if |ks| < capacity {
      ExcludingAbsent(ids, id);
    }
  }

  lemma OneMoreEvent<K>(log: seq<Event<K>>, e: Event<K>)
    ensures ByRecency(log + [e]) == [e.id] + Excluding(ByRecency(log), e.id)
    ensures forall id ::
              LastDelivery(log + [e], id) == if e.id == id && e.delivered then At(e.time) else LastDelivery(log, id)
  {
    assert (log + [e])[..|log|] == log;
  }

  /** A duplicate only moves its key to the front. */
  lemma DuplicateRemembered<K>(c: Recency<K, int>, capacity: nat, log: seq<Event<K>>, e: Event<K>)
    requires Remembers(c, capacity, log) && Has(c, e.id) && !e.delivered
    ensures Remembers(Touch(c, e.id), capacity, log + [e])
  {
    hide ByRecency, LastDelivery, Recent, Excluding, Find, DistinctKeys;
    KeysDistinct(c, capacity, log);
    RecencyIsDistinct(log);
    HasIsMember(c, e.id);
    OneMoreEvent(log, e);
    KeysOfTouch(c, e.id);
    RecentHit(Keys(c), capacity, ByRecency(log), e.id);
  }

  /** A new binding in front of older ones that do not have its key. */
  lemma TimedPut<K>(c: Recency<K, int>, log: seq<Event<K>>, e: Event<K>)
    requires Timed(c, log) && e.id !in Keys(c) && e.delivered
    ensures Timed(Put(c, e.id, e.time), log + [e]) && Keys(Put(c, e.id, e.time)) == [e.id] + Keys(c)
  {
    hide LastDelivery, ByRecency;
    OneMoreEvent(log, e);
    var r := Put(c, e.id, e.time);
    forall i | 0 <= i < |r| ensures LastDelivery(log + [e], r[i].key) == At(r[i].value) {
      if i > 0 {
        assert r[i] == c[i - 1] && Keys(c)[i - 1] == c[i - 1].key;
      }
    }
  }

  /** A delivery whose key was cached replaces the binding. */
  lemma RedeliveryRemembered<K>(c: Recency<K, int>, capacity: nat, log: seq<Event<K>>, e: Event<K>)
    requires Remembers(c, capacity, log) && Has(c, e.id) && e.delivered
    ensures DistinctKeys(c) && Has(Touch(c, e.id), e.id)
    ensures Remembers(Put(Remove(Touch(c, e.id), e.id), e.id, e.time), capacity, log + [e])
  {
    hide ByRecency, LastDelivery, Recent, Find, DistinctKeys, Has, Touch, Remove, Timed, Put, Excluding, Keys;
    KeysDistinct(c, capacity, log);
    RecencyIsDistinct(log);
    HasIsMember(c, e.id);
    TouchThenRemove(c, e.id);
    OneMoreEvent(log, e);
    KeysOfRemove(c, e.id);
    RecentHit(Keys(c), capacity, ByRecency(log), e.id);
    TimedRemove(c, log, e.id);
    ExcludingMembers(Keys(c), e.id);
    TimedPut(Remove(c, e.id), log, e);
  }

  lemma TimedRemove<K>(c: Recency<K, int>, log: seq<Event<K>>, key: K)
    requires Timed(c, log) && Has(c, key)
    ensures Timed(Remove(c, key), log)
  {
    hide LastDelivery, Find;
  }

  lemma TouchThenRemove<K>(c: Recency<K, int>, key: K)
    requires DistinctKeys(c) && Has(c, key)
    ensures Has(Touch(c, key), key) && Remove(Touch(c, key), key) == Remove(c, key)
  {
  }

  /** A full cache without its eldest binding. */
  function MakeRoom<K(==)>(c: Recency<K, int>, capacity: nat): Recency<K, int> {
    if |c| == capacity && c != [] then
      EldestIsPresent(c);
      Remove(c, Eldest(c).key)
    else c
  }

  /** A delivery whose key was not cached evicts the eldest binding if the cache is full. */
  lemma DeliveryRemembered<K>(c: Recency<K, int>, capacity: nat, log: seq<Event<K>>, e: Event<K>)
    requires Remembers(c, capacity, log) && !Has(c, e.id) && e.delivered && capacity > 0
    ensures Remembers(Put(MakeRoom(c, capacity), e.id, e.time), capacity, log + [e])
  {
    hide ByRecency, LastDelivery, Recent, Has, Remove;
    KeysDistinct(c, capacity, log);
    if c != [] {
      RemoveEldest(c);
    }
    HasIsMember(c, e.id);
    OneMoreEvent(log, e);
    RecentMiss(Keys(c), capacity, ByRecency(log), e.id);
    var d := MakeRoom(c, capacity);
    assert Keys(d) == if |Keys(c)| == capacity then Keys(c)[..|c| - 1] else Keys(c);
    assert Timed(d, log);
    TimedPut(d, log, e);
  }

  // ----- Deduplication over a whole history.

  /**
   Whether what is received after log is to be delivered: its id was never
   delivered, or its last delivery is more than the timeout ago, or at least
   capacity other ids were received since the id was last received.
   */
  ghost predicate Due<K>(log: seq<Event<K>>, id: K, time: int, capacity: nat, timeout: int) {
    match LastDelivery(log, id)
    case Never => true
    case At(last) => time - last > timeout || |ReceivedSince(log, id)| >= capacity
  }

  /** In a whole run, exactly what was due was delivered. */
  ghost predicate Deduplicated<K>(log: seq<Event<K>>, capacity: nat, timeout: int) {
    forall j :: 0 <= j < |log| ==>
      (log[j].delivered <==> Due(log[..j], log[j].id, log[j].time, capacity, timeout))
  }

  lemma DeduplicatedNext<K>(log: seq<Event<K>>, e: Event, capacity: nat, timeout: int)
    requires Deduplicated(log, capacity, timeout) && (e.delivered <==> Due(log, e.id, e.time, capacity, timeout))
    ensures Deduplicated(log + [e], capacity, timeout)
  {
    hide Due;
    var longer := log + [e];
    forall j | 0 <= j < |longer|
      ensures longer[j].delivered <==> Due(longer[..j], longer[j].id, longer[j].time, capacity, timeout)
    {
      if j < |log| {
        assert longer[..j] == log[..j];
      } else {
        assert longer[..j] == log;
      }
    }
  }

  // ----- The same, told by the places in the log.

  /** Reception j has a delivery of its id before it, of which i is the last; and r is the last reception before j. */
  ghost predicate Follows<K>(log: seq<Event<K>>, i: nat, r: nat, j: nat) {
    && i <= r < j < |log| && log[i].id == log[r].id == log[j].id && log[i].delivered
    && (forall m :: i < m < j && log[m].id == log[j].id ==> !log[m].delivered)
    && (forall m :: r < m < j ==> log[m].id != log[j].id)
  }

  /** The ids received between two places. */
  ghost function Between<K>(log: seq<Event<K>>, r: nat, j: nat): set<K>
    requires j <= |log|
  {
    set m: nat | r < m < j :: log[m].id
  }

  lemma {:induction false} LastDeliveryAt<K>(log: seq<Event<K>>, i: nat, j: nat, id: K)
    requires i < j <= |log| && log[i].id == id && log[i].delivered
    requires forall m :: i < m < j && log[m].id == id ==> !log[m].delivered
    ensures LastDelivery(log[..j], id) == At(log[i].time)
  {
    assert log[..j][..j - 1] == log[..j - 1];
    if i < j - 1 {
      LastDeliveryAt(log, i, j - 1, id);
    }
  }

  lemma {:induction false} NeverDelivered<K>(log: seq<Event<K>>, j: nat, id: K)
    requires j <= |log| && forall m :: 0 <= m < j && log[m].id == id ==> !log[m].delivered
    ensures LastDelivery(log[..j], id) == Never
  {
    if j > 0 {
      assert log[..j][..j - 1] == log[..j - 1];
      NeverDelivered(log, j - 1, id);
    }
  }

  lemma {:induction false} ReceivedBetween<K>(log: seq<Event<K>>, r: nat, j: nat, id: K)
    requires r < j <= |log| && log[r].id == id && forall m :: r < m < j ==> log[m].id != id
    ensures ReceivedSince(log[..j], id) == Between(log, r, j)
  {
    assert log[..j][..j - 1] == log[..j - 1];
    if r < j - 1 {
      ReceivedBetween(log, r, j - 1, id);
      assert Between(log, r, j) == Between(log, r, j - 1) + {log[j - 1].id};
    } else {
      assert Between(log, r, j) == {};
    }
  }

  /**
   In a whole run, an id that was delivered before is delivered again exactly if that was
   more than the timeout ago, or capacity other ids have come since it was last received.
   */
  lemma AgainIff<K>(log: seq<Event<K>>, capacity: nat, timeout: int, i: nat, r: nat, j: nat)
    requires Deduplicated(log, capacity, timeout) && Follows(log, i, r, j)
    ensures log[j].delivered <==>
              log[j].time - log[i].time > timeout || |set m: nat | r < m < j :: log[m].id| >= capacity
  {
    hide ReceivedSince, LastDelivery;
    LastDeliveryAt(log, i, j, log[j].id);
    ReceivedBetween(log, r, j, log[j].id);
    assert log[j].delivered <==> Due(log[..j], log[j].id, log[j].time, capacity, timeout);
  }

  /** An id that was never delivered is delivered. */
  lemma FirstIsDelivered<K>(log: seq<Event<K>>, capacity: nat, timeout: int, j: nat)
    requires Deduplicated(log, capacity, timeout) && j < |log|
    requires forall m :: 0 <= m < j && log[m].id == log[j].id ==> !log[m].delivered
    ensures log[j].delivered
  {
    hide LastDelivery;
    NeverDelivered(log, j, log[j].id);
    assert log[j].delivered <==> Due(log[..j], log[j].id, log[j].time, capacity, timeout);
  }

  /** The last of the places before j that satisfies p. */
  lemma {:induction false} LastBefore(p: nat -> bool, j: nat, some: nat) returns (i: nat)
    requires some < j && p(some)
    ensures some <= i < j && p(i) && forall m: nat :: i < m < j ==> !p(m)
  {
    if p(j - 1) {
      i := j - 1;
    } else {
      i := LastBefore(p, j - 1, some);
    }
  }

  /** What is not delivered has been delivered within the timeout, and fewer than capacity other ids have come since. */
  lemma HeldBack<K>(log: seq<Event<K>>, capacity: nat, timeout: int, j: nat) returns (i: nat, r: nat)
    requires Deduplicated(log, capacity, timeout) && j < |log| && !log[j].delivered
    ensures Follows(log, i, r, j)
    ensures log[j].time - log[i].time <= timeout && |set m: nat | r < m < j :: log[m].id| < capacity
  {
    hide Deduplicated;
    if forall m :: 0 <= m < j && log[m].id == log[j].id ==> !log[m].delivered {
      FirstIsDelivered(log, capacity, timeout, j);
    }
    var some: nat :| some < j && log[some].id == log[j].id && log[some].delivered;
    var delivery := (m: nat) => m < j && log[m].id == log[j].id && log[m].delivered;
    var reception := (m: nat) => m < j && log[m].id == log[j].id;
    i := LastBefore(delivery, j, some);
    r := LastBefore(reception, j, i);
    forall m | i < m < j && log[m].id == log[j].id ensures !log[m].delivered {
      assert !delivery(m);
    }
    forall m | r < m < j ensures log[m].id != log[j].id {
      assert !reception(m);
    }
    AgainIff(log, capacity, timeout, i, r, j);
  }

  /** A cached id has not seen capacity others pass. */
  lemma CachedIsRecent<K>(c: Recency<K, int>, capacity: nat, log: seq<Event<K>>, id: K)
    requires Remembers(c, capacity, log) && Has(c, id)
    ensures |ReceivedSince(log, id)| < capacity
  {
    hide LastDelivery, ReceivedSince, ByRecency;
    var p := Find(c, id);
    assert ByRecency(log)[p] == Keys(c)[p] == id;
    BeforeIsReceivedSince(log, id);
    BeforeIsSmall(ByRecency(log), id, p);
  }

  lemma {:induction false} BeforeIsSmall<K>(ids: seq<K>, id: K, p: nat)
    requires p < |ids| && ids[p] == id
    ensures |Before(ids, id)| <= p
  {
    if ids[0] != id {
      BeforeIsSmall(ids[1..], id, p - 1);
    }
  }

  /** An id that has fallen out of the cache has seen capacity others pass. */
  lemma ForgottenIsOld<K>(c: Recency<K, int>, capacity: nat, log: seq<Event<K>>, id: K)
    requires Remembers(c, capacity, log) && !Has(c, id) && LastDelivery(log, id).At?
    ensures |ReceivedSince(log, id)| >= capacity
  {
    hide LastDelivery, Has, ReceivedSince, ByRecency;
    DeliveredIsReceived(log, id);
    HasIsMember(c, id);
    RecencyIsDistinct(log);
    BeforeIsReceivedSince(log, id);
    assert ByRecency(log)[..|c|] == Keys(c);
    BeforeIsLarge(ByRecency(log), id, |c|);
  }

  lemma {:induction false} DeliveredIsReceived<K>(log: seq<Event<K>>, id: K)
    requires LastDelivery(log, id).At?
    ensures id in ByRecency(log)
  {
    var e := log[|log| - 1];
    if e.id == id {
      assert ByRecency(log)[0] == id;
    } else {
      DeliveredIsReceived(log[..|log| - 1], id);
      ExcludingMembers(ByRecency(log[..|log| - 1]), e.id);
    }
  }

  lemma DisabledIsDue<K>(log: seq<Event<K>>, id: K, time: int, timeout: int)
    ensures Due(log, id, time, 0, timeout)
  {
  }

  lemma CachedTime<K>(c: Recency<K, int>, capacity: nat, log: seq<Event<K>>, id: K)
    requires Remembers(c, capacity, log) && Has(c, id)
    ensures LastDelivery(log, id) == At(c[Find(c, id)].value)
  {
  }

  lemma NothingMet<K>(capacity: nat, timeout: int)
    ensures Deduplicated<K>([], capacity, timeout) && Remembers<K>([], capacity, [])
  {
    assert Keys<K>([]) == [];
  }

  lemma RoomMade<K>(c: Recency<K, int>, capacity: nat, id: K)
    requires DistinctKeys(c) && |c| <= capacity && capacity > 0 && !Has(c, id)
    ensures |MakeRoom(c, capacity)| < capacity && !Has(MakeRoom(c, capacity), id)
    ensures |c| == capacity ==> Has(c, Eldest(c).key) && MakeRoom(c, capacity) == Remove(c, Eldest(c).key)
    ensures |c| < capacity ==> MakeRoom(c, capacity) == c
  {
    if |c| == capacity {
      RemoveEldest(c);
    }
    hide Find;
  }
}
