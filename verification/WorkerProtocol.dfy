/**
 The message protocol between listener threads and worker threads
 (src/main/dispatcher/worker.c, pool.c, src/main/tunnel/nt_listener.c), as
 interleaved atomic steps. Every listener has a pool of receive buffers and may
 send each of them to any worker; every worker has a pool of message slots, a
 message queue and an eventfd counter. A mutex makes every queue operation
 atomic. The state records that the program has aborted when one of the
 ensure(...) calls fails.
 */
module WorkerProtocol {

  /** A receive buffer remembers the pool it belongs to. */
  datatype Buffer = Buffer(owner: nat, id: nat)

  datatype Message = Message(slot: nat, data: Buffer)

  /** Where a listener thread is. */
  datatype Listener =
    | Idle
    | Received(buffer: Buffer)                      // it owns a buffer from its pool
    | Claimed(buffer: Buffer, to: nat, slot: nat)   // worker_send has a message slot of worker to
    | Queued(to: nat)                               // worker_send has pushed, but not yet written

  /** Where the eventfd callback of a worker is. */
  datatype Phase =
    | Waiting
    | Draining(left: nat)                           // the loop still has to pop left messages
    | Handling(left: nat, message: Message)         // a message is popped
    | Releasing(left: nat, slot: nat)               // its data are freed, its slot is not

  /** A worker, and what it has accepted and handled so far. */
  datatype Worker = Worker(slots: seq<nat>, mq: seq<Message>, counter: nat, phase: Phase,
                           accepted: seq<Buffer>, handled: seq<Buffer>)

  datatype State = State(pools: seq<seq<Buffer>>, listeners: seq<Listener>, workers: seq<Worker>, aborted: bool)

  /** The capacities of the listeners' pools, and of the workers' message queues and slot pools. */
  datatype Config = Config(buffers: seq<nat>, slots: seq<nat>)

  // ----- The steps.

  ghost predicate Shaped(c: Config, s: State) {
    && |s.pools| == |s.listeners| == |c.buffers| && |s.workers| == |c.slots|
    && forall i :: 0 <= i < |s.listeners| && (s.listeners[i].Claimed? || s.listeners[i].Queued?) ==>
         s.listeners[i].to < |s.workers|
  }

  /** pool_free of a receive buffer: pushes it to the pool it came from; the ensure aborts on a full queue. */
  ghost function FreeBuffer(c: Config, s: State, b: Buffer): State
    requires Shaped(c, s)
  {
    if b.owner < |s.pools| && |s.pools[b.owner]| < c.buffers[b.owner]
    then s.(pools := s.pools[b.owner := s.pools[b.owner] + [b]])
    else s.(aborted := true)
  }

  /** pool_new of a receive buffer. */
  ghost predicate TakeBuffer(c: Config, s: State, s': State, i: nat)
    requires Shaped(c, s)
  {
    && i < |s.listeners| && s.listeners[i].Idle? && s.pools[i] != []
    && s' == s.(pools := s.pools[i := s.pools[i][1..]],
                listeners := s.listeners[i := Received(s.pools[i][0])])
  }

  /** The cleanup of the listener: nothing usable was received, or the worker is busy. */
  ghost predicate DropBuffer(c: Config, s: State, s': State, i: nat)
    requires Shaped(c, s)
  {
    && i < |s.listeners| && s.listeners[i].Received?
    && s' == FreeBuffer(c, s, s.listeners[i].buffer).(listeners := s.listeners[i := Idle])
  }

  /** worker_send to worker w: pool_new of a message slot; without one the listener can only drop the buffer. */
  ghost predicate ClaimSlot(c: Config, s: State, s': State, i: nat, w: nat)
    requires Shaped(c, s)
  {
    && i < |s.listeners| && s.listeners[i].Received? && w < |s.workers| && s.workers[w].slots != []
    && s' == s.(workers := s.workers[w := s.workers[w].(slots := s.workers[w].slots[1..])],
                listeners := s.listeners[i := Claimed(s.listeners[i].buffer, w, s.workers[w].slots[0])])
  }

  /** worker_send: conqueue_push, whose ensure aborts on a full queue. */
  ghost predicate Enqueue(c: Config, s: State, s': State, i: nat)
    requires Shaped(c, s)
  {
    && i < |s.listeners| && s.listeners[i].Claimed?
    && var w := s.listeners[i].to;
       s' == if |s.workers[w].mq| < c.slots[w]
             then s.(workers := s.workers[w := Pushed(s.workers[w],
                                                      Message(s.listeners[i].slot, s.listeners[i].buffer))],
                     listeners := s.listeners[i := Queued(w)])
             else s.(aborted := true)
  }

  ghost function Pushed(w: Worker, m: Message): Worker {
    w.(mq := w.mq + [m], accepted := w.accepted + [m.data])
  }

  /** The counter of an eventfd goes up to 2^64 - 2; a write beyond that fails. */
  const EVENTFD_MAX := 0xFFFF_FFFF_FFFF_FFFE

  /** Capacities are of type size_t, and a queue has one entry more than its capacity. */
  ghost predicate Addressable(c: Config) {
    forall k :: 0 <= k < |c.slots| ==> c.slots[k] <= EVENTFD_MAX
  }

  /** worker_send: the write to the eventfd, whose ensure aborts if the counter is full. */
  ghost predicate Signal(c: Config, s: State, s': State, i: nat)
    requires Shaped(c, s)
  {
    && i < |s.listeners| && s.listeners[i].Queued?
    && var w := s.listeners[i].to;
       s' == if s.workers[w].counter < EVENTFD_MAX
             then s.(workers := s.workers[w := s.workers[w].(counter := s.workers[w].counter + 1)],
                     listeners := s.listeners[i := Idle])
             else s.(aborted := true)
  }

  /** callback: the read of the eventfd takes the whole counter. */
  ghost predicate Wake(w: Worker, w': Worker) {
    w.phase.Waiting? && w.counter > 0 && w' == w.(counter := 0, phase := Draining(w.counter))
  }

  /** callback: the end of the loop. */
  ghost predicate Finish(w: Worker, w': Worker) {
    w.phase.Draining? && w.phase.left == 0 && w' == w.(phase := Waiting)
  }

  /** callback: conqueue_pop, whose ensure aborts on an empty queue. */
  ghost predicate Pop(w: Worker, w': Worker) {
    && w.phase.Draining? && w.phase.left > 0 && w.mq != []
    && w' == w.(mq := w.mq[1..], phase := Handling(w.phase.left - 1, w.mq[0]))
  }

  /** callback: on_message, then msg->free of the data, which concerns the pool of the buffer. */
  ghost predicate Handle(w: Worker, w': Worker) {
    && w.phase.Handling?
    && w' == w.(phase := Releasing(w.phase.left, w.phase.message.slot), handled := w.handled + [w.phase.message.data])
  }

  /** callback: pool_free of the message slot, whose ensure aborts on a full queue. */
  ghost predicate Release(n: nat, w: Worker, w': Worker) {
    w.phase.Releasing? && |w.slots| < n && w' == w.(slots := w.slots + [w.phase.slot], phase := Draining(w.phase.left))
  }

  ghost predicate ListenerStep(c: Config, s: State, s': State, i: nat)
    requires Shaped(c, s)
  {
    || TakeBuffer(c, s, s', i) || DropBuffer(c, s, s', i) || Enqueue(c, s, s', i) || Signal(c, s, s', i)
    || exists w: nat :: ClaimSlot(c, s, s', i, w)
  }

  /** A step of worker k, or the failure of one of its ensures. */
  ghost predicate WorkerStep(c: Config, s: State, s': State, k: nat)
    requires Shaped(c, s)
  {
    && k < |s.workers|
    && var w := s.workers[k];
       || (w.phase.Draining? && w.phase.left > 0 && w.mq == [] && s' == s.(aborted := true))
       || (w.phase.Releasing? && |w.slots| >= c.slots[k] && s' == s.(aborted := true))
       || exists w' ::
            || ((Wake(w, w') || Finish(w, w') || Pop(w, w') || Release(c.slots[k], w, w'))
                && s' == s.(workers := s.workers[k := w']))
            || (Handle(w, w') && s' == FreeBuffer(c, s, w.phase.message.data).(workers := s.workers[k := w']))
  }

  ghost predicate Next(c: Config, s: State, s': State) {
    && Shaped(c, s) && !s.aborted
    && ((exists k: nat :: WorkerStep(c, s, s', k)) || exists i: nat :: ListenerStep(c, s, s', i))
  }

  // ----- Where the buffers and the slots are.

  /** What is found at all the places of a list. */
  ghost function Gather<T, X>(at: T -> multiset<X>, places: seq<T>): multiset<X> {
    if places == [] then multiset{} else Gather(at, places[1..]) + at(places[0])
  }

  lemma {:induction false} GatherMove<T, X>(at: T -> multiset<X>, places: seq<T>, i: nat, p: T)
    requires i < |places|
    ensures Gather(at, places[i := p]) + at(places[i]) == Gather(at, places) + at(p)
  {
    if i == 0 {
      assert places[i := p][1..] == places[1..];
    } else {
      assert places[i := p][1..] == places[1..][i - 1 := p];
      GatherMove(at, places[1..], i - 1, p);
      AddToBoth(Gather(at, places[1..][i - 1 := p]), at(places[i]), Gather(at, places[1..]), at(p), at(places[0]));
    }
  }

  lemma AddToBoth<X>(a: multiset<X>, x: multiset<X>, b: multiset<X>, y: multiset<X>, z: multiset<X>)
    requires a + x == b + y
    ensures a + z + x == b + z + y
  {
    assert a + z + x == (a + x) + z;
  }

  lemma {:induction false} GatherHas<T, X>(at: T -> multiset<X>, places: seq<T>, i: nat)
    requires i < |places|
    ensures at(places[i]) <= Gather(at, places)
  {
    if i > 0 {
      assert places[1..][i - 1] == places[i];
      GatherHas(at, places[1..], i - 1);
    }
  }

  lemma {:induction false} GatherNothing<T, X>(at: T -> multiset<X>, places: seq<T>)
    requires forall i :: 0 <= i < |places| ==> at(places[i]) == multiset{}
    ensures Gather(at, places) == multiset{}
  {
    if places != [] {
      GatherNothing(at, places[1..]);
    }
  }

  ghost function InPool(): seq<Buffer> -> multiset<Buffer> {
    (pool: seq<Buffer>) => multiset(pool)
  }

  ghost function AtListener(): Listener -> multiset<Buffer> {
    (l: Listener) => if l.Received? || l.Claimed? then multiset{l.buffer} else multiset{}
  }

  ghost function AtWorker(): Worker -> multiset<Buffer> {
    (w: Worker) => multiset(Data(w.mq)) + if w.phase.Handling? then multiset{w.phase.message.data} else multiset{}
  }

  /** The slots of worker k that listeners hold. */
  ghost function ClaimedFrom(k: nat): Listener -> multiset<nat> {
    (l: Listener) => if l.Claimed? && l.to == k then multiset{l.slot} else multiset{}
  }

  /** A listener between push to worker k and write. */
  ghost function UnsignalledTo(k: nat): Listener -> multiset<nat> {
    (l: Listener) => if l.Queued? && l.to == k then multiset{k} else multiset{}
  }

  ghost function Data(mq: seq<Message>): (r: seq<Buffer>)
    ensures |r| == |mq| && forall i :: 0 <= i < |mq| ==> r[i] == mq[i].data
  {
    seq(|mq|, i requires 0 <= i < |mq| => mq[i].data)
  }

  ghost function SlotIds(mq: seq<Message>): (r: seq<nat>)
    ensures |r| == |mq| && forall i :: 0 <= i < |mq| ==> r[i] == mq[i].slot
  {
    seq(|mq|, i requires 0 <= i < |mq| => mq[i].slot)
  }

  ghost function SlotInHand(p: Phase): multiset<nat> {
    if p.Handling? then multiset{p.message.slot} else if p.Releasing? then multiset{p.slot} else multiset{}
  }

  /** Every place a receive buffer can be. */
  ghost function AllBuffers(s: State): multiset<Buffer> {
    Gather(InPool(), s.pools) + Gather(AtListener(), s.listeners) + Gather(AtWorker(), s.workers)
  }

  /** Every place a message slot of a worker can be; held are those of listeners. */
  ghost function AllSlots(w: Worker, held: multiset<nat>): multiset<nat> {
    multiset(w.slots) + held + multiset(SlotIds(w.mq)) + SlotInHand(w.phase)
  }

  /** Messages the running batch has still to pop. */
  ghost function Left(p: Phase): nat {
    if p.Waiting? then 0 else p.left
  }

  ghost function InHand(p: Phase): seq<Buffer> {
    if p.Handling? then [p.message.data] else []
  }

  /** The buffers of a configuration, each once. */
  ghost predicate IsEveryBuffer(c: Config, m: multiset<Buffer>) {
    forall b :: m[b] == if b.owner < |c.buffers| && b.id < c.buffers[b.owner] then 1 else 0
  }

  ghost function Slots(n: nat): (m: multiset<nat>)
    ensures |m| == n && forall k: nat :: m[k] == if k < n then 1 else 0
  {
    if n == 0 then multiset{} else Slots(n - 1) + multiset{n - 1}
  }

  ghost predicate OwnPools(pools: seq<seq<Buffer>>) {
    forall i, k :: 0 <= i < |pools| && 0 <= k < |pools[i]| ==> pools[i][k].owner == i
  }

  /** What holds of a worker with n slots, of which listeners hold some, while others have still to signal. */
  ghost predicate WorkerInv(n: nat, w: Worker, held: multiset<nat>, pending: nat) {
    && |w.mq| == w.counter + Left(w.phase) + pending
    && AllSlots(w, held) == Slots(n)
    && w.accepted == w.handled + InHand(w.phase) + Data(w.mq)
  }

  ghost predicate WorkersInv(c: Config, workers: seq<Worker>, ls: seq<Listener>)
    requires |workers| == |c.slots|
  {
    forall k :: 0 <= k < |workers| ==>
      WorkerInv(c.slots[k], workers[k], Gather(ClaimedFrom(k), ls), |Gather(UnsignalledTo(k), ls)|)
  }

  ghost predicate Inv(c: Config, s: State) {
    && Shaped(c, s) && Addressable(c)
    && !s.aborted
    && WorkersInv(c, s.workers, s.listeners)
    && IsEveryBuffer(c, AllBuffers(s))
    && OwnPools(s.pools)
  }

  // ----- A worker and its slots.

  lemma SlotTotal(n: nat, w: Worker, held: multiset<nat>, pending: nat)
    requires WorkerInv(n, w, held, pending)
    ensures |w.slots| + |held| + |w.mq| + |SlotInHand(w.phase)| == n
  {
    hide SlotInHand;
    assert |AllSlots(w, held)| == n;
  }

  lemma FirstAndRest<T>(q: seq<T>)
    requires q != []
    ensures multiset(q) == multiset{q[0]} + multiset(q[1..])
  {
    assert q == [q[0]] + q[1..];
  }

  lemma QueueGrows(mq: seq<Message>, m: Message)
    ensures Data(mq + [m]) == Data(mq) + [m.data] && SlotIds(mq + [m]) == SlotIds(mq) + [m.slot]
  {
  }

  lemma QueueShrinks(mq: seq<Message>)
    requires mq != []
    ensures Data(mq) == [mq[0].data] + Data(mq[1..]) && SlotIds(mq) == [mq[0].slot] + SlotIds(mq[1..])
  {
  }

  lemma ClaimKeeps(n: nat, w: Worker, held: multiset<nat>, pending: nat)
    requires WorkerInv(n, w, held, pending) && w.slots != []
    ensures WorkerInv(n, w.(slots := w.slots[1..]), held + multiset{w.slots[0]}, pending)
  {
    hide Slots, Data, SlotIds;
    FirstAndRest(w.slots);
  }

  lemma PushSlots(w: Worker, held: multiset<nat>, m: Message)
    requires m.slot in held
    ensures AllSlots(Pushed(w, m), held - multiset{m.slot}) == AllSlots(w, held)
  {
    hide Data, SlotIds, SlotInHand;
    QueueGrows(w.mq, m);
  }

  /** The queue has room for a message whose slot is claimed. */
  lemma PushKeeps(n: nat, w: Worker, held: multiset<nat>, pending: nat, m: Message)
    requires WorkerInv(n, w, held, pending) && m.slot in held
    ensures |w.mq| < n && WorkerInv(n, Pushed(w, m), held - multiset{m.slot}, pending + 1)
  {
    hide Slots, Data, SlotIds, AllSlots;
    SlotTotal(n, w, held, pending);
    assert |held| > 0;
    QueueGrows(w.mq, m);
    PushSlots(w, held, m);
  }

  lemma WakeKeeps(n: nat, w: Worker, w': Worker, held: multiset<nat>, pending: nat)
    requires WorkerInv(n, w, held, pending) && (Wake(w, w') || Finish(w, w'))
    ensures WorkerInv(n, w', held, pending)
  {
    hide Slots, Data, SlotIds;
  }

  lemma PopSlots(w: Worker, w': Worker, held: multiset<nat>)
    requires Pop(w, w')
    ensures AllSlots(w', held) == AllSlots(w, held)
  {
    hide Data, SlotIds;
    QueueShrinks(w.mq);
    FirstAndRest(SlotIds(w.mq));
    assert SlotIds(w.mq)[1..] == SlotIds(w.mq[1..]);
  }

  /** The message that a batch has still to pop is there. */
  lemma PopIsReady(n: nat, w: Worker, held: multiset<nat>, pending: nat)
    requires WorkerInv(n, w, held, pending) && w.phase.Draining? && w.phase.left > 0
    ensures w.mq != []
  {
  }

  lemma PopKeeps(n: nat, w: Worker, w': Worker, held: multiset<nat>, pending: nat)
    requires WorkerInv(n, w, held, pending) && Pop(w, w')
    ensures WorkerInv(n, w', held, pending)
  {
    hide Slots, Data, SlotIds, AllSlots;
    PopSlots(w, w', held);
    QueueShrinks(w.mq);
  }

  lemma HandleKeeps(n: nat, w: Worker, w': Worker, held: multiset<nat>, pending: nat)
    requires WorkerInv(n, w, held, pending) && Handle(w, w')
    ensures WorkerInv(n, w', held, pending)
  {
    hide Slots, Data, SlotIds;
  }

  /** The pool of slots has room for one that is out. */
  lemma ReleaseHasRoom(n: nat, w: Worker, held: multiset<nat>, pending: nat)
    requires WorkerInv(n, w, held, pending) && w.phase.Releasing?
    ensures |w.slots| < n
  {
    hide AllSlots, Slots;
    SlotTotal(n, w, held, pending);
  }

  lemma ReleaseKeeps(n: nat, w: Worker, w': Worker, held: multiset<nat>, pending: nat)
    requires WorkerInv(n, w, held, pending) && Release(n, w, w')
    ensures WorkerInv(n, w', held, pending)
  {
    hide Slots, Data, SlotIds;
  }

  /** The counter never exceeds the messages in the queue, nor they the slots. */
  lemma SignalHasRoom(n: nat, w: Worker, held: multiset<nat>, pending: nat)
    requires WorkerInv(n, w, held, pending) && pending > 0
    ensures w.counter < n
  {
    hide AllSlots, Slots;
    SlotTotal(n, w, held, pending);
  }

  lemma SignalKeeps(n: nat, w: Worker, held: multiset<nat>, pending: nat)
    requires WorkerInv(n, w, held, pending + 1)
    ensures WorkerInv(n, w.(counter := w.counter + 1), held, pending)
  {
    hide Slots, Data, SlotIds;
  }

  // ----- All workers.

  /** To worker k it makes no difference whether a listener is at l or at l'. */
  ghost predicate SameTo(k: nat, l: Listener, l': Listener) {
    ClaimedFrom(k)(l) == ClaimedFrom(k)(l') && UnsignalledTo(k)(l) == UnsignalledTo(k)(l')
  }

  /** Listeners that deal with worker k, if with any, are the same to all others. */
  lemma SameToOthers(l: Listener, l': Listener, k: nat)
    requires l.Claimed? || l.Queued? ==> l.to == k
    requires l'.Claimed? || l'.Queued? ==> l'.to == k
    ensures forall j: nat :: j != k ==> SameTo(j, l, l')
  {
  }

  lemma WorkersAt(c: Config, workers: seq<Worker>, ls: seq<Listener>, k: nat)
    requires |workers| == |c.slots| && WorkersInv(c, workers, ls) && k < |workers|
    ensures WorkerInv(c.slots[k], workers[k], Gather(ClaimedFrom(k), ls), |Gather(UnsignalledTo(k), ls)|)
  {
  }

  lemma SameGathered(ls: seq<Listener>, i: nat, l: Listener, k: nat)
    requires i < |ls| && SameTo(k, ls[i], l)
    ensures Gather(ClaimedFrom(k), ls[i := l]) == Gather(ClaimedFrom(k), ls)
    ensures Gather(UnsignalledTo(k), ls[i := l]) == Gather(UnsignalledTo(k), ls)
  {
    hide Gather, ClaimedFrom, UnsignalledTo;
    GatherMove(ClaimedFrom(k), ls, i, l);
    GatherMove(UnsignalledTo(k), ls, i, l);
    SameSum(Gather(ClaimedFrom(k), ls[i := l]), Gather(ClaimedFrom(k), ls), ClaimedFrom(k)(l));
    SameSum(Gather(UnsignalledTo(k), ls[i := l]), Gather(UnsignalledTo(k), ls), UnsignalledTo(k)(l));
  }

  lemma SameSum<X>(a: multiset<X>, b: multiset<X>, x: multiset<X>)
    requires a + x == b + x
    ensures a == b
  {
    assert a == (a + x) - x && b == (b + x) - x;
  }

  /** A step of listener i that concerns no worker. */
  lemma NoWorkerChanges(c: Config, workers: seq<Worker>, ls: seq<Listener>, i: nat, l: Listener)
    requires |workers| == |c.slots| && WorkersInv(c, workers, ls) && i < |ls|
    requires forall k: nat :: SameTo(k, ls[i], l)
    ensures WorkersInv(c, workers, ls[i := l])
  {
    hide Gather, ClaimedFrom, UnsignalledTo, WorkerInv, SameTo;
    forall k | 0 <= k < |workers|
      ensures WorkerInv(c.slots[k], workers[k], Gather(ClaimedFrom(k), ls[i := l]),
                        |Gather(UnsignalledTo(k), ls[i := l])|)
    {
      assert SameTo(k, ls[i], l);
      SameGathered(ls, i, l, k);
    }
  }

  /** A step of listener i that concerns worker k only. */
  lemma OneWorkerChanges(c: Config, workers: seq<Worker>, ls: seq<Listener>, i: nat, l: Listener, k: nat, w: Worker)
    requires |workers| == |c.slots| && WorkersInv(c, workers, ls) && i < |ls| && k < |workers|
    requires forall j: nat :: j != k ==> SameTo(j, ls[i], l)
    requires WorkerInv(c.slots[k], w, Gather(ClaimedFrom(k), ls[i := l]), |Gather(UnsignalledTo(k), ls[i := l])|)
    ensures WorkersInv(c, workers[k := w], ls[i := l])
  {
    hide Gather, ClaimedFrom, UnsignalledTo, WorkerInv, SameTo;
    forall j | 0 <= j < |workers|
      ensures WorkerInv(c.slots[j], workers[k := w][j], Gather(ClaimedFrom(j), ls[i := l]),
                        |Gather(UnsignalledTo(j), ls[i := l])|)
    {
      if j != k {
        assert SameTo(j, ls[i], l);
        SameGathered(ls, i, l, j);
      }
    }
  }

  lemma SumSize<X>(a: multiset<X>, x: multiset<X>, b: multiset<X>, y: multiset<X>)
    requires a + x == b + y
    ensures |a| + |x| == |b| + |y|
  {
    assert |a + x| == |a| + |x| && |b + y| == |b| + |y|;
  }

  /** Claimed slots and pending signals at worker k after listener i has moved to l. */
  lemma GatheredAt(ls: seq<Listener>, i: nat, l: Listener, k: nat)
    requires i < |ls|
    ensures ClaimedFrom(k)(ls[i]) <= Gather(ClaimedFrom(k), ls)
    ensures Gather(ClaimedFrom(k), ls[i := l]) == Gather(ClaimedFrom(k), ls) + ClaimedFrom(k)(l) - ClaimedFrom(k)(ls[i])
    ensures |Gather(UnsignalledTo(k), ls[i := l])| + |UnsignalledTo(k)(ls[i])| ==
              |Gather(UnsignalledTo(k), ls)| + |UnsignalledTo(k)(l)|
  {
    hide *;
    GatherMove(ClaimedFrom(k), ls, i, l);
    GatherMove(UnsignalledTo(k), ls, i, l);
    GatherHas(ClaimedFrom(k), ls, i);
    SumSize(Gather(UnsignalledTo(k), ls[i := l]), UnsignalledTo(k)(ls[i]), Gather(UnsignalledTo(k), ls),
            UnsignalledTo(k)(l));
    SameSumOrLess(Gather(ClaimedFrom(k), ls[i := l]), ClaimedFrom(k)(ls[i]), Gather(ClaimedFrom(k), ls),
                  ClaimedFrom(k)(l));
  }

  lemma SameSumOrLess<X>(a: multiset<X>, x: multiset<X>, b: multiset<X>, y: multiset<X>)
    requires a + x == b + y
    ensures a == b + y - x
  {
    assert a == (a + x) - x;
  }

  // ----- The buffers.

  ghost function OwnedBy(o: nat, n: nat): (m: multiset<Buffer>)
    ensures |m| == n && forall b :: m[b] == if b.owner == o && b.id < n then 1 else 0
  {
    if n == 0 then multiset{} else OwnedBy(o, n - 1) + multiset{Buffer(o, n - 1)}
  }

  lemma PartIsSmaller<X>(a: multiset<X>, b: multiset<X>)
    requires a <= b
    ensures |a| <= |b|
  {
    assert b == a + (b - a);
  }

  /** The pool of a buffer that is out has room for it. */
  lemma PoolHasRoom(c: Config, s: State, b: Buffer)
    requires Shaped(c, s) && IsEveryBuffer(c, AllBuffers(s)) && OwnPools(s.pools)
    requires b in Gather(AtListener(), s.listeners) + Gather(AtWorker(), s.workers)
    ensures b.owner < |s.pools| && |s.pools[b.owner]| < c.buffers[b.owner]
  {
    hide Gather;
    assert AllBuffers(s)[b] >= 1;
    var o := b.owner;
    var pool := multiset(s.pools[o]);
    GatherHas(InPool(), s.pools, o);
    var m := pool + multiset{b};
    assert m <= AllBuffers(s);
    forall x | x in m ensures m[x] <= OwnedBy(o, c.buffers[o])[x] {
      assert x in pool ==> x in s.pools[o];
    }
    assert m <= OwnedBy(o, c.buffers[o]);
    PartIsSmaller(m, OwnedBy(o, c.buffers[o]));
  }

  lemma FreeBufferKeeps(c: Config, s: State, b: Buffer)
    requires Shaped(c, s) && IsEveryBuffer(c, AllBuffers(s)) && OwnPools(s.pools)
    requires b in Gather(AtListener(), s.listeners) + Gather(AtWorker(), s.workers)
    ensures var s' := FreeBuffer(c, s, b);
            && s' == s.(pools := s'.pools) && |s'.pools| == |s.pools|
            && Gather(InPool(), s'.pools) == Gather(InPool(), s.pools) + multiset{b}
            && OwnPools(s'.pools)
  {
    hide Gather, AllBuffers, IsEveryBuffer;
    PoolHasRoom(c, s, b);
    var pool := s.pools[b.owner];
    GatherMove(InPool(), s.pools, b.owner, pool + [b]);
    SameSumOrLess(Gather(InPool(), s.pools[b.owner := pool + [b]]), multiset(pool), Gather(InPool(), s.pools),
                  multiset(pool + [b]));
    assert multiset(pool + [b]) == multiset(pool) + multiset{b};
  }

  // ----- Every step keeps the invariant.

  lemma TakeBufferKeeps(c: Config, s: State, s': State, i: nat)
    requires Inv(c, s) && TakeBuffer(c, s, s', i)
    ensures Inv(c, s')
  {
    hide Gather, WorkersInv, IsEveryBuffer, AllBuffers;
    var l, pool := s'.listeners[i], s.pools[i];
    NoWorkerChanges(c, s.workers, s.listeners, i, l);
    GatherMove(InPool(), s.pools, i, pool[1..]);
    GatherMove(AtListener(), s.listeners, i, l);
    FirstAndRest(pool);
    Moved(Gather(InPool(), s.pools), Gather(InPool(), s'.pools), Gather(AtListener(), s.listeners),
          Gather(AtListener(), s'.listeners),
          multiset(pool), multiset(pool[1..]), multiset{pool[0]});
    SameBuffers(s, s');
  }

  /** What leaves one place comes to another. */
  lemma Moved<X>(a: multiset<X>, a': multiset<X>, b: multiset<X>, b': multiset<X>, p: multiset<X>, p': multiset<X>,
                 x: multiset<X>)
    requires a' + p == a + p' && p == x + p' && b' == b + x
    ensures a' + b' == a + b
  {
    SameSum(a' + x, a, p');
    assert a' + x + p' == a' + p;
    assert a' + b' == a' + x + b;
  }

  lemma SameBuffers(s: State, s': State)
    requires Gather(InPool(), s'.pools) + Gather(AtListener(), s'.listeners) + Gather(AtWorker(), s'.workers)
          == Gather(InPool(), s.pools) + Gather(AtListener(), s.listeners) + Gather(AtWorker(), s.workers)
    ensures AllBuffers(s') == AllBuffers(s)
  {
  }

  lemma DropBufferKeeps(c: Config, s: State, s': State, i: nat)
    requires Inv(c, s) && DropBuffer(c, s, s', i)
    ensures Inv(c, s')
  {
    hide Gather, WorkersInv, IsEveryBuffer, AllBuffers, OwnPools;
    var b := s.listeners[i].buffer;
    NoWorkerChanges(c, s.workers, s.listeners, i, Idle);
    GatherHas(AtListener(), s.listeners, i);
    FreeBufferKeeps(c, s, b);
    GatherMove(AtListener(), s.listeners, i, Idle);
    var ls, ls' := Gather(AtListener(), s.listeners), Gather(AtListener(), s'.listeners);
    assert ls == ls' + multiset{b};
    SameBuffers(s, s');
  }

  /** Neither the buffer of listener i nor those of worker k go anywhere. */
  lemma BuffersStay(s: State, s': State, i: nat, l: Listener, k: nat, w: Worker)
    requires i < |s.listeners| && k < |s.workers| && s'.pools == s.pools
    requires s'.listeners == s.listeners[i := l] && s'.workers == s.workers[k := w]
    requires AtListener()(l) == AtListener()(s.listeners[i]) && AtWorker()(w) == AtWorker()(s.workers[k])
    ensures AllBuffers(s') == AllBuffers(s)
  {
    hide Gather, AtListener, AtWorker, AllBuffers;
    GatherMove(AtListener(), s.listeners, i, l);
    SameSum(Gather(AtListener(), s'.listeners), Gather(AtListener(), s.listeners), AtListener()(l));
    GatherMove(AtWorker(), s.workers, k, w);
    SameSum(Gather(AtWorker(), s'.workers), Gather(AtWorker(), s.workers), AtWorker()(w));
    SameBuffers(s, s');
  }

  /** The buffer of listener i goes to worker k. */
  lemma BufferPassed(s: State, s': State, i: nat, l: Listener, k: nat, w: Worker, x: multiset<Buffer>)
    requires i < |s.listeners| && k < |s.workers| && s'.pools == s.pools
    requires s'.listeners == s.listeners[i := l] && s'.workers == s.workers[k := w]
    requires AtListener()(s.listeners[i]) == x + AtListener()(l) && AtWorker()(w) == AtWorker()(s.workers[k]) + x
    ensures AllBuffers(s') == AllBuffers(s)
  {
    hide Gather, AtListener, AtWorker, AllBuffers;
    GatherMove(AtListener(), s.listeners, i, l);
    GatherMove(AtWorker(), s.workers, k, w);
    var a, a' := Gather(AtListener(), s.listeners), Gather(AtListener(), s'.listeners);
    var b, b' := Gather(AtWorker(), s.workers), Gather(AtWorker(), s'.workers);
    assert b' + AtWorker()(s.workers[k]) == b + x + AtWorker()(s.workers[k]);
    SameSum(b', b + x, AtWorker()(s.workers[k]));
    Moved(a, a', b, b', AtListener()(s.listeners[i]), AtListener()(l), x);
    assert a' + b' == a + b;
    var p := Gather(InPool(), s.pools);
    assert p + a' + b' == p + (a' + b') && p + a + b == p + (a + b);
    SameBuffers(s, s');
  }

  lemma ClaimSlotKeepsWorkers(c: Config, s: State, s': State, i: nat, w: nat)
    requires Inv(c, s) && ClaimSlot(c, s, s', i, w)
    ensures WorkersInv(c, s'.workers, s'.listeners)
  {
    hide Gather, IsEveryBuffer, AllBuffers, OwnPools, WorkerInv, WorkersInv, SameTo;
    var l, held := s'.listeners[i], Gather(ClaimedFrom(w), s.listeners);
    SameToOthers(s.listeners[i], l, w);
    WorkersAt(c, s.workers, s.listeners, w);
    GatheredAt(s.listeners, i, l, w);
    assert held + multiset{l.slot} - multiset{} == held + multiset{l.slot};
    ClaimKeeps(c.slots[w], s.workers[w], held, |Gather(UnsignalledTo(w), s.listeners)|);
    OneWorkerChanges(c, s.workers, s.listeners, i, l, w, s'.workers[w]);
  }

  lemma ClaimSlotKeeps(c: Config, s: State, s': State, i: nat, w: nat)
    requires Inv(c, s) && ClaimSlot(c, s, s', i, w)
    ensures Inv(c, s')
  {
    hide Gather, IsEveryBuffer, AllBuffers, OwnPools, WorkersInv;
    ClaimSlotKeepsWorkers(c, s, s', i, w);
    BuffersStay(s, s', i, s'.listeners[i], w, s'.workers[w]);
  }

  /** worker_send does not find the queue full. */
  lemma EnqueueKeepsWorkers(c: Config, s: State, s': State, i: nat)
    requires Inv(c, s) && Enqueue(c, s, s', i)
    ensures !s'.aborted && |s'.workers| == |c.slots| && WorkersInv(c, s'.workers, s'.listeners)
  {
    hide Gather, IsEveryBuffer, AllBuffers, OwnPools, WorkerInv, WorkersInv, SameTo, Pushed;
    var l := s.listeners[i];
    var k, m := l.to, Message(l.slot, l.buffer);
    SameToOthers(s.listeners[i], Queued(k), k);
    WorkersAt(c, s.workers, s.listeners, k);
    GatheredAt(s.listeners, i, Queued(k), k);
    var held := Gather(ClaimedFrom(k), s.listeners);
    assert l.slot in ClaimedFrom(k)(l);
    assert held + multiset{} - multiset{l.slot} == held - multiset{l.slot};
    PushKeeps(c.slots[k], s.workers[k], held, |Gather(UnsignalledTo(k), s.listeners)|, m);
    OneWorkerChanges(c, s.workers, s.listeners, i, Queued(k), k, Pushed(s.workers[k], m));
  }

  lemma EnqueueKeeps(c: Config, s: State, s': State, i: nat)
    requires Inv(c, s) && Enqueue(c, s, s', i)
    ensures Inv(c, s')
  {
    hide Gather, IsEveryBuffer, AllBuffers, OwnPools, WorkersInv, Data;
    EnqueueKeepsWorkers(c, s, s', i);
    var l := s.listeners[i];
    var w, m := s.workers[l.to], Message(l.slot, l.buffer);
    QueueGrows(w.mq, m);
    assert multiset(Data(w.mq) + [m.data]) == multiset(Data(w.mq)) + multiset{m.data};
    BufferPassed(s, s', i, Queued(l.to), l.to, Pushed(w, m), multiset{m.data});
  }

  /** The write to the eventfd does not fail. */
  lemma SignalSucceeds(c: Config, s: State, s': State, i: nat)
    requires Inv(c, s) && Signal(c, s, s', i)
    ensures var w := s.listeners[i].to;
            && s'.listeners == s.listeners[i := Idle] && s'.pools == s.pools && !s'.aborted
            && s'.workers == s.workers[w := s.workers[w].(counter := s.workers[w].counter + 1)]
  {
    hide Gather, IsEveryBuffer, AllBuffers, OwnPools, WorkerInv, WorkersInv, SameTo;
    var k := s.listeners[i].to;
    WorkersAt(c, s.workers, s.listeners, k);
    GatherHas(UnsignalledTo(k), s.listeners, i);
    var pending := Gather(UnsignalledTo(k), s.listeners);
    assert k in pending;
    SignalHasRoom(c.slots[k], s.workers[k], Gather(ClaimedFrom(k), s.listeners), |pending|);
  }

  lemma SignalKeepsWorkers(c: Config, s: State, s': State, i: nat)
    requires Inv(c, s) && Signal(c, s, s', i)
    ensures WorkersInv(c, s'.workers, s'.listeners)
  {
    hide Gather, IsEveryBuffer, AllBuffers, OwnPools, WorkerInv, WorkersInv, SameTo;
    var k := s.listeners[i].to;
    SignalSucceeds(c, s, s', i);
    SameToOthers(s.listeners[i], Idle, k);
    WorkersAt(c, s.workers, s.listeners, k);
    GatheredAt(s.listeners, i, Idle, k);
    var held := Gather(ClaimedFrom(k), s.listeners);
    assert held + multiset{} - multiset{} == held;
    SignalKeeps(c.slots[k], s.workers[k], held, |Gather(UnsignalledTo(k), s'.listeners)|);
    OneWorkerChanges(c, s.workers, s.listeners, i, Idle, k, s'.workers[k]);
  }

  lemma SignalStepKeeps(c: Config, s: State, s': State, i: nat)
    requires Inv(c, s) && Signal(c, s, s', i)
    ensures Inv(c, s')
  {
    hide Gather, IsEveryBuffer, AllBuffers, OwnPools, WorkersInv;
    SignalSucceeds(c, s, s', i);
    SignalKeepsWorkers(c, s, s', i);
    BuffersStay(s, s', i, Idle, s.listeners[i].to, s'.workers[s.listeners[i].to]);
  }

  /** Whatever a listener does, the invariant holds on. */
  lemma ListenerStepKeeps(c: Config, s: State, s': State, i: nat)
    requires Inv(c, s) && ListenerStep(c, s, s', i)
    ensures Inv(c, s')
  {
    hide TakeBuffer, DropBuffer, ClaimSlot, Enqueue, Signal, IsEveryBuffer, AllBuffers, WorkersInv, OwnPools;
    if TakeBuffer(c, s, s', i) {
      TakeBufferKeeps(c, s, s', i);
    } else if DropBuffer(c, s, s', i) {
      DropBufferKeeps(c, s, s', i);
    } else if Enqueue(c, s, s', i) {
      EnqueueKeeps(c, s, s', i);
    } else if Signal(c, s, s', i) {
      SignalStepKeeps(c, s, s', i);
    } else {
      var w: nat :| ClaimSlot(c, s, s', i, w);
      ClaimSlotKeeps(c, s, s', i, w);
    }
  }

  // ----- The workers' steps.

  lemma OneWorkerSteps(c: Config, workers: seq<Worker>, ls: seq<Listener>, k: nat, w: Worker)
    requires |workers| == |c.slots| && WorkersInv(c, workers, ls) && k < |workers|
    requires WorkerInv(c.slots[k], w, Gather(ClaimedFrom(k), ls), |Gather(UnsignalledTo(k), ls)|)
    ensures WorkersInv(c, workers[k := w], ls)
  {
    hide Gather, WorkerInv;
  }

  lemma AtWorkerStays(w: Worker, w': Worker, n: nat)
    requires Wake(w, w') || Finish(w, w') || Pop(w, w') || Release(n, w, w')
    ensures AtWorker()(w') == AtWorker()(w)
  {
    hide Data;
    if Pop(w, w') {
      QueueShrinks(w.mq);
      FirstAndRest(Data(w.mq));
      assert Data(w.mq)[1..] == Data(w'.mq);
    }
  }

  lemma InnerStepKeeps(c: Config, s: State, s': State, k: nat, w': Worker)
    requires Inv(c, s) && k < |s.workers| && s' == s.(workers := s.workers[k := w'])
    requires var w := s.workers[k]; Wake(w, w') || Finish(w, w') || Pop(w, w') || Release(c.slots[k], w, w')
    ensures Inv(c, s')
  {
    hide Gather, IsEveryBuffer, AllBuffers, OwnPools, WorkerInv, Wake, Finish, Pop, Release;
    var w, held, pending := s.workers[k], Gather(ClaimedFrom(k), s.listeners), |Gather(UnsignalledTo(k), s.listeners)|;
    if Pop(w, w') {
      PopKeeps(c.slots[k], w, w', held, pending);
    } else if Release(c.slots[k], w, w') {
      ReleaseKeeps(c.slots[k], w, w', held, pending);
    } else {
      WakeKeeps(c.slots[k], w, w', held, pending);
    }
    OneWorkerSteps(c, s.workers, s.listeners, k, w');
    AtWorkerStays(w, w', c.slots[k]);
    WorkerBuffersStay(s, s', k, w');
  }

  lemma WorkerBuffersStay(s: State, s': State, k: nat, w: Worker)
    requires k < |s.workers| && s' == s.(workers := s.workers[k := w]) && AtWorker()(w) == AtWorker()(s.workers[k])
    ensures AllBuffers(s') == AllBuffers(s)
  {
    hide Gather, AtWorker, AllBuffers;
    GatherMove(AtWorker(), s.workers, k, w);
    SameSum(Gather(AtWorker(), s'.workers), Gather(AtWorker(), s.workers), AtWorker()(w));
    SameBuffers(s, s');
  }

  /** Freeing the data of a message does not find its pool full. */
  lemma HandleStepKeeps(c: Config, s: State, s': State, k: nat, w': Worker)
    requires Inv(c, s) && k < |s.workers| && Handle(s.workers[k], w')
    requires s' == FreeBuffer(c, s, s.workers[k].phase.message.data).(workers := s.workers[k := w'])
    ensures Inv(c, s')
  {
    hide Gather, IsEveryBuffer, AllBuffers, OwnPools, WorkerInv;
    var w := s.workers[k];
    var b := w.phase.message.data;
    HandleKeeps(c.slots[k], w, w', Gather(ClaimedFrom(k), s.listeners), |Gather(UnsignalledTo(k), s.listeners)|);
    OneWorkerSteps(c, s.workers, s.listeners, k, w');
    GatherHas(AtWorker(), s.workers, k);
    assert b in AtWorker()(w);
    FreeBufferKeeps(c, s, b);
    BufferFreed(s, s', k, w', b);
  }

  lemma BufferFreed(s: State, s': State, k: nat, w: Worker, b: Buffer)
    requires k < |s.workers| && s'.listeners == s.listeners && s'.workers == s.workers[k := w]
    requires AtWorker()(s.workers[k]) == AtWorker()(w) + multiset{b}
    requires Gather(InPool(), s'.pools) == Gather(InPool(), s.pools) + multiset{b}
    ensures AllBuffers(s') == AllBuffers(s)
  {
    hide Gather, AtWorker, AllBuffers;
    GatherMove(AtWorker(), s.workers, k, w);
    var a, a' := Gather(AtWorker(), s.workers), Gather(AtWorker(), s'.workers);
    var p, p' := Gather(InPool(), s.pools), Gather(InPool(), s'.pools);
    assert AtWorker()(s.workers[k]) == multiset{b} + AtWorker()(w);
    Moved(a, a', p, p', AtWorker()(s.workers[k]), AtWorker()(w), multiset{b});
    var l := Gather(AtListener(), s.listeners);
    assert p' + l + a' == (a' + p') + l && p + l + a == (a + p) + l;
    SameBuffers(s, s');
  }

  /** Whatever worker k does, the invariant holds on; in particular its ensures do not fail. */
  lemma WorkerStepKeeps(c: Config, s: State, s': State, k: nat)
    requires Inv(c, s) && WorkerStep(c, s, s', k)
    ensures Inv(c, s')
  {
    hide IsEveryBuffer, AllBuffers, OwnPools, Wake, Finish, Pop, Release, WorkerInv;
    var w, held, pending := s.workers[k], Gather(ClaimedFrom(k), s.listeners), |Gather(UnsignalledTo(k), s.listeners)|;
    if w.phase.Draining? && w.phase.left > 0 {
      PopIsReady(c.slots[k], w, held, pending);
    }
    if w.phase.Releasing? {
      ReleaseHasRoom(c.slots[k], w, held, pending);
    }
    var w' :| || ((Wake(w, w') || Finish(w, w') || Pop(w, w') || Release(c.slots[k], w, w'))
                  && s' == s.(workers := s.workers[k := w']))
              || (Handle(w, w') && s' == FreeBuffer(c, s, w.phase.message.data).(workers := s.workers[k := w']));
    if Handle(w, w') && s' == FreeBuffer(c, s, w.phase.message.data).(workers := s.workers[k := w']) {
      HandleStepKeeps(c, s, s', k, w');
    } else {
      InnerStepKeeps(c, s, s', k, w');
    }
  }

  // ----- Whole runs.

  /** Everything is in its pool. */
  ghost predicate Init(c: Config, s: State) {
    && Shaped(c, s) && Addressable(c) && !s.aborted
    && (forall i :: 0 <= i < |s.listeners| ==> s.listeners[i] == Idle && IsFullPool(s.pools[i], i, c.buffers[i]))
    && forall k :: 0 <= k < |s.workers| ==> IsNew(s.workers[k], c.slots[k])
  }

  ghost predicate IsFullPool(pool: seq<Buffer>, owner: nat, n: nat) {
    |pool| == n && forall k :: 0 <= k < n ==> pool[k] == Buffer(owner, k)
  }

  ghost predicate IsFullSlotPool(pool: seq<nat>, n: nat) {
    |pool| == n && forall k :: 0 <= k < n ==> pool[k] == k
  }

  /** worker_init */
  ghost predicate IsNew(w: Worker, n: nat) {
    IsFullSlotPool(w.slots, n) && w == Worker(w.slots, [], 0, Waiting, [], [])
  }

  /** A run: any interleaving of steps. */
  ghost predicate IsRun(c: Config, run: seq<State>) {
    && run != [] && Init(c, run[0])
    && forall i :: 0 <= i < |run| - 1 ==> Next(c, run[i], run[i + 1])
  }

  lemma NextKeeps(c: Config, s: State, s': State)
    requires Inv(c, s) && Next(c, s, s')
    ensures Inv(c, s')
  {
    hide Inv, WorkerStep, ListenerStep;
    if k: nat :| WorkerStep(c, s, s', k) {
      WorkerStepKeeps(c, s, s', k);
    } else {
      var i: nat :| ListenerStep(c, s, s', i);
      ListenerStepKeeps(c, s, s', i);
    }
  }

  lemma {:induction false} FullSlotPool(pool: seq<nat>, n: nat, k: nat)
    requires IsFullSlotPool(pool, n)
    ensures multiset(pool)[k] == if k < n then 1 else 0
  {
    if n != 0 {
      assert pool == pool[..n - 1] + [n - 1];
      FullSlotPool(pool[..n - 1], n - 1, k);
    }
  }

  lemma {:induction false} FullPool(pool: seq<Buffer>, owner: nat, n: nat, b: Buffer)
    requires IsFullPool(pool, owner, n)
    ensures multiset(pool)[b] == if b.owner == owner && b.id < n then 1 else 0
  {
    if n != 0 {
      assert pool == pool[..n - 1] + [Buffer(owner, n - 1)];
      FullPool(pool[..n - 1], owner, n - 1, b);
    }
  }

  lemma TailFull(pools: seq<seq<Buffer>>, sizes: seq<nat>, base: nat)
    requires |pools| == |sizes| > 0 && forall i :: 0 <= i < |pools| ==> IsFullPool(pools[i], base + i, sizes[i])
    ensures forall i :: 0 <= i < |pools| - 1 ==> IsFullPool(pools[1..][i], base + 1 + i, sizes[1..][i])
    ensures IsFullPool(pools[0], base, sizes[0])
  {
    hide IsFullPool;
    forall i | 0 <= i < |pools| - 1 ensures IsFullPool(pools[1..][i], base + 1 + i, sizes[1..][i]) {
      assert IsFullPool(pools[i + 1], base + (i + 1), sizes[i + 1]);
    }
    assert IsFullPool(pools[0], base + 0, sizes[0]);
  }

  lemma {:induction false} FullPools(pools: seq<seq<Buffer>>, sizes: seq<nat>, base: nat, b: Buffer)
    requires |pools| == |sizes| && forall i :: 0 <= i < |pools| ==> IsFullPool(pools[i], base + i, sizes[i])
    ensures Gather(InPool(), pools)[b]
         == if base <= b.owner < base + |pools| && b.id < sizes[b.owner - base] then 1 else 0
  {
    hide IsFullPool;
    if pools != [] {
      TailFull(pools, sizes, base);
      FullPool(pools[0], base, sizes[0], b);
      FullPools(pools[1..], sizes[1..], base + 1, b);
    }
  }

  lemma NewWorkerInv(n: nat, w: Worker)
    requires IsNew(w, n)
    ensures WorkerInv(n, w, multiset{}, 0) && AtWorker()(w) == multiset{}
  {
    forall k: nat ensures multiset(w.slots)[k] == Slots(n)[k] {
      FullSlotPool(w.slots, n, k);
    }
    assert multiset(w.slots) == Slots(n);
  }

  lemma NoneClaimed(ls: seq<Listener>, k: nat)
    requires forall i :: 0 <= i < |ls| ==> ls[i] == Idle
    ensures Gather(ClaimedFrom(k), ls) == multiset{} && Gather(UnsignalledTo(k), ls) == multiset{}
  {
    hide Gather;
    GatherNothing(ClaimedFrom(k), ls);
    GatherNothing(UnsignalledTo(k), ls);
  }

  lemma InitBuffers(c: Config, s: State)
    requires Shaped(c, s) && forall i :: 0 <= i < |s.listeners| ==>
              s.listeners[i] == Idle && IsFullPool(s.pools[i], i, c.buffers[i])
    requires forall k :: 0 <= k < |s.workers| ==> AtWorker()(s.workers[k]) == multiset{}
    ensures IsEveryBuffer(c, AllBuffers(s)) && OwnPools(s.pools)
  {
    hide Gather, AtWorker;
    GatherNothing(AtListener(), s.listeners);
    GatherNothing(AtWorker(), s.workers);
    forall b ensures AllBuffers(s)[b] == if b.owner < |c.buffers| && b.id < c.buffers[b.owner] then 1 else 0 {
      FullPools(s.pools, c.buffers, 0, b);
    }
  }

  lemma InitHolds(c: Config, s: State)
    requires Init(c, s)
    ensures Inv(c, s)
  {
    hide Gather, WorkerInv, IsNew, AtWorker, ClaimedFrom, UnsignalledTo, IsEveryBuffer, AllBuffers, OwnPools,
         IsFullPool;
    forall k | 0 <= k < |s.workers|
      ensures WorkerInv(c.slots[k], s.workers[k], Gather(ClaimedFrom(k), s.listeners),
                        |Gather(UnsignalledTo(k), s.listeners)|)
      ensures AtWorker()(s.workers[k]) == multiset{}
    {
      NoneClaimed(s.listeners, k);
      NewWorkerInv(c.slots[k], s.workers[k]);
    }
    InitBuffers(c, s);
  }

  lemma {:induction false} RunKeeps(c: Config, run: seq<State>, i: nat)
    requires IsRun(c, run) && i < |run|
    ensures Inv(c, run[i])
  {
    hide Inv, Init, Next;
    if i == 0 {
      InitHolds(c, run[0]);
    } else {
      RunKeeps(c, run, i - 1);
      assert Next(c, run[i - 1], run[i - 1 + 1]);
      NextKeeps(c, run[i - 1], run[i]);
    }
  }

  /**
   Safety of every run, whatever the interleaving and however listeners choose
   among workers: no ensure fails; no receive buffer is lost, leaked or freed
   twice; and for every worker, the queue holds exactly the signalled, the
   batched and the not yet signalled messages, its slots are conserved, and the
   messages accepted so far are those handled, in the same order, followed by the
   one in hand and those queued.
   */
  lemma ProtocolIsSafe(c: Config, run: seq<State>, i: nat)
    requires IsRun(c, run) && i < |run|
    ensures var s := run[i];
            && !s.aborted && |s.workers| == |c.slots|
            && (forall b :: AllBuffers(s)[b] == if b.owner < |c.buffers| && b.id < c.buffers[b.owner] then 1 else 0)
            && forall k :: 0 <= k < |s.workers| ==>
                 && |s.workers[k].mq| == s.workers[k].counter + Left(s.workers[k].phase)
                     + |Gather(UnsignalledTo(k), s.listeners)|
                 && |s.workers[k].slots| + |Gather(ClaimedFrom(k), s.listeners)| + |s.workers[k].mq|
                    + |SlotInHand(s.workers[k].phase)| == c.slots[k]
                 && s.workers[k].accepted == s.workers[k].handled + InHand(s.workers[k].phase) + Data(s.workers[k].mq)
  {
    hide AllBuffers, Gather, IsRun, AllSlots, Data, Left, SlotInHand, InHand;
    RunKeeps(c, run, i);
    var s := run[i];
    forall k | 0 <= k < |s.workers|
      ensures WorkerInv(c.slots[k], s.workers[k], Gather(ClaimedFrom(k), s.listeners),
                        |Gather(UnsignalledTo(k), s.listeners)|)
      ensures |s.workers[k].slots| + |Gather(ClaimedFrom(k), s.listeners)| + |s.workers[k].mq|
              + |SlotInHand(s.workers[k].phase)| == c.slots[k]
    {
      SlotTotal(c.slots[k], s.workers[k], Gather(ClaimedFrom(k), s.listeners), |Gather(UnsignalledTo(k), s.listeners)|);
    }
  }
}
