/**
 That the protocol between listeners and workers never gets stuck: in every
 reachable state whoever has something left to do can do it, every step brings the
 end nearer, and where no step is left everything is back in its pool. That needs no
 fairness; that a thread is scheduled at all is not part of it.
 */
module WorkerProgress {
  import opened WorkerProtocol

  // ----- A worker.

  /** A bound on the steps that a worker has before it. */
  function ToDo(w: Worker): nat {
    4 * |w.mq| + (if w.counter > 0 then 2 else 0)
    + match w.phase
      case Waiting => 0
      case Draining(_) => 1
      case Releasing(_, _) => 2
      case Handling(_, _) => 3
  }

  /** No listener is between push and write to worker k. */
  ghost predicate AllSignalled(s: State, k: nat) {
    forall i :: 0 <= i < |s.listeners| ==> !(s.listeners[i].Queued? && s.listeners[i].to == k)
  }

  lemma NothingPending(s: State, k: nat)
    requires AllSignalled(s, k)
    ensures |Gather(UnsignalledTo(k), s.listeners)| == 0
  {
    hide Gather;
    GatherNothing(UnsignalledTo(k), s.listeners);
  }

  /** The step of a worker that concerns no pool of buffers. */
  lemma InnerStep(c: Config, s: State, k: nat, w': Worker)
    requires Shaped(c, s) && k < |s.workers|
    requires var w := s.workers[k]; Wake(w, w') || Finish(w, w') || Pop(w, w') || Release(c.slots[k], w, w')
    ensures WorkerStep(c, s, s.(workers := s.workers[k := w']), k)
  {
    hide Wake, Finish, Pop, Release;
  }

  lemma HandleStep(c: Config, s: State, k: nat, w': Worker)
    requires Shaped(c, s) && k < |s.workers| && Handle(s.workers[k], w')
    ensures WorkerStep(c, s, FreeBuffer(c, s, s.workers[k].phase.message.data).(workers := s.workers[k := w']), k)
  {
    hide FreeBuffer;
  }

  /**
   In every reachable state, a worker that has accepted more than it has handled, or
   is in the middle of its loop, can take a step, unless it waits for a listener that
   has pushed and not yet written.
   */
  lemma WorkerCanStep(c: Config, s: State, k: nat) returns (s': State)
    requires Inv(c, s) && k < |s.workers|
    requires !s.workers[k].phase.Waiting? || (|s.workers[k].handled| < |s.workers[k].accepted| && AllSignalled(s, k))
    ensures WorkerStep(c, s, s', k)
  {
    hide Gather, IsEveryBuffer, AllBuffers, OwnPools, WorkerInv, WorkersInv, FreeBuffer, WorkerStep, Addressable;
    var w, n := s.workers[k], c.slots[k];
    var held, pending := Gather(ClaimedFrom(k), s.listeners), |Gather(UnsignalledTo(k), s.listeners)|;
    WorkersAt(c, s.workers, s.listeners, k);
    if w.phase.Handling? {
      var w' := w.(phase := Releasing(w.phase.left, w.phase.message.slot),
                   handled := w.handled + [w.phase.message.data]);
      HandleStep(c, s, k, w');
      s' := FreeBuffer(c, s, w.phase.message.data).(workers := s.workers[k := w']);
    } else {
      var w';
      if w.phase.Releasing? {
        ReleaseHasRoom(n, w, held, pending);
        w' := w.(slots := w.slots + [w.phase.slot], phase := Draining(w.phase.left));
      } else if w.phase.Waiting? {
        NothingPending(s, k);
        SignalledIsCounted(n, w, held);
        w' := w.(counter := 0, phase := Draining(w.counter));
      } else if w.phase.left == 0 {
        w' := w.(phase := Waiting);
      } else {
        PopIsReady(n, w, held, pending);
        w' := w.(mq := w.mq[1..], phase := Handling(w.phase.left - 1, w.mq[0]));
      }
      InnerStep(c, s, k, w');
      s' := s.(workers := s.workers[k := w']);
    }
  }

  lemma SignalledIsCounted(n: nat, w: Worker, held: multiset<nat>)
    requires WorkerInv(n, w, held, 0) && w.phase.Waiting? && |w.handled| < |w.accepted|
    ensures w.counter > 0
  {
    hide AllSlots, Slots;
  }

  /** What a step of worker k is, beside keeping the invariant. */
  ghost predicate Advanced(s: State, s': State, k: nat) {
    && k < |s.workers| == |s'.workers| && s'.listeners == s.listeners && !s'.aborted
    && s'.workers == s.workers[k := s'.workers[k]]
    && s'.workers[k].accepted == s.workers[k].accepted && s.workers[k].handled <= s'.workers[k].handled
    && ToDo(s'.workers[k]) < ToDo(s.workers[k])
  }

  /** Each step of a worker leaves it less to do. */
  lemma WorkerStepCounts(c: Config, s: State, s': State, k: nat)
    requires Inv(c, s) && WorkerStep(c, s, s', k)
    ensures Inv(c, s') && Advanced(s, s', k)
  {
    hide IsEveryBuffer, AllBuffers, OwnPools, WorkerInv, WorkersInv, Gather, Addressable, Wake, Finish, Pop, Release,
         FreeBuffer;
    WorkerStepKeeps(c, s, s', k);
    var w := s.workers[k];
    var w' :| || ((Wake(w, w') || Finish(w, w') || Pop(w, w') || Release(c.slots[k], w, w'))
                  && s' == s.(workers := s.workers[k := w']))
              || (Handle(w, w') && s' == FreeBuffer(c, s, w.phase.message.data).(workers := s.workers[k := w']));
    LessToDo(c.slots[k], w, w');
    if Handle(w, w') && s' == FreeBuffer(c, s, w.phase.message.data).(workers := s.workers[k := w']) {
      FreeingElsewhere(c, s, w.phase.message.data);
    }
  }

  lemma FreeingElsewhere(c: Config, s: State, b: Buffer)
    requires Shaped(c, s)
    ensures FreeBuffer(c, s, b).listeners == s.listeners && FreeBuffer(c, s, b).workers == s.workers
  {
  }

  lemma LessToDo(n: nat, w: Worker, w': Worker)
    requires Wake(w, w') || Finish(w, w') || Pop(w, w') || Release(n, w, w') || Handle(w, w')
    ensures w'.accepted == w.accepted && w.handled <= w'.handled && ToDo(w') < ToDo(w)
  {
  }

  /** Steps of worker k alone. */
  ghost predicate WorkerRun(c: Config, run: seq<State>, k: nat) {
    && run != [] && (forall i :: 0 <= i < |run| ==> Shaped(c, run[i]))
    && forall i :: 0 <= i < |run| - 1 ==> WorkerStep(c, run[i], run[i + 1], k)
  }

  /** Everything accepted is handled, and every slot that no listener holds is free. */
  ghost predicate CaughtUp(c: Config, s: State, k: nat)
    requires k < |s.workers| && k < |c.slots|
  {
    var w := s.workers[k];
    && w.handled == w.accepted && w.mq == [] && w.phase.Waiting? && w.counter == 0
    && |w.slots| + |Gather(ClaimedFrom(k), s.listeners)| == c.slots[k]
  }

  lemma DoneIsCaughtUp(c: Config, s: State, k: nat)
    requires Inv(c, s) && k < |s.workers| && AllSignalled(s, k)
    requires s.workers[k].phase.Waiting? && |s.workers[k].handled| >= |s.workers[k].accepted|
    ensures CaughtUp(c, s, k)
  {
    hide Gather, IsEveryBuffer, AllBuffers, OwnPools, WorkersInv, Addressable, AllSlots, Slots;
    WorkersAt(c, s.workers, s.listeners, k);
    NothingPending(s, k);
    SlotTotal(c.slots[k], s.workers[k], Gather(ClaimedFrom(k), s.listeners), 0);
  }

  lemma OneStepFirst(c: Config, s: State, run: seq<State>, k: nat)
    requires WorkerRun(c, run, k) && Shaped(c, s) && WorkerStep(c, s, run[0], k)
    ensures WorkerRun(c, [s] + run, k)
  {
    hide WorkerStep, Shaped;
    var longer := [s] + run;
    forall i | 0 <= i < |longer| ensures Shaped(c, longer[i]) {
      assert i > 0 ==> longer[i] == run[i - 1];
    }
    forall i | 0 <= i < |longer| - 1 ensures WorkerStep(c, longer[i], longer[i + 1], k) {
      assert longer[i + 1] == run[i];
      assert i > 0 ==> longer[i] == run[i - 1];
    }
  }

  /** Its own steps alone let a worker catch up with what was signalled to it, and they are no more than ToDo. */
  lemma {:induction false} WorkerCatchesUp(c: Config, s: State, k: nat) returns (run: seq<State>)
    requires Inv(c, s) && k < |s.workers| && AllSignalled(s, k)
    ensures WorkerRun(c, run, k) && run[0] == s && |run| <= ToDo(s.workers[k]) + 1
    ensures var last := run[|run| - 1];
            && k < |last.workers| && Inv(c, last) && CaughtUp(c, last, k)
            && last.listeners == s.listeners && last.workers[k].handled == s.workers[k].accepted
            && last.workers == s.workers[k := last.workers[k]]
    decreases ToDo(s.workers[k])
  {
    hide Inv, WorkerStep, CaughtUp, ToDo;
    ShapedInv(c, s);
    var w := s.workers[k];
    if w.phase.Waiting? && |w.handled| >= |w.accepted| {
      run := [s];
      DoneIsCaughtUp(c, s, k);
      CaughtUpHandled(c, s, k);
    } else {
      var s' := WorkerCanStep(c, s, k);
      WorkerStepCounts(c, s, s', k);
      var rest := WorkerCatchesUp(c, s', k);
      OneStepFirst(c, s, rest, k);
      run := [s] + rest;
    }
  }

  lemma ShapedInv(c: Config, s: State)
    requires Inv(c, s)
    ensures Shaped(c, s) && !s.aborted
  {
    hide Shaped;
  }

  lemma CaughtUpHandled(c: Config, s: State, k: nat)
    requires k < |s.workers| && k < |c.slots| && CaughtUp(c, s, k)
    ensures s.workers[k].handled == s.workers[k].accepted
  {
    hide Gather;
  }

  // ----- Listeners.

  /** A bound on the steps that a listener, and a worker on its behalf, have before them. */
  function Errand(l: Listener): nat {
    match l
    case Idle => 0
    case Queued(_) => 3
    case Claimed(_, _, _) => 8
    case Received(_) => 9
  }

  /** The states to which a listener takes over. */
  ghost predicate Passes(s: State, s': State, i: nat, l: Listener) {
    && i < |s.listeners| && s'.listeners == s.listeners[i := l] && !s'.aborted
  }

  /**
   In every reachable state, a listener can take a buffer if its pool has one; drop the
   one that it has received, or claim a slot of any worker that has one; push what it has
   claimed a slot for; and write when it has pushed.
   */
  lemma ListenerCanStep(c: Config, s: State, i: nat)
    requires Inv(c, s) && i < |s.listeners|
    ensures s.listeners[i].Idle? && s.pools[i] != [] ==> exists s' :: TakeBuffer(c, s, s', i)
    ensures s.listeners[i].Received? ==> exists s' :: DropBuffer(c, s, s', i) && !s'.aborted
    ensures s.listeners[i].Received? ==>
              forall w: nat | w < |s.workers| && s.workers[w].slots != [] ::
                exists s' :: ClaimSlot(c, s, s', i, w) && !s'.aborted
    ensures s.listeners[i].Claimed? ==> exists s' :: Enqueue(c, s, s', i) && !s'.aborted
    ensures s.listeners[i].Queued? ==> exists s' :: Signal(c, s, s', i) && !s'.aborted
  {
    hide Gather, IsEveryBuffer, AllBuffers, OwnPools, WorkersInv, Addressable, FreeBuffer, Pushed;
    var l := s.listeners[i];
    if l.Idle? && s.pools[i] != [] {
      assert TakeBuffer(c, s, s.(pools := s.pools[i := s.pools[i][1..]],
                                 listeners := s.listeners[i := Received(s.pools[i][0])]), i);
    }
    if l.Received? {
      var s' := FreeBuffer(c, s, l.buffer).(listeners := s.listeners[i := Idle]);
      assert DropBuffer(c, s, s', i);
      DropBufferKeeps(c, s, s', i);
      forall w: nat | w < |s.workers| && s.workers[w].slots != []
        ensures exists s' :: ClaimSlot(c, s, s', i, w) && !s'.aborted
      {
        var t := s.(workers := s.workers[w := s.workers[w].(slots := s.workers[w].slots[1..])],
                    listeners := s.listeners[i := Claimed(l.buffer, w, s.workers[w].slots[0])]);
        assert ClaimSlot(c, s, t, i, w);
      }
    }
    if l.Claimed? {
      EnqueueIsReady(c, s, i);
    }
    if l.Queued? {
      SignalIsReady(c, s, i);
    }
  }

  lemma EnqueueIsReady(c: Config, s: State, i: nat)
    requires Inv(c, s) && i < |s.listeners| && s.listeners[i].Claimed?
    ensures exists s' :: Enqueue(c, s, s', i) && !s'.aborted
  {
    hide Gather, IsEveryBuffer, AllBuffers, OwnPools, WorkersInv, Addressable, Pushed;
    var l := s.listeners[i];
    var w := l.to;
    var s' := if |s.workers[w].mq| < c.slots[w]
              then s.(workers := s.workers[w := Pushed(s.workers[w], Message(l.slot, l.buffer))],
                      listeners := s.listeners[i := Queued(w)])
              else s.(aborted := true);
    assert Enqueue(c, s, s', i);
    EnqueueKeepsWorkers(c, s, s', i);
  }

  lemma SignalIsReady(c: Config, s: State, i: nat)
    requires Inv(c, s) && i < |s.listeners| && s.listeners[i].Queued?
    ensures exists s' :: Signal(c, s, s', i) && !s'.aborted
  {
    hide Gather, IsEveryBuffer, AllBuffers, OwnPools, WorkersInv, Addressable;
    var w := s.listeners[i].to;
    var s' := if s.workers[w].counter < EVENTFD_MAX
              then s.(workers := s.workers[w := s.workers[w].(counter := s.workers[w].counter + 1)],
                      listeners := s.listeners[i := Idle])
              else s.(aborted := true);
    assert Signal(c, s, s', i);
    SignalSucceeds(c, s, s', i);
  }

  // ----- All together.

  /** The sum of a weight over all places. */
  ghost function Sum<T>(weight: T -> nat, places: seq<T>): nat {
    if places == [] then 0 else Sum(weight, places[1..]) + weight(places[0])
  }

  lemma {:induction false} SumChanges<T>(weight: T -> nat, places: seq<T>, i: nat, p: T)
    requires i < |places|
    ensures Sum(weight, places[i := p]) + weight(places[i]) == Sum(weight, places) + weight(p)
  {
    if i == 0 {
      assert places[i := p][1..] == places[1..];
    } else {
      assert places[i := p][1..] == places[1..][i - 1 := p];
      SumChanges(weight, places[1..], i - 1, p);
    }
  }

  ghost function Remaining(s: State): nat {
    Sum((l: Listener) => Errand(l), s.listeners) + Sum((w: Worker) => ToDo(w), s.workers)
  }

  lemma RemainingChanges(s: State, s': State, i: nat, l: Listener, k: nat, w: Worker)
    requires i < |s.listeners| && k < |s.workers|
    requires s'.listeners == s.listeners[i := l] && s'.workers == s.workers[k := w]
    ensures Remaining(s') + Errand(s.listeners[i]) + ToDo(s.workers[k]) == Remaining(s) + Errand(l) + ToDo(w)
  {
    hide Sum, Errand, ToDo;
    SumChanges((l: Listener) => Errand(l), s.listeners, i, l);
    SumChanges((w: Worker) => ToDo(w), s.workers, k, w);
  }

  lemma RemainingOfListener(s: State, s': State, i: nat, l: Listener)
    requires i < |s.listeners| && s'.listeners == s.listeners[i := l] && s'.workers == s.workers
    ensures Remaining(s') + Errand(s.listeners[i]) == Remaining(s) + Errand(l)
  {
    hide Sum, Errand, ToDo;
    SumChanges((l: Listener) => Errand(l), s.listeners, i, l);
  }

  lemma RemainingOfWorker(s: State, s': State, k: nat, w: Worker)
    requires k < |s.workers| && s'.workers == s.workers[k := w] && s'.listeners == s.listeners
    ensures Remaining(s') + ToDo(s.workers[k]) == Remaining(s) + ToDo(w)
  {
    hide Sum, Errand, ToDo;
    SumChanges((w: Worker) => ToDo(w), s.workers, k, w);
  }

  /** A step of a listener that has received something. */
  ghost predicate Errands(c: Config, s: State, s': State, i: nat)
    requires Shaped(c, s)
  {
    || DropBuffer(c, s, s', i) || Enqueue(c, s, s', i) || Signal(c, s, s', i)
    || exists w: nat :: ClaimSlot(c, s, s', i, w)
  }

  /** A step of anyone but the arrival of something new. */
  ghost predicate Inward(c: Config, s: State, s': State) {
    && Shaped(c, s) && !s.aborted
    && ((exists k: nat :: WorkerStep(c, s, s', k)) || exists i: nat :: Errands(c, s, s', i))
  }

  /** Without arrivals every step brings the end nearer, so that no run goes on for ever. */
  lemma InwardCounts(c: Config, s: State, s': State)
    requires Inv(c, s) && Inward(c, s, s')
    ensures Inv(c, s') && Next(c, s, s') && Remaining(s') < Remaining(s)
  {
    hide Inv, WorkerStep, Remaining, Errands, ListenerStep;
    if k: nat :| WorkerStep(c, s, s', k) {
      WorkerStepCounts(c, s, s', k);
      RemainingOfWorker(s, s', k, s'.workers[k]);
    } else {
      var i: nat :| Errands(c, s, s', i);
      ErrandIsStep(c, s, s', i);
      ListenerStepKeeps(c, s, s', i);
      ListenerCounts(c, s, s', i);
    }
  }

  lemma ErrandIsStep(c: Config, s: State, s': State, i: nat)
    requires Shaped(c, s) && Errands(c, s, s', i)
    ensures ListenerStep(c, s, s', i)
  {
    hide DropBuffer, Enqueue, Signal, ClaimSlot;
  }

  lemma ListenerCounts(c: Config, s: State, s': State, i: nat)
    requires Inv(c, s) && Errands(c, s, s', i)
    ensures Remaining(s') < Remaining(s)
  {
    hide Inv, Remaining, FreeBuffer, DropBuffer, Enqueue, Signal, ClaimSlot;
    ShapedInv(c, s);
    if DropBuffer(c, s, s', i) {
      DropCounts(c, s, s', i);
    } else if Enqueue(c, s, s', i) {
      EnqueueCounts(c, s, s', i);
    } else if Signal(c, s, s', i) {
      SignalCounts(c, s, s', i);
    } else {
      var w: nat :| ClaimSlot(c, s, s', i, w);
      ClaimCounts(c, s, s', i, w);
    }
  }

  lemma DropCounts(c: Config, s: State, s': State, i: nat)
    requires Inv(c, s) && DropBuffer(c, s, s', i)
    ensures Remaining(s') < Remaining(s)
  {
    hide Inv, Remaining, FreeBuffer;
    ShapedInv(c, s);
    FreeingElsewhere(c, s, s.listeners[i].buffer);
    RemainingOfListener(s, s', i, Idle);
  }

  lemma ClaimCounts(c: Config, s: State, s': State, i: nat, w: nat)
    requires Inv(c, s) && ClaimSlot(c, s, s', i, w)
    ensures Remaining(s') < Remaining(s)
  {
    hide Inv, Remaining;
    ShapedInv(c, s);
    RemainingChanges(s, s', i, s'.listeners[i], w, s'.workers[w]);
  }

  lemma EnqueueCounts(c: Config, s: State, s': State, i: nat)
    requires Inv(c, s) && Enqueue(c, s, s', i)
    ensures Remaining(s') < Remaining(s)
  {
    hide Inv, Remaining;
    ShapedInv(c, s);
    EnqueueKeepsWorkers(c, s, s', i);
    var k := s.listeners[i].to;
    RemainingChanges(s, s', i, Queued(k), k, s'.workers[k]);
  }

  lemma SignalCounts(c: Config, s: State, s': State, i: nat)
    requires Inv(c, s) && Signal(c, s, s', i)
    ensures Remaining(s') < Remaining(s)
  {
    hide Inv, Remaining;
    ShapedInv(c, s);
    SignalSucceeds(c, s, s', i);
    var k := s.listeners[i].to;
    RemainingChanges(s, s', i, Idle, k, s'.workers[k]);
  }

  /** Every thread is where it began, and everything is in its pool. */
  ghost predicate AtRest(c: Config, s: State) {
    && |s.pools| == |s.listeners| == |c.buffers| && |s.workers| == |c.slots|
    && (forall i :: 0 <= i < |s.listeners| ==> s.listeners[i].Idle? && |s.pools[i]| == c.buffers[i])
    && forall k :: 0 <= k < |s.workers| ==>
         var w := s.workers[k];
         w.handled == w.accepted && w.mq == [] && w.phase.Waiting? && w.counter == 0 && |w.slots| == c.slots[k]
  }

  /** Where no thread can go on but by an arrival, all have come to rest: there is no deadlock. */
  lemma OnlyRestIsStuck(c: Config, s: State) returns (s': State)
    requires Inv(c, s)
    ensures Inward(c, s, s') || AtRest(c, s)
  {
    hide Inv, WorkerStep, DropBuffer, Enqueue, Signal, ClaimSlot, AtRest;
    ShapedInv(c, s);
    s' := s;
    if i: nat :| i < |s.listeners| && !s.listeners[i].Idle? {
      ListenerCanStep(c, s, i);
      if s.listeners[i].Received? {
        s' :| DropBuffer(c, s, s', i);
      } else if s.listeners[i].Claimed? {
        s' :| Enqueue(c, s, s', i);
      } else {
        s' :| Signal(c, s, s', i);
      }
      assert Errands(c, s, s', i);
    } else if k: nat :| k < |s.workers|
                        && (!s.workers[k].phase.Waiting? || |s.workers[k].handled| < |s.workers[k].accepted|) {
      s' := WorkerCanStep(c, s, k);
    } else {
      ComesToRest(c, s);
    }
  }

  lemma ComesToRest(c: Config, s: State)
    requires Inv(c, s)
    requires forall i :: 0 <= i < |s.listeners| ==> s.listeners[i].Idle?
    requires forall k :: 0 <= k < |s.workers| ==>
               s.workers[k].phase.Waiting? && |s.workers[k].handled| >= |s.workers[k].accepted|
    ensures AtRest(c, s)
  {
    hide Inv, CaughtUp, Gather;
    ShapedInv(c, s);
    forall k | 0 <= k < |s.workers| ensures CaughtUp(c, s, k) && Gather(ClaimedFrom(k), s.listeners) == multiset{} {
      DoneIsCaughtUp(c, s, k);
      GatherNothing(ClaimedFrom(k), s.listeners);
    }
    forall k | 0 <= k < |s.workers|
      ensures var w := s.workers[k];
              w.handled == w.accepted && w.mq == [] && w.phase.Waiting? && w.counter == 0 && |w.slots| == c.slots[k]
    {
      CaughtUpFacts(c, s, k);
    }
    forall i | 0 <= i < |s.pools| ensures |s.pools[i]| == c.buffers[i] {
      PoolIsFull(c, s, i);
    }
  }

  lemma CaughtUpFacts(c: Config, s: State, k: nat)
    requires k < |s.workers| && k < |c.slots| && CaughtUp(c, s, k) && Gather(ClaimedFrom(k), s.listeners) == multiset{}
    ensures var w := s.workers[k];
            w.handled == w.accepted && w.mq == [] && w.phase.Waiting? && w.counter == 0 && |w.slots| == c.slots[k]
  {
    hide Gather;
  }

  /** Other pools do not have the buffers of pool i. */
  lemma {:induction false} OnlyInOwnPool(pools: seq<seq<Buffer>>, base: nat, i: nat, b: Buffer)
    requires forall j, m :: 0 <= j < |pools| && 0 <= m < |pools[j]| ==> pools[j][m].owner == base + j
    requires b.owner == base + i
    ensures Gather(InPool(), pools)[b] == if i < |pools| then multiset(pools[i])[b] else 0
    decreases |pools|
  {
    if pools != [] {
      var rest: seq<seq<Buffer>> := pools[1..];
      forall j: nat, m: nat | j < |rest| && m < |rest[j]| ensures rest[j][m].owner == base + 1 + j {
        assert pools[j + 1][m].owner == base + (j + 1);
      }
      if i == 0 {
        NotInLater(rest, base + 1, b);
      } else {
        OnlyInOwnPool(rest, base + 1, i - 1, b);
        NotInPool(pools[0], base, b);
      }
    }
  }

  lemma NotInPool(pool: seq<Buffer>, owner: nat, b: Buffer)
    requires b.owner != owner && forall m :: 0 <= m < |pool| ==> pool[m].owner == owner
    ensures multiset(pool)[b] == 0
  {
    assert b !in pool;
  }

  lemma {:induction false} NotInLater(pools: seq<seq<Buffer>>, base: nat, b: Buffer)
    requires forall j, m :: 0 <= j < |pools| && 0 <= m < |pools[j]| ==> pools[j][m].owner == base + j
    requires b.owner < base
    ensures Gather(InPool(), pools)[b] == 0
  {
    if pools != [] {
      var rest: seq<seq<Buffer>> := pools[1..];
      forall j: nat, m: nat | j < |rest| && m < |rest[j]| ensures rest[j][m].owner == base + 1 + j {
        assert pools[j + 1][m].owner == base + (j + 1);
      }
      NotInPool(pools[0], base, b);
      NotInLater(rest, base + 1, b);
    }
  }

  lemma PoolIsFull(c: Config, s: State, i: nat)
    requires Inv(c, s) && i < |s.pools|
    requires forall j :: 0 <= j < |s.listeners| ==> s.listeners[j].Idle?
    requires forall k :: 0 <= k < |s.workers| ==> s.workers[k].mq == [] && s.workers[k].phase.Waiting?
    ensures |s.pools[i]| == c.buffers[i]
  {
    hide Gather, WorkersInv, Addressable;
    GatherNothing(AtListener(), s.listeners);
    GatherNothing(AtWorker(), s.workers);
    forall b ensures multiset(s.pools[i])[b] == OwnedBy(i, c.buffers[i])[b] {
      if b.owner == i {
        OnlyInOwnPool(s.pools, 0, i, b);
        assert AllBuffers(s)[b] == Gather(InPool(), s.pools)[b];
      } else {
        NotInPool(s.pools[i], i, b);
      }
    }
    assert multiset(s.pools[i]) == OwnedBy(i, c.buffers[i]);
  }

  ghost predicate InwardRun(c: Config, run: seq<State>) {
    run != [] && forall i :: 0 <= i < |run| - 1 ==> Inward(c, run[i], run[i + 1])
  }

  /**
   From every state of every run, without arrivals, everything comes to rest, with every
   message handled in the order of its arrival and every buffer and slot back in its pool.
   */
  lemma {:induction false} EverythingSettles(c: Config, s: State) returns (run: seq<State>)
    requires Inv(c, s)
    ensures InwardRun(c, run) && run[0] == s && AtRest(c, run[|run| - 1]) && |run| <= Remaining(s) + 1
    decreases Remaining(s)
  {
    hide Inv, Inward, AtRest, Remaining;
    var s' := OnlyRestIsStuck(c, s);
    if AtRest(c, s) {
      run := [s];
    } else {
      InwardCounts(c, s, s');
      var rest := EverythingSettles(c, s');
      run := [s] + rest;
      forall i | 0 <= i < |run| - 1 ensures Inward(c, run[i], run[i + 1]) {
        assert run[i + 1] == rest[i];
        assert i > 0 ==> run[i] == rest[i - 1];
      }
    }
  }

  lemma {:induction false} NothingRemains<T>(weight: T -> nat, places: seq<T>)
    requires forall i :: 0 <= i < |places| ==> weight(places[i]) == 0
    ensures Sum(weight, places) == 0
  {
    if places != [] {
      NothingRemains(weight, places[1..]);
    }
  }

  lemma RestIsDone(c: Config, s: State)
    requires AtRest(c, s)
    ensures Remaining(s) == 0
  {
    NothingRemains((l: Listener) => Errand(l), s.listeners);
    NothingRemains((w: Worker) => ToDo(w), s.workers);
  }

  /**
   There is no deadlock: in every state of every run, someone can go on without an arrival if
   and only if not everything is at rest.
   */
  lemma GoesOnUnlessAtRest(c: Config, run: seq<State>, i: nat)
    requires IsRun(c, run) && i < |run|
    ensures (exists s' :: Inward(c, run[i], s')) <==> !AtRest(c, run[i])
  {
    hide IsRun, Inv, Inward, AtRest, Remaining;
    RunKeeps(c, run, i);
    var s' := OnlyRestIsStuck(c, run[i]);
    if AtRest(c, run[i]) {
      RestIsDone(c, run[i]);
      forall t ensures !Inward(c, run[i], t) {
        if Inward(c, run[i], t) {
          InwardCounts(c, run[i], t);
        }
      }
    }
  }

  /** In every state of every run, the rest of the run is a matter of the threads' own steps. */
  lemma RunSettles(c: Config, run: seq<State>, i: nat, k: nat) returns (alone: seq<State>, all: seq<State>)
    requires IsRun(c, run) && i < |run| && k < |run[i].workers|
    ensures AllSignalled(run[i], k) ==>
              && WorkerRun(c, alone, k) && alone[0] == run[i] && |alone| <= ToDo(run[i].workers[k]) + 1
              && var last := alone[|alone| - 1];
                 && k < |last.workers| && last.workers == run[i].workers[k := last.workers[k]]
                 && k < |c.slots| && CaughtUp(c, last, k)
                 && last.workers[k].handled == run[i].workers[k].accepted
    ensures InwardRun(c, all) && all[0] == run[i] && AtRest(c, all[|all| - 1]) && |all| <= Remaining(run[i]) + 1
  {
    hide IsRun, Inv, InwardRun, WorkerRun, AtRest, CaughtUp, Remaining, ToDo;
    RunKeeps(c, run, i);
    ShapedInv(c, run[i]);
    alone := [];
    if AllSignalled(run[i], k) {
      alone := WorkerCatchesUp(c, run[i], k);
      RunNotEmpty(c, alone, k);
    }
    all := EverythingSettles(c, run[i]);
  }

  lemma RunNotEmpty(c: Config, run: seq<State>, k: nat)
    requires WorkerRun(c, run, k)
    ensures run != [] && forall i :: 0 <= i < |run| ==> Shaped(c, run[i])
  {
    hide WorkerStep, Shaped;
  }
}
