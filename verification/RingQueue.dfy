/**
 src/main/utils/queue.c and queue.h: a bounded queue in a ring of one entry more
 than its capacity.
 */
module RingQueue {
  import opened Arithmetic

  class Queue<T(0)> {
    const capacity: nat
    const entryNum: nat
    const entries: array<T>
    var head: nat
    var tail: nat

    ghost predicate Valid()
      reads this
    {
      entryNum == capacity + 1 == entries.Length && head < entryNum && tail < entryNum
    }

    /** The queued values, the next to be popped first. */
    ghost function Contents(): (s: seq<T>)
      requires Valid()
      reads this, entries
      ensures |s| <= capacity
    {
      if head <= tail then entries[head..tail] else entries[head..] + entries[..tail]
    }

    /** queue_init */
    constructor (capacity: nat)
      ensures Valid() && this.capacity == capacity && Contents() == [] && fresh(entries)
    {
      this.capacity := capacity;
      entryNum := capacity + 1;
      entries := new T[capacity + 1];
      head, tail := 0, 0;
    }

    /** queue_size: the distance from head to tail around the ring. */
    function Size(): (n: nat)
      requires Valid()
      reads this, entries
      ensures n == |Contents()|
    {
      if head <= tail then
        ModStep(entryNum + tail - head, entryNum);
        ModSmall(tail - head, entryNum);
        Mod(entryNum + tail - head, entryNum)
      else
        ModSmall(entryNum + tail - head, entryNum);
        Mod(entryNum + tail - head, entryNum)
    }

    /** NEXT */
    function Next(p: nat): (q: nat)
      requires Valid() && p < entryNum
      reads this
      ensures q == if p + 1 == entryNum then 0 else p + 1
    {
      if p + 1 == entryNum then
        ModStep(p + 1, entryNum);
        ModSmall(0, entryNum);
        Mod(p + 1, entryNum)
      else
        ModSmall(p + 1, entryNum);
        Mod(p + 1, entryNum)
    }

    /** queue_push */
    method Push(value: T) returns (ok: bool)
      requires Valid()
      modifies this`tail, entries
      ensures Valid()
      ensures ok == (|old(Contents())| < capacity)
      ensures Contents() == if ok then old(Contents()) + [value] else old(Contents())
    {
      hide Mod;
      if Size() >= capacity {
        return false;
      }
      entries[tail] := value;
      tail := Next(tail);
      return true;
    }

    /** queue_pop */
    method Pop() returns (ok: bool, value: T)
      requires Valid()
      modifies this`head
      ensures Valid()
      ensures ok == (old(Contents()) != [])
      ensures if ok then [value] + Contents() == old(Contents()) else Contents() == old(Contents())
    {
      hide Mod;
      value := entries[head];
      if Size() == 0 {
        return false, value;
      }
      head := Next(head);
      return true, value;
    }
  }
}
