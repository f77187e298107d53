/**
 src/main/utils/heap.c: a binary heap in a fixed array, smallest key first.
 */
module Heap {
  import opened Wrappers

  datatype Entry<V> = Entry(key: int, value: V)

  function Parent(n: nat): nat
    requires n > 0
  {
    (n - 1) / 2
  }

  /** Every entry except n is in order with its parent. */
  ghost predicate OrderedExcept<V>(s: seq<Entry<V>>, n: nat) {
    forall i {:trigger s[i]} :: 0 < i < |s| && i != n ==> s[Parent(i)].key <= s[i].key
  }

  /** Every entry except the children of n is in order with its parent. */
  ghost predicate OrderedBut<V>(s: seq<Entry<V>>, n: nat) {
    forall i {:trigger s[i]} :: 0 < i < |s| && Parent(i) != n ==> s[Parent(i)].key <= s[i].key
  }

  /** The children of n are in order with the parent of n. */
  ghost predicate SkipsOver<V>(s: seq<Entry<V>>, n: nat)
    requires n <= |s|
  {
    n > 0 ==> forall i {:trigger s[i]} :: 0 < i < |s| && Parent(i) == n ==> s[Parent(n)].key <= s[i].key
  }

  ghost predicate Ordered<V>(s: seq<Entry<V>>) {
    forall i {:trigger s[i]} :: 0 < i < |s| ==> s[Parent(i)].key <= s[i].key
  }

  function Swap<V>(s: seq<Entry<V>>, i: nat, j: nat): (r: seq<Entry<V>>)
    requires i < |s| && j < |s|
    ensures |r| == |s|
  {
    s[i := s[j]][j := s[i]]
  }

  lemma SwapPermutes<V>(s: seq<Entry<V>>, i: nat, j: nat)
    requires i < |s| && j < |s|
    ensures multiset(Swap(s, i, j)) == multiset(s)
  {
  }

  /** The root is minimal. */
  lemma {:induction false} RootIsMinimal<V>(s: seq<Entry<V>>, i: nat)
    requires Ordered(s) && i < |s|
    ensures s[0].key <= s[i].key
  {
    if i > 0 {
      RootIsMinimal(s, Parent(i));
    }
  }

  lemma SwapUp<V>(s: seq<Entry<V>>, n: nat)
    requires 0 < n < |s| && OrderedExcept(s, n) && SkipsOver(s, n) && s[Parent(n)].key > s[n].key
    ensures OrderedExcept(Swap(s, n, Parent(n)), Parent(n)) && SkipsOver(Swap(s, n, Parent(n)), Parent(n))
  {
    var p := Parent(n);
    var r := Swap(s, n, p);
    assert r[p] == s[n] && r[n] == s[p];
    forall i | 0 < i < |r| && i != p ensures r[Parent(i)].key <= r[i].key {
      if i != n {
        assert r[i] == s[i];
      }
    }
    forall i | p > 0 && 0 < i < |r| && Parent(i) == p ensures r[Parent(p)].key <= r[i].key {
      assert s[Parent(p)].key <= s[p].key;
      if i != n {
        assert r[i] == s[i];
      }
    }
  }

  /** c is the child of n with the smaller key. */
  ghost predicate IsLeastChild<V>(s: seq<Entry<V>>, n: nat, c: nat) {
    0 < c < |s| && Parent(c) == n && forall i {:trigger s[i]} :: 0 < i < |s| && Parent(i) == n ==> s[c].key <= s[i].key
  }

  lemma SwapDown<V>(s: seq<Entry<V>>, n: nat, c: nat)
    requires n < |s| && OrderedBut(s, n) && SkipsOver(s, n) && IsLeastChild(s, n, c) && s[n].key > s[c].key
    ensures OrderedBut(Swap(s, n, c), c) && SkipsOver(Swap(s, n, c), c)
  {
    var r := Swap(s, n, c);
    assert r[c] == s[n] && r[n] == s[c] && n != c;
    forall i | 0 < i < |r| && Parent(i) != c ensures r[Parent(i)].key <= r[i].key {
      if i != n && i != c {
        assert r[i] == s[i];
      }
    }
    forall i | 0 < i < |r| && Parent(i) == c ensures r[Parent(c)].key <= r[i].key {
      assert r[i] == s[i] && s[Parent(i)].key <= s[i].key;
    }
  }

  class Heap<V> {
    const buffer: array<Entry<V>>
    var size: nat

    ghost predicate Valid()
      reads this, buffer
    {
      size <= buffer.Length && Ordered(buffer[..size])
    }

    /** The entries of the heap. */
    ghost function Entries(): multiset<Entry<V>>
      reads this, buffer
      requires size <= buffer.Length
    {
      multiset(buffer[..size])
    }

    /** make_heap; junk is what the memory of the buffer happens to hold. */
    constructor (capacity: nat, junk: Entry<V>)
      ensures Valid() && Entries() == multiset{} && buffer.Length == capacity && fresh(buffer)
    {
      buffer := new Entry<V>[capacity](i => junk);
      size := 0;
    }

    method Exchange(i: nat, j: nat)
      requires i < size && j < size <= buffer.Length
      modifies buffer
      ensures buffer[..size] == Swap(old(buffer[..size]), i, j)
      ensures multiset(buffer[..size]) == old(multiset(buffer[..size]))
    {
      ghost var s := buffer[..size];
      buffer[i], buffer[j] := buffer[j], buffer[i];
      assert buffer[..size] == Swap(s, i, j);
      SwapPermutes(s, i, j);
    }

    /** shift_up */
    method ShiftUp(start: nat)
      requires start < size <= buffer.Length && OrderedExcept(buffer[..size], start) && SkipsOver(buffer[..size], start)
      modifies buffer
      ensures Valid() && Entries() == old(Entries())
    {
      hide OrderedExcept, SkipsOver, Swap, Ordered;
      var n: nat := start;
      while n > 0 && buffer[Parent(n)].key > buffer[n].key
        invariant n < size && OrderedExcept(buffer[..size], n) && SkipsOver(buffer[..size], n)
        invariant Entries() == old(Entries())
      {
        SwapUp(buffer[..size], n);
        Exchange(n, Parent(n));
        n := Parent(n);
      }
      UpIsOrdered(buffer[..size], n);
    }

    method LeastChild(n: nat) returns (c: nat)
      requires size <= buffer.Length && 2 * n + 1 < size
      ensures IsLeastChild(buffer[..size], n, c)
    {
      c := 2 * n + 1;
      var r := 2 * n + 2;
      if r < size && buffer[r].key < buffer[c].key {
        c := r;
      }
      ghost var s := buffer[..size];
      forall i | 0 < i < |s| && Parent(i) == n ensures s[c].key <= s[i].key {
        assert i == 2 * n + 1 || i == 2 * n + 2;
      }
    }

    /** shift_down */
    method ShiftDown(start: nat)
      requires start <= size <= buffer.Length && OrderedBut(buffer[..size], start) && SkipsOver(buffer[..size], start)
      modifies buffer
      ensures Valid() && Entries() == old(Entries())
    {
      hide OrderedBut, SkipsOver, Swap, Ordered, IsLeastChild;
      var n: nat := start;
      while 2 * n + 1 < size
        invariant n <= size && OrderedBut(buffer[..size], n) && SkipsOver(buffer[..size], n)
        invariant Entries() == old(Entries())
        decreases size - n
      {
        var c := LeastChild(n);
        LeastChildIs(buffer[..size], n, c);
        if buffer[n].key <= buffer[c].key {
          DownIsOrdered(buffer[..size], n, c);
          return;
        }
        SwapDown(buffer[..size], n, c);
        Exchange(n, c);
        n := c;
      }
      LeafIsOrdered(buffer[..size], n);
    }

    /** heap_push */
    method Push(key: int, value: V) returns (ok: bool)
      requires Valid()
      modifies this`size, buffer
      ensures Valid() && ok == (old(size) < buffer.Length)
      ensures Entries() == if ok then old(Entries()) + multiset{Entry(key, value)} else old(Entries())
    {
      hide Ordered, OrderedExcept, SkipsOver;
      if size >= buffer.Length {
        return false;
      }
      ghost var s := buffer[..size];
      buffer[size] := Entry(key, value);
      size := size + 1;
      assert buffer[..size] == s + [Entry(key, value)];
      AppendExcept(s, Entry(key, value));
      ShiftUp(size - 1);
      ok := true;
    }

    /** heap_pop: an entry of minimal key. */
    method Pop() returns (r: Option<Entry<V>>)
      requires Valid()
      modifies this`size, buffer
      ensures Valid() && (r == None <==> old(size) == 0)
      ensures r == None ==> Entries() == old(Entries()) && size == old(size)
      ensures r.Some? ==>
                && size == old(size) - 1 && old(Entries()) == Entries() + multiset{r.value}
                && Minimal(r.value, old(Entries()))
    {
      hide Ordered, OrderedBut, SkipsOver, Headless, Minimal;
      if size == 0 {
        return None;
      }
      r := Some(buffer[0]);
      ghost var s := buffer[..size];
      RootBelowAll(s);
      RootTakenOff(s);
      LastToRoot(s);
      TakeRoot();
      ShiftDown(0);
    }

    method TakeRoot()
      requires 0 < size <= buffer.Length
      modifies this`size, buffer
      ensures size == old(size) - 1 && buffer[..size] == Headless(old(buffer[..size]))
    {
      size := size - 1;
      buffer[0] := buffer[size];
    }
  }

  lemma UpIsOrdered<V>(s: seq<Entry<V>>, n: nat)
    requires n < |s| && OrderedExcept(s, n) && (n > 0 ==> s[Parent(n)].key <= s[n].key)
    ensures Ordered(s)
  {
  }

  lemma LeastChildIs<V>(s: seq<Entry<V>>, n: nat, c: nat)
    requires IsLeastChild(s, n, c)
    ensures n < c < |s|
  {
  }

  lemma DownIsOrdered<V>(s: seq<Entry<V>>, n: nat, c: nat)
    requires OrderedBut(s, n) && IsLeastChild(s, n, c) && n < |s| && s[n].key <= s[c].key
    ensures Ordered(s)
  {
  }

  lemma LeafIsOrdered<V>(s: seq<Entry<V>>, n: nat)
    requires OrderedBut(s, n) && 2 * n + 1 >= |s|
    ensures Ordered(s)
  {
  }

  lemma AppendExcept<V>(s: seq<Entry<V>>, e: Entry<V>)
    requires Ordered(s)
    ensures OrderedExcept(s + [e], |s|) && SkipsOver(s + [e], |s|)
  {
    var r := s + [e];
    forall i | 0 < i < |r| && i != |s| ensures r[Parent(i)].key <= r[i].key {
      assert r[i] == s[i];
    }
  }

  /** The last entry takes the place of the root. */
  function Headless<V>(s: seq<Entry<V>>): seq<Entry<V>>
    requires s != []
  {
    if |s| == 1 then [] else [s[|s| - 1]] + s[1..|s| - 1]
  }

  ghost predicate Minimal<V>(e: Entry<V>, entries: multiset<Entry<V>>) {
    forall x :: x in entries ==> e.key <= x.key
  }

  lemma RootBelowAll<V>(s: seq<Entry<V>>)
    requires Ordered(s) && s != []
    ensures Minimal(s[0], multiset(s))
  {
    hide Ordered;
    forall x | x in multiset(s) ensures s[0].key <= x.key {
      var i :| 0 <= i < |s| && s[i] == x;
      RootIsMinimal(s, i);
    }
  }

  lemma RootTakenOff<V>(s: seq<Entry<V>>)
    requires s != []
    ensures multiset(s) == multiset(Headless(s)) + multiset{s[0]}
  {
    var n := |s| - 1;
    if n == 0 {
      assert s == [s[0]];
    } else {
      assert s == [s[0]] + s[1..n] + [s[n]];
    }
  }

  lemma LastToRoot<V>(s: seq<Entry<V>>)
    requires Ordered(s) && s != []
    ensures OrderedBut(Headless(s), 0) && SkipsOver(Headless(s), 0)
  {
    var r := Headless(s);
    assert forall i :: 0 < i < |r| ==> r[i] == s[i];
    hide Headless;
    forall i | 0 < i < |r| && Parent(i) != 0 ensures r[Parent(i)].key <= r[i].key {
      assert r[i] == s[i] && r[Parent(i)] == s[Parent(i)];
    }
  }

  ghost predicate Sorted<V>(s: seq<Entry<V>>) {
    forall i, j :: 0 <= i < j < |s| ==> s[i].key <= s[j].key
  }

  ghost predicate AllBelow<V>(s: seq<Entry<V>>, entries: multiset<Entry<V>>) {
    forall i :: 0 <= i < |s| ==> Minimal(s[i], entries)
  }

  lemma NextIsLargest<V>(s: seq<Entry<V>>, e: Entry<V>, before: multiset<Entry<V>>, after: multiset<Entry<V>>)
    requires Sorted(s) && AllBelow(s, before) && before == after + multiset{e} && Minimal(e, before)
    ensures Sorted(s + [e]) && AllBelow(s + [e], after) && multiset(s) + before == multiset(s + [e]) + after
  {
    assert e in before;
    forall i | 0 <= i < |s| ensures s[i].key <= e.key {
      assert Minimal(s[i], before);
    }
  }

  /** Draining a heap yields its entries in order of their keys. */
  method Drain<V>(heap: Heap<V>) returns (out: seq<Entry<V>>)
    requires heap.Valid()
    modifies heap`size, heap.buffer
    ensures heap.Valid() && heap.size == 0
    ensures multiset(out) == old(heap.Entries()) && Sorted(out)
  {
    hide Ordered, Sorted, AllBelow, Minimal;
    out := [];
    NoneSorted(heap.Entries());
    while heap.size > 0
      invariant heap.Valid() && multiset(out) + heap.Entries() == old(heap.Entries())
      invariant Sorted(out) && AllBelow(out, heap.Entries())
      decreases heap.size
    {
      ghost var before := heap.Entries();
      var r := heap.Pop();
      NextIsLargest(out, r.value, before, heap.Entries());
      out := out + [r.value];
    }
  }

  lemma NoneSorted<V>(entries: multiset<Entry<V>>)
    ensures Sorted<V>([]) && AllBelow([], entries)
  {
  }
}
