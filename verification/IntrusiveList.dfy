/**
 src/main/utils/list.h: the intrusive doubly linked list with a sentinel at each
 end. Nodes are named by their index in one store of links; -1 is the null pointer.
 */
module IntrusiveList {
  import opened Collections
  const NULL := -1

  /** list_entry_t */
  datatype Node = Node(prev: int, next: int)

  type Links = seq<Node>

  /** All nodes of a list, sentinels included. */
  function Full(h: nat, c: seq<nat>, t: nat): (f: seq<nat>)
    ensures |f| == |c| + 2 && f[0] == h && f[|c| + 1] == t
    ensures forall i :: 0 < i <= |c| ==> f[i] == c[i - 1]
  {
    [h] + c + [t]
  }

  /** The links between nodes i and i + 1. */
  ghost predicate Adjacent(l: Links, f: seq<nat>, i: nat)
    requires i + 1 < |f|
  {
    f[i] < |l| && f[i + 1] < |l| && l[f[i]].next == f[i + 1] && l[f[i + 1]].prev == f[i]
  }

  ghost predicate Chain(l: Links, f: seq<nat>) {
    && |f| >= 2 && Distinct(f)
    && (forall i :: 0 <= i < |f| - 1 ==> Adjacent(l, f, i))
    && f[0] < |l| && l[f[0]].prev == NULL && f[|f| - 1] < |l| && l[f[|f| - 1]].next == NULL
  }

  /** The list between sentinels h and t holds c, front first. */
  ghost predicate Holds(l: Links, h: nat, t: nat, c: seq<nat>) {
    Chain(l, Full(h, c, t))
  }

  /** list_init */
  lemma EmptyHolds(l: Links, h: nat, t: nat)
    requires h < |l| && t < |l| && h != t && l[h] == Node(NULL, t) && l[t] == Node(h, NULL)
    ensures Holds(l, h, t, [])
  {
    var f := Full(h, [], t);
    assert f == [h, t];
  }

  /** Linking e in between p and n. */
  function Between(l: Links, p: nat, e: nat, n: nat): (r: Links)
    requires p < |l| && e < |l| && n < |l|
    ensures |r| == |l|
  {
    var l1 := l[e := Node(p, n)];
    var l2 := l1[p := l1[p].(next := e)];
    l2[n := l2[n].(prev := e)]
  }

  function InsertAt(f: seq<nat>, i: nat, e: nat): (r: seq<nat>)
    requires i <= |f|
    ensures |r| == |f| + 1 && forall j :: 0 <= j < |r| ==>
              r[j] == if j < i then f[j] else if j == i then e else f[j - 1]
  {
    f[..i] + [e] + f[i..]
  }

  lemma BetweenAdjacent(l: Links, f: seq<nat>, i: nat, e: nat, j: nat)
    requires Chain(l, f) && i + 1 < |f| && e < |l| && e !in f && j < |f|
    requires f[i] < |l| && f[i + 1] < |l|
    ensures Adjacent(Between(l, f[i], e, f[i + 1]), InsertAt(f, i + 1, e), j)
  {
    assert Adjacent(l, f, i);
    assert j < i ==> Adjacent(l, f, j);
    assert j > i + 1 ==> Adjacent(l, f, j - 1);
  }

  lemma BetweenKeeps(l: Links, f: seq<nat>, i: nat, e: nat)
    requires Chain(l, f) && i + 1 < |f| && e < |l| && e !in f
    ensures f[i] < |l| && f[i + 1] < |l| && l[f[i]].next == f[i + 1] && l[f[i + 1]].prev == f[i]
    ensures Chain(Between(l, f[i], e, f[i + 1]), InsertAt(f, i + 1, e))
  {
    assert Adjacent(l, f, i);
    var l', f' := Between(l, f[i], e, f[i + 1]), InsertAt(f, i + 1, e);
    forall j | 0 <= j < |f'| - 1 ensures Adjacent(l', f', j) {
      BetweenAdjacent(l, f, i, e, j);
    }
  }

  /** The links of a list determine it: another store with the same links holds it too. */
  lemma ChainFrame(l: Links, l': Links, f: seq<nat>)
    requires Chain(l, f) && |l'| == |l| && forall x :: x in f && x < |l| ==> l'[x] == l[x]
    ensures Chain(l', f)
  {
    forall i | 0 <= i < |f| - 1 ensures Adjacent(l', f, i) {
      assert Adjacent(l, f, i);
      assert f[i] in f && f[i + 1] in f;
    }
    assert f[0] in f && f[|f| - 1] in f;
  }

  // ----- The operations.

  /** list_push_front */
  function PushFront(l: Links, h: nat, e: nat): (r: Links)
    requires h < |l| && e < |l| && 0 <= l[h].next < |l|
    ensures |r| == |l|
  {
    Between(l, h, e, l[h].next)
  }

  /** list_push_back */
  function PushBack(l: Links, t: nat, e: nat): (r: Links)
    requires t < |l| && e < |l| && 0 <= l[t].prev < |l|
    ensures |r| == |l|
  {
    Between(l, l[t].prev, e, t)
  }

  /** list_remove */
  function Detach(l: Links, e: nat): (r: Links)
    requires e < |l| && 0 <= l[e].prev < |l| && 0 <= l[e].next < |l|
    ensures |r| == |l|
  {
    var prev, next := l[e].prev, l[e].next;
    var l1 := l[next := l[next].(prev := prev)];
    l1[prev := l1[prev].(next := next)][e := Node(NULL, NULL)]
  }

  lemma PushFrontHolds(l: Links, h: nat, t: nat, c: seq<nat>, e: nat)
    requires Holds(l, h, t, c) && e < |l| && e !in Full(h, c, t)
    ensures h < |l| && 0 <= l[h].next < |l| && Holds(PushFront(l, h, e), h, t, [e] + c)
    ensures forall x :: 0 <= x < |l| && x != e && x !in Full(h, c, t) ==> PushFront(l, h, e)[x] == l[x]
  {
    hide Chain, Full;
    var f := Full(h, c, t);
    BetweenKeeps(l, f, 0, e);
    assert InsertAt(f, 1, e) == Full(h, [e] + c, t);
    assert f[0] in f && f[1] in f;
  }

  lemma PushBackHolds(l: Links, h: nat, t: nat, c: seq<nat>, e: nat)
    requires Holds(l, h, t, c) && e < |l| && e !in Full(h, c, t)
    ensures t < |l| && 0 <= l[t].prev < |l| && Holds(PushBack(l, t, e), h, t, c + [e])
    ensures forall x :: 0 <= x < |l| && x != e && x !in Full(h, c, t) ==> PushBack(l, t, e)[x] == l[x]
  {
    hide Chain;
    var f := Full(h, c, t);
    BetweenKeeps(l, f, |c|, e);
    assert InsertAt(f, |c| + 1, e) == Full(h, c + [e], t);
    assert f[|c|] in f && f[|c| + 1] in f;
  }

  lemma DetachPoints(l: Links, f: seq<nat>, j: nat)
    requires Chain(l, f) && 0 < j < |f| - 1
    ensures f[j] < |l| && 0 <= l[f[j]].prev < |l| && 0 <= l[f[j]].next < |l|
    ensures l[f[j]].prev == f[j - 1] && l[f[j]].next == f[j + 1]
  {
    assert Adjacent(l, f, j - 1) && Adjacent(l, f, j);
  }

  lemma DetachAdjacent(l: Links, f: seq<nat>, j: nat, i: nat)
    requires Chain(l, f) && 0 < j < |f| - 1 && i < |f| - 2
    requires f[j] < |l| && 0 <= l[f[j]].prev < |l| && 0 <= l[f[j]].next < |l|
    ensures Adjacent(Detach(l, f[j]), RemoveAt(f, j), i)
  {
    DetachPoints(l, f, j);
    assert i < j - 1 ==> Adjacent(l, f, i);
    assert i >= j ==> Adjacent(l, f, i + 1);
  }

  lemma DetachKeeps(l: Links, f: seq<nat>, j: nat)
    requires Chain(l, f) && 0 < j < |f| - 1
    requires f[j] < |l| && 0 <= l[f[j]].prev < |l| && 0 <= l[f[j]].next < |l|
    ensures Chain(Detach(l, f[j]), RemoveAt(f, j))
  {
    DetachPoints(l, f, j);
    forall i | 0 <= i < |f| - 2 ensures Adjacent(Detach(l, f[j]), RemoveAt(f, j), i) {
      DetachAdjacent(l, f, j, i);
    }
  }

  /** The ensure of list_remove does not fire on an entry of a list. */
  lemma DetachHolds(l: Links, h: nat, t: nat, c: seq<nat>, j: nat)
    requires Holds(l, h, t, c) && j < |c|
    ensures c[j] < |l| && 0 <= l[c[j]].prev < |l| && 0 <= l[c[j]].next < |l|
    ensures Holds(Detach(l, c[j]), h, t, RemoveAt(c, j))
    ensures forall x :: 0 <= x < |l| && x !in Full(h, c, t) ==> Detach(l, c[j])[x] == l[x]
  {
    hide Chain;
    var f := Full(h, c, t);
    hide Full;
    DetachPoints(l, f, j + 1);
    DetachKeeps(l, f, j + 1);
    assert RemoveAt(f, j + 1) == Full(h, RemoveAt(c, j), t);
    assert f[j] in f && f[j + 1] in f && f[j + 2] in f;
  }

  /** list_peek_back: the node before the tail is the last entry, or the head of an empty list. */
  lemma BackIs(l: Links, h: nat, t: nat, c: seq<nat>)
    requires Holds(l, h, t, c)
    ensures t < |l| && l[t].prev == if c == [] then h else c[|c| - 1]
    ensures h < |l| && (c == [] ==> l[h].prev == NULL)
  {
    var f := Full(h, c, t);
    assert Adjacent(l, f, |c|);
  }

  /** Going back along the list. */
  lemma PrevIs(l: Links, h: nat, t: nat, c: seq<nat>, j: nat)
    requires Holds(l, h, t, c) && j < |c|
    ensures c[j] < |l| && l[c[j]].prev == (if j == 0 then h else c[j - 1]) && c[j] != h
  {
    var f := Full(h, c, t);
    assert Adjacent(l, f, j);
    assert f[j + 1] == c[j];
  }
}
