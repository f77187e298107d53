/**
 nth_min of src/main/utils/metric.c: selects the n-th smallest of a range of an
 array, in place.
 */
module Metric {
  import opened Collections
  import opened Wrappers

  ghost predicate AllBelow(s: seq<int>, v: int) {
    forall i :: 0 <= i < |s| ==> s[i] < v
  }

  ghost predicate AllAtMost(s: seq<int>, v: int) {
    forall i :: 0 <= i < |s| ==> s[i] <= v
  }

  ghost predicate AllAtLeast(s: seq<int>, v: int) {
    forall i :: 0 <= i < |s| ==> s[i] >= v
  }

  /** v stands at position n - 1, no larger value before it and no smaller one after it. */
  ghost predicate Selected(s: seq<int>, n: nat, v: int) {
    1 <= n <= |s| && s[n - 1] == v && AllAtMost(s[..n - 1], v) && AllAtLeast(s[n..], v)
  }

  ghost predicate Permutes(s: seq<int>, t: seq<int>) {
    multiset(s) == multiset(t)
  }

  // ----- A selected value is the n-th smallest.

  ghost predicate Sorted(s: seq<int>) {
    forall i, j :: 0 <= i < j < |s| ==> s[i] <= s[j]
  }

  ghost function CountBelow(s: seq<int>, v: int): nat {
    if s == [] then 0 else CountBelow(s[1..], v) + if s[0] < v then 1 else 0
  }

  lemma {:induction false} CountAppend(s: seq<int>, t: seq<int>, v: int)
    ensures CountBelow(s + t, v) == CountBelow(s, v) + CountBelow(t, v)
  {
    if s == [] {
      assert s + t == t;
    } else {
      assert (s + t)[1..] == s[1..] + t;
      CountAppend(s[1..], t, v);
    }
  }

  lemma CountWithout(t: seq<int>, i: nat, v: int)
    requires i < |t|
    ensures CountBelow(t, v) == CountBelow(RemoveAt(t, i), v) + if t[i] < v then 1 else 0
  {
    var tail := [t[i]] + t[i + 1..];
    CountAppend(t[..i], t[i + 1..], v);
    CountAppend(t[..i], tail, v);
    assert t[..i] + tail == t;
    assert tail[1..] == t[i + 1..];
  }

  lemma MultisetWithout(t: seq<int>, i: nat)
    requires i < |t|
    ensures multiset(RemoveAt(t, i)) == multiset(t) - multiset{t[i]}
  {
    assert t == t[..i] + [t[i]] + t[i + 1..];
  }

  lemma {:induction false} CountPermuted(s: seq<int>, t: seq<int>, v: int)
    requires Permutes(s, t)
    ensures CountBelow(s, v) == CountBelow(t, v)
    decreases |s|
  {
    hide RemoveAt;
    if s == [] {
      assert |multiset(t)| == 0;
    } else {
      assert s[0] in multiset(t);
      var i :| 0 <= i < |t| && t[i] == s[0];
      MultisetWithout(s, 0);
      MultisetWithout(t, i);
      WithoutFirst(s);
      CountPermuted(RemoveAt(s, 0), RemoveAt(t, i), v);
      CountWithout(s, 0, v);
      CountWithout(t, i, v);
    }
  }

  lemma WithoutFirst(s: seq<int>)
    requires s != []
    ensures |RemoveAt(s, 0)| == |s| - 1
  {
  }

  lemma {:induction false} CountBounds(s: seq<int>, v: int)
    ensures CountBelow(s, v) <= |s|
    ensures AllBelow(s, v) ==> CountBelow(s, v) == |s|
    ensures AllAtLeast(s, v) ==> CountBelow(s, v) == 0
  {
    if s != [] {
      CountBounds(s[1..], v);
    }
  }

  /** A selected value has fewer than n smaller ones, and at least n that are not larger. */
  lemma SelectedCounts(s: seq<int>, n: nat, v: int)
    requires Selected(s, n, v)
    ensures CountBelow(s, v) < n <= CountBelow(s, v + 1)
  {
    var front, back := s[..n - 1], s[n..];
    assert s == front + ([v] + back) && s == (front + [v]) + back;
    Surrounded(front, back, v);
    hide *;
    CountAppend(front, [v] + back, v);
    CountAppend(front + [v], back, v + 1);
    CountBounds(front, v);
    CountBounds([v] + back, v);
    CountBounds(front + [v], v + 1);
  }

  lemma Surrounded(front: seq<int>, back: seq<int>, v: int)
    requires AllAtMost(front, v) && AllAtLeast(back, v)
    ensures AllAtLeast([v] + back, v) && AllBelow(front + [v], v + 1)
  {
  }

  lemma SortedSelects(t: seq<int>, n: nat)
    requires Sorted(t) && 1 <= n <= |t|
    ensures Selected(t, n, t[n - 1])
  {
  }

  lemma {:induction false} CountMonotone(s: seq<int>, v: int, w: int)
    requires v <= w
    ensures CountBelow(s, v) <= CountBelow(s, w)
  {
    if s != [] {
      CountMonotone(s[1..], v, w);
    }
  }

  /** So it is the element at position n - 1 of the sorted values. */
  lemma SelectedIsNthSmallest(s: seq<int>, n: nat, v: int, t: seq<int>)
    requires Selected(s, n, v) && Permutes(s, t) && Sorted(t)
    ensures n <= |t| && t[n - 1] == v
  {
    hide Sorted, Selected, CountBelow;
    SelectedSize(s, n, v);
    assert |multiset(s)| == |s| && |multiset(t)| == |t|;
    SelectedCounts(s, n, v);
    SortedSelects(t, n);
    var w := t[n - 1];
    SelectedCounts(t, n, w);
    CountPermuted(s, t, v);
    CountPermuted(s, t, v + 1);
    if w < v {
      CountMonotone(t, w + 1, v);
    } else if w > v {
      CountMonotone(t, v + 1, w);
    }
  }

  lemma SelectedSize(s: seq<int>, n: nat, v: int)
    requires Selected(s, n, v)
    ensures 1 <= n <= |s|
  {
  }

  // ----- The selection.

  /** Only the values from lo up to and not including hi have changed, and they are permuted. */
  ghost predicate Rearranged(s: seq<int>, t: seq<int>, lo: nat, hi: nat) {
    && lo <= hi <= |s| == |t|
    && (forall k :: 0 <= k < lo || hi <= k < |s| ==> s[k] == t[k])
    && Permutes(s[lo..hi], t[lo..hi])
  }

  lemma RearrangedTrans(s: seq<int>, t: seq<int>, u: seq<int>, lo: nat, hi: nat)
    requires Rearranged(s, t, lo, hi) && Rearranged(t, u, lo, hi)
    ensures Rearranged(s, u, lo, hi)
  {
  }

  lemma RearrangedSelf(s: seq<int>, lo: nat, hi: nat)
    requires lo <= hi <= |s|
    ensures Rearranged(s, s, lo, hi)
  {
  }

  /** Rearranging a part rearranges the whole. */
  lemma RearrangedPart(s: seq<int>, t: seq<int>, lo: nat, lo': nat, hi': nat, hi: nat)
    requires Rearranged(s, t, lo', hi') && lo <= lo' <= hi' <= hi <= |s|
    ensures Rearranged(s, t, lo, hi)
  {
    assert s[lo..hi] == s[lo..lo'] + s[lo'..hi'] + s[hi'..hi];
    assert t[lo..hi] == t[lo..lo'] + t[lo'..hi'] + t[hi'..hi];
    assert s[lo..lo'] == t[lo..lo'] && s[hi'..hi] == t[hi'..hi];
  }

  method Swap(a: array<int>, i: nat, j: nat)
    requires i <= j < a.Length
    modifies a
    ensures a[..] == old(a[..])[i := old(a[j])][j := old(a[i])]
  {
    a[i], a[j] := a[j], a[i];
  }

  lemma SwapRearranges(s: seq<int>, lo: nat, hi: nat, i: nat, j: nat)
    requires lo <= i <= j < hi <= |s|
    ensures Rearranged(s[i := s[j]][j := s[i]], s, lo, hi)
  {
    var t := s[lo..hi];
    assert s[i := s[j]][j := s[i]][lo..hi] == t[i - lo := t[j - lo]][j - lo := t[i - lo]];
  }

  /** The values of s below v, in order. */
  function Smaller(s: seq<int>, v: int): (r: seq<int>)
    ensures |r| <= |s|
  {
    if s == [] then []
    else
      var front := Smaller(s[..|s| - 1], v);
      if s[|s| - 1] < v then front + [s[|s| - 1]] else front
  }

  /** The first value goes to the end. */
  function Rotate(q: seq<int>): (r: seq<int>)
    ensures |r| == |q|
  {
    if q == [] then [] else q[1..] + [q[0]]
  }

  /** The values of s that are not below v: every smaller one that comes along turns those before it round by one. */
  function Others(s: seq<int>, v: int): (r: seq<int>)
    ensures |r| + |Smaller(s, v)| == |s|
  {
    if s == [] then []
    else
      var front := Others(s[..|s| - 1], v);
      if s[|s| - 1] < v then Rotate(front) else front + [s[|s| - 1]]
  }

  /** Up to i, the values below the pivot come first; from i on, nothing has changed. */
  ghost predicate Divided(start: seq<int>, s: seq<int>, pivot: int, lo: nat, wi: nat, i: nat, hi: nat) {
    && lo <= wi <= i < hi <= |s| == |start| && s[hi - 1] == pivot
    && (forall k :: lo <= k < wi ==> s[k] < pivot)
    && (forall k :: wi <= k < i ==> s[k] >= pivot)
    && (forall k :: i <= k < hi ==> s[k] == start[k])
  }

  /** The loop of nth_min, begun on start, has come to i. */
  ghost predicate Parted(start: seq<int>, s: seq<int>, pivot: int, lo: nat, wi: nat, i: nat, hi: nat) {
    && Divided(start, s, pivot, lo, wi, i, hi)
    && s[lo..wi] == Smaller(start[lo..i], pivot) && s[wi..i] == Others(start[lo..i], pivot)
  }

  lemma DividedStep(start: seq<int>, s: seq<int>, pivot: int, lo: nat, wi: nat, i: nat, hi: nat)
    requires Divided(start, s, pivot, lo, wi, i, hi) && i + 1 < hi
    ensures s[i] >= pivot ==> Divided(start, s, pivot, lo, wi, i + 1, hi)
    ensures s[i] < pivot ==> Divided(start, s[wi := s[i]][i := s[wi]], pivot, lo, wi + 1, i + 1, hi)
  {
  }

  lemma DividedBounds(start: seq<int>, s: seq<int>, pivot: int, lo: nat, wi: nat, i: nat, hi: nat)
    requires Divided(start, s, pivot, lo, wi, i, hi)
    ensures lo <= wi <= i < hi <= |s| == |start| && s[i] == start[i]
  {
  }

  lemma PartedStep(start: seq<int>, s: seq<int>, pivot: int, lo: nat, wi: nat, i: nat, hi: nat)
    requires Parted(start, s, pivot, lo, wi, i, hi) && i + 1 < hi <= |s|
    ensures s[i] >= pivot ==> Parted(start, s, pivot, lo, wi, i + 1, hi)
    ensures lo <= wi <= i
    ensures s[i] < pivot ==> Parted(start, s[wi := s[i]][i := s[wi]], pivot, lo, wi + 1, i + 1, hi)
  {
    hide Divided, Smaller, Others, Rotate;
    DividedBounds(start, s, pivot, lo, wi, i, hi);
    DividedStep(start, s, pivot, lo, wi, i, hi);
    OneMoreSplit(start, lo, i, pivot);
    if s[i] < pivot {
      SwapSmaller(s, lo, wi, i);
    } else {
      assert s[wi..i + 1] == s[wi..i] + [s[i]];
    }
  }

  lemma OneMoreSplit(start: seq<int>, lo: nat, i: nat, pivot: int)
    requires lo <= i < |start|
    ensures Smaller(start[lo..i + 1], pivot) ==
              Smaller(start[lo..i], pivot) + if start[i] < pivot then [start[i]] else []
    ensures var others := Others(start[lo..i], pivot);
            Others(start[lo..i + 1], pivot) == if start[i] < pivot then Rotate(others) else others + [start[i]]
  {
    assert start[lo..i + 1][..i - lo] == start[lo..i];
  }

  lemma SwapSmaller(s: seq<int>, lo: nat, wi: nat, i: nat)
    requires lo <= wi <= i < |s|
    ensures var t := s[wi := s[i]][i := s[wi]];
            t[lo..wi + 1] == s[lo..wi] + [s[i]] && t[wi + 1..i + 1] == Rotate(s[wi..i])
  {
    var t := s[wi := s[i]][i := s[wi]];
    if wi < i {
      assert t[wi + 1..i + 1] == s[wi..i][1..] + [s[wi..i][0]];
    }
  }

  lemma PartedEnd(start: seq<int>, s: seq<int>, pivot: int, lo: nat, wi: nat, hi: nat)
    requires hi > 0 && Parted(start, s, pivot, lo, wi, hi - 1, hi)
    ensures var t := s[wi := pivot][hi - 1 := s[wi]];
            && t[wi] == pivot && AllBelow(t[lo..wi], pivot) && AllAtLeast(t[wi + 1..hi], pivot)
            && t[lo..wi] == Smaller(start[lo..hi - 1], pivot)
            && t[wi + 1..hi] == Rotate(Others(start[lo..hi - 1], pivot))
  {
    hide Smaller, Others;
    var t := s[wi := pivot][hi - 1 := s[wi]];
    assert t[lo..wi] == s[lo..wi];
    assert t[wi + 1..hi] == Rotate(s[wi..hi - 1]);
  }

  lemma PartedStart(start: seq<int>, lo: nat, hi: nat)
    requires lo < hi <= |start|
    ensures Parted(start, start, start[hi - 1], lo, lo, lo, hi)
  {
  }

  /** One round of the loop of nth_min. */
  method Advance(a: array<int>, lo: nat, hi: nat, wi: nat, i: nat, pivot: int, ghost start: seq<int>) returns (wi': nat)
    requires lo <= wi <= i < hi - 1 < a.Length
    requires Parted(start, a[..], pivot, lo, wi, i, hi) && Rearranged(a[..], start, lo, hi)
    modifies a
    ensures lo <= wi' <= i + 1 && Parted(start, a[..], pivot, lo, wi', i + 1, hi) && Rearranged(a[..], start, lo, hi)
  {
    hide *;
    ghost var s := a[..];
    PartedStep(start, s, pivot, lo, wi, i, hi);
    if a[i] < pivot {
      SwapRearranges(s, lo, hi, wi, i);
      Swap(a, wi, i);
      RearrangedTrans(a[..], s, start, lo, hi);
      wi' := wi + 1;
    } else {
      wi' := wi;
    }
  }

  /** The loop of nth_min: smaller values first, in their old order, then the pivot, then the others, turned round. */
  method Partition(a: array<int>, lo: nat, hi: nat) returns (wi: nat)
    requires lo < hi <= a.Length
    modifies a
    ensures lo <= wi < hi && Rearranged(a[..], old(a[..]), lo, hi) && a[wi] == old(a[hi - 1])
    ensures AllBelow(a[..][lo..wi], a[wi]) && AllAtLeast(a[..][wi + 1..hi], a[wi])
    ensures a[..][lo..wi] == Smaller(old(a[..])[lo..hi - 1], old(a[hi - 1]))
    ensures a[..][wi + 1..hi] == Rotate(Others(old(a[..])[lo..hi - 1], old(a[hi - 1])))
  {
    hide *;
    ghost var start := a[..];
    RearrangedSelf(start, lo, hi);
    PartedStart(start, lo, hi);
    var pivot := a[hi - 1];
    wi := lo;
    for i := lo to hi - 1
      invariant lo <= wi <= i && Parted(start, a[..], pivot, lo, wi, i, hi) && Rearranged(a[..], start, lo, hi)
    {
      wi := Advance(a, lo, hi, wi, i, pivot, start);
    }
    PlacePivot(a, lo, hi, wi, pivot, start);
  }

  /** Behind the loop of nth_min: the pivot goes between the two parts. */
  method PlacePivot(a: array<int>, lo: nat, hi: nat, wi: nat, ghost pivot: int, ghost start: seq<int>)
    requires lo <= wi < hi <= a.Length && |start| == a.Length
    requires Parted(start, a[..], pivot, lo, wi, hi - 1, hi) && Rearranged(a[..], start, lo, hi)
    modifies a
    ensures Rearranged(a[..], start, lo, hi) && a[wi] == pivot
    ensures AllBelow(a[..][lo..wi], pivot) && AllAtLeast(a[..][wi + 1..hi], pivot)
    ensures a[..][lo..wi] == Smaller(start[lo..hi - 1], pivot)
    ensures a[..][wi + 1..hi] == Rotate(Others(start[lo..hi - 1], pivot))
  {
    hide *;
    PivotPlaced(start, a[..], pivot, lo, wi, hi);
    Swap(a, wi, hi - 1);
    assert a[wi] == a[..][wi];
  }

  lemma PivotPlaced(start: seq<int>, s: seq<int>, pivot: int, lo: nat, wi: nat, hi: nat)
    requires lo <= wi < hi <= |s| && Parted(start, s, pivot, lo, wi, hi - 1, hi) && Rearranged(s, start, lo, hi)
    ensures var t := s[wi := s[hi - 1]][hi - 1 := s[wi]];
            && Rearranged(t, start, lo, hi) && t[wi] == pivot
            && AllBelow(t[lo..wi], pivot) && AllAtLeast(t[wi + 1..hi], pivot)
            && hi <= |start| && t[lo..wi] == Smaller(start[lo..hi - 1], pivot)
            && t[wi + 1..hi] == Rotate(Others(start[lo..hi - 1], pivot))
  {
    hide *;
    PartedPivot(start, s, pivot, lo, wi, hi);
    PartedEnd(start, s, pivot, lo, wi, hi);
    SwapRearranges(s, lo, hi, wi, hi - 1);
    RearrangedTrans(s[wi := pivot][hi - 1 := s[wi]], s, start, lo, hi);
  }

  lemma PartedPivot(start: seq<int>, s: seq<int>, pivot: int, lo: nat, wi: nat, hi: nat)
    requires hi > 0 && Parted(start, s, pivot, lo, wi, hi - 1, hi)
    ensures hi <= |s| == |start| && s[hi - 1] == pivot
  {
    hide Smaller, Others;
  }

  lemma PermutesBounds(s: seq<int>, t: seq<int>, v: int)
    requires Permutes(s, t)
    ensures |s| == |t|
    ensures AllBelow(t, v) ==> AllBelow(s, v)
    ensures AllAtLeast(t, v) ==> AllAtLeast(s, v)
  {
    assert |multiset(s)| == |s| && |multiset(t)| == |t|;
    forall i | 0 <= i < |s| ensures s[i] in t {
      assert s[i] in multiset(s);
    }
  }

  /** What is selected on the left of the pivot is selected from the whole. */
  lemma SelectLeft(left: seq<int>, pivot: int, right: seq<int>, n: nat, v: int)
    requires Selected(left, n, v) && AllBelow(left, pivot) && AllAtLeast(right, pivot)
    ensures Selected(left + ([pivot] + right), n, v)
  {
    var s := left + ([pivot] + right);
    assert left[n - 1] == v;
    assert s[..n - 1] == left[..n - 1];
    assert s[n..] == left[n..] + ([pivot] + right);
  }

  lemma SelectPivot(left: seq<int>, pivot: int, right: seq<int>)
    requires AllBelow(left, pivot) && AllAtLeast(right, pivot)
    ensures Selected(left + ([pivot] + right), |left| + 1, pivot)
  {
    var s, n := left + ([pivot] + right), |left| + 1;
    assert s[..n - 1] == left && s[n..] == right;
  }

  lemma SelectRight(left: seq<int>, pivot: int, right: seq<int>, n: nat, v: int)
    requires Selected(right, n, v) && AllBelow(left, pivot) && AllAtLeast(right, pivot)
    ensures Selected(left + ([pivot] + right), |left| + 1 + n, v)
  {
    var s, m := left + ([pivot] + right), |left| + 1 + n;
    assert right[n - 1] >= pivot;
    assert s[..m - 1] == left + ([pivot] + right[..n - 1]);
    assert s[m..] == right[n..];
  }

  lemma SplitAt(s: seq<int>, lo: nat, wi: nat, hi: nat)
    requires lo <= wi < hi <= |s|
    ensures s[lo..hi] == s[lo..wi] + ([s[wi]] + s[wi + 1..hi])
  {
  }

  /** Going on to the left of the pivot. */
  lemma LeftStep(s: seq<int>, t: seq<int>, lo: nat, wi: nat, hi: nat, n: nat, v: int)
    requires lo <= wi < hi <= |s| && Rearranged(t, s, lo, wi)
    requires AllBelow(s[lo..wi], s[wi]) && AllAtLeast(s[wi + 1..hi], s[wi]) && Selected(t[lo..wi], n, v)
    ensures Rearranged(t, s, lo, hi) && Selected(t[lo..hi], n, v)
  {
    RearrangedPart(t, s, lo, lo, wi, hi);
    PermutesBounds(t[lo..wi], s[lo..wi], s[wi]);
    assert t[wi + 1..hi] == s[wi + 1..hi];
    hide *;
    SelectLeft(t[lo..wi], t[wi], t[wi + 1..hi], n, v);
    SplitAt(t, lo, wi, hi);
  }

  /** Going on to its right. */
  lemma RightStep(s: seq<int>, t: seq<int>, lo: nat, wi: nat, hi: nat, n: nat, v: int)
    requires lo <= wi < hi <= |s| && Rearranged(t, s, wi + 1, hi)
    requires AllBelow(s[lo..wi], s[wi]) && AllAtLeast(s[wi + 1..hi], s[wi]) && Selected(t[wi + 1..hi], n, v)
    ensures Rearranged(t, s, lo, hi) && Selected(t[lo..hi], wi - lo + 1 + n, v)
  {
    RearrangedPart(t, s, lo, wi + 1, hi, hi);
    PermutesBounds(t[wi + 1..hi], s[wi + 1..hi], s[wi]);
    assert t[lo..wi] == s[lo..wi];
    hide *;
    SelectRight(t[lo..wi], t[wi], t[wi + 1..hi], n, v);
    SplitAt(t, lo, wi, hi);
  }

  // ----- Positions outside the range: n = 0, and n above its length.

  /** For n = 0, nth_min goes on with the values below the pivot until one is left, or none. */
  predicate Survives(s: seq<int>)
    decreases |s|
  {
    |s| == 1 || (|s| > 1 && Survives(Smaller(s[..|s| - 1], s[|s| - 1])))
  }

  /**
   s[i] is below everything behind it, and s[j] is the only smaller value in front
   of it: the minimum is unique, and stands before the last of the next smallest.
   */
  ghost predicate Shielded(s: seq<int>, j: nat, i: nat) {
    && j < i < |s| && s[j] < s[i]
    && (forall k :: i < k < |s| ==> s[i] < s[k])
    && (forall k :: 0 <= k < i && k != j ==> s[i] <= s[k])
  }

  ghost predicate MinimumShielded(s: seq<int>) {
    |s| == 1 || exists j: nat, i: nat :: Shielded(s, j, i)
  }

  /** Where s[m] stands among the smaller values. */
  function Place(s: seq<int>, v: int, m: nat): nat
    requires m <= |s|
  {
    |Smaller(s[..m], v)|
  }

  lemma {:induction false} SmallerPlaces(s: seq<int>, v: int, m: nat)
    requires m < |s| && s[m] < v
    ensures Place(s, v, m) < |Smaller(s, v)| && Smaller(s, v)[Place(s, v, m)] == s[m]
  {
    var n := |s| - 1;
    assert s[..n][..if m < n then m else n] == s[..m];
    if m < n {
      SmallerPlaces(s[..n], v, m);
    }
  }

  lemma {:induction false} SmallerFrom(s: seq<int>, v: int, k: nat) returns (m: nat)
    requires k < |Smaller(s, v)|
    ensures m < |s| && s[m] < v && Place(s, v, m) == k && Smaller(s, v)[k] == s[m]
  {
    var n := |s| - 1;
    if k < |Smaller(s[..n], v)| {
      m := SmallerFrom(s[..n], v, k);
      assert s[..n][..m] == s[..m];
    } else {
      m := n;
    }
  }

  lemma {:induction false} PlaceMonotone(s: seq<int>, v: int, m: nat, l: nat)
    requires m < l <= |s|
    ensures Place(s, v, m) + (if s[m] < v then 1 else 0) <= Place(s, v, l)
  {
    assert s[..l][..l - 1] == s[..l - 1];
    if m < l - 1 {
      PlaceMonotone(s, v, m, l - 1);
    }
  }

  /** What is shielded among the smaller values is shielded in the whole. */
  lemma ShieldedOut(s: seq<int>, j: nat, i: nat) returns (j': nat, i': nat)
    requires |s| > 1 && Shielded(Smaller(s[..|s| - 1], s[|s| - 1]), j, i)
    ensures Shielded(s, j', i')
  {
    hide Smaller, Place;
    var front, v := s[..|s| - 1], s[|s| - 1];
    j' := SmallerFrom(front, v, j);
    i' := SmallerFrom(front, v, i);
    if i' <= j' {
      PlaceMonotone(front, v, i', if i' < j' then j' else |front|);
    }
    forall k | 0 <= k < |front| && k != j' && k != i'
      ensures if k < i' then s[i'] <= s[k] else s[i'] < s[k]
    {
      if s[k] < v {
        SmallerPlaces(front, v, k);
        PlaceMonotone(front, v, if k < i' then k else i', if k < i' then i' else k);
        PlaceMonotone(front, v, if k < j' then k else j', if k < j' then j' else k);
      }
    }
  }

  /** And what is shielded in the whole, by another value than the pivot, is shielded among the smaller ones. */
  lemma ShieldedIn(s: seq<int>, j: nat, i: nat)
    requires |s| > 1 && Shielded(s, j, i) && i < |s| - 1
    ensures var front, v := s[..|s| - 1], s[|s| - 1];
            Shielded(Smaller(front, v), Place(front, v, j), Place(front, v, i))
  {
    hide Smaller, Place;
    var front, v := s[..|s| - 1], s[|s| - 1];
    var t := Smaller(front, v);
    SmallerPlaces(front, v, j);
    SmallerPlaces(front, v, i);
    PlaceMonotone(front, v, j, i);
    forall k | 0 <= k < |t| && k != Place(front, v, j) && k != Place(front, v, i)
      ensures if k < Place(front, v, i) then t[Place(front, v, i)] <= t[k] else t[Place(front, v, i)] < t[k]
    {
      var m := SmallerFrom(front, v, k);
      if i < m {
        PlaceMonotone(front, v, i, m);
      } else {
        PlaceMonotone(front, v, m, i);
      }
    }
  }

  /** If the pivot is shielded, one value is below it. */
  lemma {:induction false} OnlySmaller(s: seq<int>, v: int, j: nat)
    requires j < |s| && s[j] < v && forall k :: 0 <= k < |s| && k != j ==> v <= s[k]
    ensures |Smaller(s, v)| == 1
  {
    var n := |s| - 1;
    if j < n {
      OnlySmaller(s[..n], v, j);
    } else {
      NoneSmaller(s[..n], v);
    }
  }

  lemma {:induction false} NoneSmaller(s: seq<int>, v: int)
    requires forall k :: 0 <= k < |s| ==> v <= s[k]
    ensures Smaller(s, v) == []
  {
    if s != [] {
      NoneSmaller(s[..|s| - 1], v);
    }
  }

  /** If only one value is below the pivot, the pivot is shielded. */
  lemma OneIsShield(s: seq<int>)
    requires |s| > 1 && |Smaller(s[..|s| - 1], s[|s| - 1])| == 1
    ensures MinimumShielded(s)
  {
    hide Smaller, Place;
    var front, v := s[..|s| - 1], s[|s| - 1];
    var j := SmallerFrom(front, v, 0);
    forall k | 0 <= k < |front| && k != j ensures v <= s[k] {
      if s[k] < v {
        SmallerPlaces(front, v, k);
        PlaceMonotone(front, v, if k < j then k else j, if k < j then j else k);
      }
    }
    assert Shielded(s, j, |s| - 1);
  }

  /** For n = 0 one value survives exactly if the minimum is shielded. */
  lemma {:induction false} SurvivesIffShielded(s: seq<int>)
    ensures Survives(s) <==> MinimumShielded(s)
    decreases |s|
  {
    if |s| > 1 {
      var front, v := s[..|s| - 1], s[|s| - 1];
      var t := Smaller(front, v);
      SurvivesIffShielded(t);
      if MinimumShielded(t) {
        if |t| == 1 {
          OneIsShield(s);
        } else {
          var j, i :| Shielded(t, j, i);
          j, i := ShieldedOut(s, j, i);
        }
      }
      if j: nat, i: nat :| Shielded(s, j, i) {
        if i < |s| - 1 {
          ShieldedIn(s, j, i);
        } else {
          OnlySmaller(front, v, j);
        }
      }
    }
  }

  /** For n above the length, nth_min goes on with the values behind the pivot until one is left, or none. */
  predicate Outlasts(s: seq<int>)
    decreases |s|
  {
    |s| == 1 || (|s| > 1 && Outlasts(Rotate(Others(s[..|s| - 1], s[|s| - 1]))))
  }

  lemma {:induction false} OthersMembers(s: seq<int>, v: int)
    ensures forall x :: multiset(Others(s, v))[x] == if x >= v then multiset(s)[x] else 0
  {
    if s != [] {
      hide Rotate;
      var front := s[..|s| - 1];
      assert s == front + [s[|s| - 1]];
      OthersMembers(front, v);
      RotateMembers(Others(front, v));
    }
  }

  lemma RotateMembers(q: seq<int>)
    ensures multiset(Rotate(q)) == multiset(q)
  {
    if q != [] {
      assert q == [q[0]] + q[1..];
    }
  }

  /** With its maximum in two places, a range outlasts the pivots. */
  lemma {:induction false} RepeatedMaximumOutlasts(s: seq<int>, v: int)
    requires multiset(s)[v] >= 2 && AllAtMost(s, v)
    ensures Outlasts(s)
    decreases |s|
  {
    var front, p := s[..|s| - 1], s[|s| - 1];
    assert s == front + [p];
    var t := Rotate(Others(front, p));
    OthersMembers(front, p);
    RotateMembers(Others(front, p));
    assert multiset(t)[v] >= 1;
    forall i | 0 <= i < |t| ensures p <= t[i] <= v {
      assert t[i] in multiset(t);
    }
    if p < v {
      RepeatedMaximumOutlasts(t, v);
    } else {
      AllEqualOutlast(t, v);
    }
  }

  lemma OtherIsMember(s: seq<int>, v: int, x: int)
    requires x in multiset(Others(s, v))
    ensures x in s
  {
    hide Others;
    OthersMembers(s, v);
    assert multiset(Others(s, v))[x] > 0;
    assert x in multiset(s);
  }

  lemma {:induction false} AllEqualOutlast(s: seq<int>, v: int)
    requires s != [] && forall i :: 0 <= i < |s| ==> s[i] == v
    ensures Outlasts(s)
    decreases |s|
  {
    if |s| > 1 {
      var front := s[..|s| - 1];
      NoneSmaller(front, v);
      var t := Rotate(Others(front, v));
      assert |t| == |front|;
      RotateMembers(Others(front, v));
      forall i | 0 <= i < |t| ensures t[i] == v {
        assert t[i] in multiset(t);
        OtherIsMember(front, v, t[i]);
      }
      AllEqualOutlast(t, v);
    }
  }

  /** With its only maximum at the end, a range of two or more does not. */
  lemma LastMaximumFails(s: seq<int>)
    requires |s| > 1 && AllBelow(s[..|s| - 1], s[|s| - 1])
    ensures !Outlasts(s)
  {
    var front, v := s[..|s| - 1], s[|s| - 1];
    AllSmaller(front, v);
    assert Rotate(Others(front, v)) == [];
  }

  lemma {:induction false} AllSmaller(s: seq<int>, v: int)
    requires AllBelow(s, v)
    ensures Others(s, v) == []
  {
    if s != [] {
      AllSmaller(s[..|s| - 1], v);
    }
  }

  ghost predicate Minimum(s: seq<int>, v: int) {
    v in s && AllAtLeast(s, v)
  }

  lemma MinimumLeft(left: seq<int>, pivot: int, right: seq<int>, v: int)
    requires Minimum(left, v) && AllBelow(left, pivot) && AllAtLeast(right, pivot)
    ensures Minimum(left + ([pivot] + right), v)
  {
  }

  ghost predicate Maximum(s: seq<int>, v: int) {
    v in s && AllAtMost(s, v)
  }

  lemma MaximumRight(left: seq<int>, pivot: int, right: seq<int>, v: int)
    requires Maximum(right, v) && AllBelow(left, pivot) && AllAtLeast(right, pivot)
    ensures Maximum(left + ([pivot] + right), v)
  {
    assert v >= pivot;
  }

  /** Going on to the right of the pivot for n above the length. */
  lemma BeyondStep(s: seq<int>, t: seq<int>, lo: nat, wi: nat, hi: nat, r: Option<int>)
    requires lo <= wi < hi <= |s| && Rearranged(t, s, wi + 1, hi)
    requires AllBelow(s[lo..wi], s[wi]) && AllAtLeast(s[wi + 1..hi], s[wi])
    requires r.Some? ==> Maximum(t[wi + 1..hi], r.value)
    ensures Rearranged(t, s, lo, hi) && (r.Some? ==> Maximum(t[lo..hi], r.value))
  {
    RearrangedPart(t, s, lo, wi + 1, hi, hi);
    PermutesBounds(t[wi + 1..hi], s[wi + 1..hi], s[wi]);
    assert t[lo..wi] == s[lo..wi];
    hide *;
    SplitAt(t, lo, wi, hi);
    if r.Some? {
      MaximumRight(t[lo..wi], t[wi], t[wi + 1..hi], r.value);
    }
  }

  /** Going on to the left of the pivot for n = 0. */
  lemma ZeroStep(s: seq<int>, t: seq<int>, lo: nat, wi: nat, hi: nat, r: Option<int>)
    requires lo <= wi < hi <= |s| && Rearranged(t, s, lo, wi)
    requires AllBelow(s[lo..wi], s[wi]) && AllAtLeast(s[wi + 1..hi], s[wi]) && (r.Some? ==> Minimum(t[lo..wi], r.value))
    ensures Rearranged(t, s, lo, hi) && (r.Some? ==> Minimum(t[lo..hi], r.value))
  {
    RearrangedPart(t, s, lo, lo, wi, hi);
    PermutesBounds(t[lo..wi], s[lo..wi], s[wi]);
    assert t[wi + 1..hi] == s[wi + 1..hi];
    hide *;
    SplitAt(t, lo, wi, hi);
    if r.Some? {
      MinimumLeft(t[lo..wi], t[wi], t[wi + 1..hi], r.value);
    }
  }

  /**
   nth_min on the values from lo up to and not including hi; None means that it
   comes to an empty range, on which it reads at -1 and its loop runs on past the
   array. That happens for positions outside the range only: for n = 0 exactly if
   the minimum is not shielded, for n above the length exactly if no value
   outlasts the pivots.
   */
  method NthMin(a: array<int>, lo: nat, hi: nat, n: nat) returns (r: Option<int>)
    requires lo <= hi <= a.Length
    modifies a
    ensures Rearranged(a[..], old(a[..]), lo, hi)
    ensures 1 <= n <= hi - lo ==> r.Some? && Selected(a[..][lo..hi], n, r.value)
    ensures n == 0 ==> (r.Some? <==> MinimumShielded(old(a[..])[lo..hi]))
    ensures n == 0 && r.Some? ==> Minimum(a[..][lo..hi], r.value)
    ensures n > hi - lo ==> (r.Some? <==> Outlasts(old(a[..])[lo..hi])) && (r.Some? ==> Maximum(a[..][lo..hi], r.value))
    decreases hi - lo
  {
    hide Rearranged, Selected, AllBelow, AllAtLeast, Minimum, Maximum, Smaller, Others, Rotate, Survives, Outlasts,
         MinimumShielded;
    ghost var start := a[..];
    RearrangedSelf(start, lo, hi);
    RangeEnds(start[lo..hi]);
    if hi == lo {
      return None;
    }
    if hi - lo == 1 {
      OneSelected(start[lo..hi]);
      return Some(a[lo]);
    }
    RangeGoesOn(start, lo, hi);
    var wi := Partition(a, lo, hi);
    ghost var s := a[..];
    if n <= wi - lo {
      r := NthMin(a, lo, wi, n);
      if n == 0 {
        ZeroStep(s, a[..], lo, wi, hi, r);
      } else {
        LeftStep(s, a[..], lo, wi, hi, n, r.value);
      }
    } else if n == wi - lo + 1 {
      r := Some(a[wi]);
      RearrangedSelf(s, lo, hi);
      SelectPivot(s[lo..wi], s[wi], s[wi + 1..hi]);
      SplitAt(s, lo, wi, hi);
    } else {
      r := NthMin(a, wi + 1, hi, n - (wi - lo) - 1);
      if n > hi - lo {
        BeyondStep(s, a[..], lo, wi, hi, r);
      } else {
        RightStep(s, a[..], lo, wi, hi, n - (wi - lo) - 1, r.value);
      }
    }
    RearrangedTrans(a[..], s, start, lo, hi);
  }

  lemma RangeEnds(s: seq<int>)
    ensures |s| == 0 ==> !MinimumShielded(s) && !Outlasts(s)
    ensures |s| == 1 ==> MinimumShielded(s) && Outlasts(s)
  {
  }

  lemma RangeGoesOn(s: seq<int>, lo: nat, hi: nat)
    requires lo + 1 < hi <= |s|
    ensures MinimumShielded(s[lo..hi]) <==> MinimumShielded(Smaller(s[lo..hi - 1], s[hi - 1]))
    ensures Outlasts(s[lo..hi]) <==> Outlasts(Rotate(Others(s[lo..hi - 1], s[hi - 1])))
  {
    hide Smaller, Others, Rotate, MinimumShielded;
    assert s[lo..hi][..hi - lo - 1] == s[lo..hi - 1];
    SurvivesIffShielded(s[lo..hi]);
    SurvivesIffShielded(Smaller(s[lo..hi - 1], s[hi - 1]));
  }

  /** On two values in descending order, n = 0 comes to an empty range; on two in ascending order, n = 3 does. */
  lemma TwoDoNotSurvive()
    ensures !MinimumShielded([2, 1]) && !Outlasts([1, 2])
  {
    LastMaximumFails([1, 2]);
  }

  lemma OneSelected(s: seq<int>)
    requires |s| == 1
    ensures Selected(s, 1, s[0]) && Minimum(s, s[0]) && Maximum(s, s[0])
  {
  }
}
