/**
 The degrees that the decoder of src/main/rs/rs.c reads off its bitmap when a
 block is complete.
 */
module Missing {
  import opened Collections
  import opened Erasures
  import opened Block
  import opened Bitmap

  /** The unset degrees from lo up to and not including hi, highest first. */
  function Unset(mask: Mask, lo: nat, hi: nat): (ds: seq<nat>)
    requires mask.Valid() && hi <= 256
    decreases hi - lo
  {
    if lo >= hi then []
    else if IsSet(mask, lo) then Unset(mask, lo + 1, hi)
    else Unset(mask, lo + 1, hi) + [lo]
  }

  lemma {:induction false} UnsetMembers(mask: Mask, lo: nat, hi: nat)
    requires mask.Valid() && hi <= 256
    ensures forall d :: d in Unset(mask, lo, hi) <==> lo <= d < hi && !IsSet(mask, d)
    ensures Descending(Unset(mask, lo, hi))
    decreases hi - lo
  {
    hide IsSet;
    if lo < hi {
      UnsetMembers(mask, lo + 1, hi);
      var rest := Unset(mask, lo + 1, hi);
      forall i | 0 <= i < |rest| ensures rest[i] > lo {
        assert rest[i] in rest;
      }
    }
  }

  ghost predicate Descending(s: seq<nat>) {
    forall i, j :: 0 <= i < j < |s| ==> s[i] > s[j]
  }

  /** Going on below lo only appends. */
  lemma {:induction false} UnsetPrefix(mask: Mask, lo: nat, mid: nat, hi: nat)
    requires mask.Valid() && hi <= 256 && lo <= mid <= hi
    ensures Unset(mask, mid, hi) <= Unset(mask, lo, hi)
    decreases mid - lo
  {
    hide IsSet;
    if lo < mid {
      UnsetPrefix(mask, lo + 1, mid, hi);
    }
  }

  // ----- Counting.

  lemma {:induction false} DistinctSize(s: seq<nat>)
    requires Distinct(s)
    ensures |Elements(s)| == |s|
  {
    if s != [] {
      var n := |s| - 1;
      DistinctSize(s[..n]);
      assert Elements(s) == Elements(s[..n]) + {s[n]};
      assert s[n] !in s[..n];
    }
  }

  ghost function Initial(n: nat): (r: set<nat>)
    ensures |r| == n && forall x :: x in r <==> 0 <= x < n
  {
    if n == 0 then {} else Initial(n - 1) + {n - 1}
  }

  /** Disjoint lists of distinct degrees below N fit; if they cover all of it, exactly. */
  lemma DisjointSizes(a: seq<nat>, b: seq<nat>, N: nat)
    requires Distinct(a) && Distinct(b) && Below(a, N) && Below(b, N)
    requires forall d :: d in a ==> d !in b
    ensures |a| + |b| <= N
    ensures (forall d :: 0 <= d < N ==> d in a || d in b) ==> |a| + |b| == N
  {
    DistinctSize(a);
    DistinctSize(b);
    var u := Elements(a) + Elements(b);
    assert |u| == |Elements(a)| + |Elements(b)| by {
      assert Elements(a) !! Elements(b);
    }
    assert u <= Initial(N);
    SubsetSize(u, Initial(N));
    if forall d :: 0 <= d < N ==> d in a || d in b {
      assert u == Initial(N);
    }
  }

  /** The erasure list never outgrows its N - K slots. */
  lemma UnsetFits(received: seq<nat>, N: nat)
    requires Distinct(received) && Below(received, N) && N <= 256 && Below(received, 256)
    ensures |received| + |Unset(MaskOf(received), 0, N)| <= N
  {
    hide Unset, MaskOf, IsSet, Alias;
    var erased := Unset(MaskOf(received), 0, N);
    UnsetMembers(MaskOf(received), 0, N);
    forall d | d in received ensures d !in erased {
      var i :| 0 <= i < |received| && received[i] == d;
      AliasSelf(d);
      assert d < 256;
      MaskAnswers(received, d);
    }
    forall i | 0 <= i < |erased| ensures erased[i] < N {
      assert erased[i] in erased;
    }
    DisjointSizes(received, erased, N);
  }

  lemma AliasSelf(d: nat)
    ensures Alias(d, d)
  {
  }

  /** For blocks of up to 32 packets it lists exactly the degrees not received, N - K of them. */
  lemma UnsetIsComplement(received: seq<nat>, N: nat)
    requires Distinct(received) && Below(received, N) && N <= 32 && Below(received, 256)
    ensures IsComplement(Unset(MaskOf(received), 0, N), received, N)
    ensures |received| + |Unset(MaskOf(received), 0, N)| == N
  {
    hide Unset, MaskOf, IsSet;
    var erased := Unset(MaskOf(received), 0, N);
    UnsetMembers(MaskOf(received), 0, N);
    forall d: nat | d < N ensures d in received <==> d !in erased {
      assert Below(received, 32);
      FaithfulBelow32(received, d);
    }
    forall i | 0 <= i < |erased| ensures erased[i] < N {
      assert erased[i] in erased;
    }
    forall d | d in received ensures d !in erased {
      var i :| 0 <= i < |received| && received[i] == d;
      assert received[i] < N;
    }
    DisjointSizes(received, erased, N);
  }

  lemma PrefixExcludes(ds: seq<nat>, i: nat)
    requires Distinct(ds) && i < |ds|
    ensures ds[i] !in ds[..i]
  {
  }
}
