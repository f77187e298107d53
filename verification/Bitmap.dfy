/**
 The bitmap256 of src/main/rs/rs.c, which records the degrees received. A 64-bit
 word is the set of its one bits.

 The code shifts the int constant 1, so a shift by 32 or more is not what the
 64-bit words need. C leaves such shifts undefined, and that by 31 too, whose
 result no int holds; the model takes what gcc emits for x86-64: the shift count
 is taken modulo 32 and the 32-bit result is sign-extended when it meets the
 64-bit word.
 */
module Bitmap {
  import opened Block

  datatype Mask = Mask(buffer: seq<set<nat>>) {
    predicate Valid() {
      |buffer| == 4
    }
  }

  /** The bits from lo up to and not including hi. */
  function BitRange(lo: nat, hi: nat): (r: set<nat>)
    requires lo <= hi
    ensures forall b :: b in r <==> lo <= b < hi
  {
    if lo == hi then {} else BitRange(lo, hi - 1) + {hi - 1}
  }

  /** The one bits of (uint64_t) (1 << m). */
  function ShiftedOne(m: nat): set<nat> {
    if m % 32 < 31 then {m % 32} else BitRange(31, 64)
  }

  /** bitmap256_reset */
  function Empty(): (r: Mask)
    ensures r.Valid()
  {
    Mask([{}, {}, {}, {}])
  }

  /** bitmap256_set */
  function Set(bm: Mask, key: nat): (r: Mask)
    requires bm.Valid() && key < 256
    ensures r.Valid()
  {
    var n, m := key / 64, key % 64;
    bm.(buffer := bm.buffer[n := bm.buffer[n] + ShiftedOne(m)])
  }

  /** bitmap256_isset */
  predicate IsSet(bm: Mask, key: nat)
    requires bm.Valid() && key < 256
  {
    var n, m := key / 64, key % 64;
    bm.buffer[n] * ShiftedOne(m) != {}
  }

  /** Two keys the bitmap cannot tell apart. */
  predicate Alias(a: nat, b: nat) {
    a / 64 == b / 64 && a % 32 == b % 32
  }

  lemma ShiftedOnesMeet(a: nat, b: nat)
    ensures ShiftedOne(a) * ShiftedOne(b) != {} <==> a % 32 == b % 32
  {
    var i, j := a % 32, b % 32;
    if i == j {
      assert i in ShiftedOne(a) * ShiftedOne(b);
    }
  }

  lemma ModOfMod(a: nat)
    ensures a % 64 % 32 == a % 32
  {
  }

  lemma IsSetAfterSet(bm: Mask, key: nat, j: nat)
    requires bm.Valid() && key < 256 && j < 256
    ensures IsSet(Set(bm, key), j) <==> IsSet(bm, j) || Alias(key, j)
  {
    var n, m, i := j / 64, j % 64, key % 64;
    hide ShiftedOne;
    ShiftedOnesMeet(i, m);
    ModOfMod(key);
    ModOfMod(j);
    var w, s, t := bm.buffer[n], ShiftedOne(i), ShiftedOne(m);
    assert (w + s) * t == w * t + s * t;
  }

  /** The bitmap after the given degrees. */
  function MaskOf(degrees: seq<nat>): (r: Mask)
    requires Below(degrees, 256)
    ensures r.Valid()
  {
    if degrees == [] then Empty() else Set(MaskOf(degrees[..|degrees| - 1]), degrees[|degrees| - 1])
  }

  /** What the bitmap answers: whether an alias of the degree was set. */
  lemma {:induction false} MaskAnswers(degrees: seq<nat>, d: nat)
    requires Below(degrees, 256) && d < 256
    ensures IsSet(MaskOf(degrees), d) <==> exists i :: 0 <= i < |degrees| && Alias(degrees[i], d)
  {
    hide Alias, Set;
    if degrees == [] {
      EmptyAnswers(d);
    } else {
      var n := |degrees| - 1;
      hide IsSet;
      MaskAnswers(degrees[..n], d);
      IsSetAfterSet(MaskOf(degrees[..n]), degrees[n], d);
      if i :| 0 <= i < |degrees| && Alias(degrees[i], d) {
        assert i < n ==> degrees[..n][i] == degrees[i];
      }
      if i :| 0 <= i < n && Alias(degrees[..n][i], d) {
        assert Alias(degrees[i], d);
      }
    }
  }

  lemma EmptyAnswers(d: nat)
    requires d < 256
    ensures !IsSet(Empty(), d)
  {
    assert d / 64 == 0 || d / 64 == 1 || d / 64 == 2 || d / 64 == 3;
  }

  /** The bitmap records exactly the degrees below N that were set, whatever they are. */
  ghost predicate Faithful(N: nat)
    requires N <= 256
  {
    forall degrees: seq<nat>, d: nat | Below(degrees, 256) && Below(degrees, N) && d < N ::
      IsSet(MaskOf(degrees), d) <==> d in degrees
  }

  lemma AliasBelow32(a: nat, b: nat)
    requires a < 32 && b < 32
    ensures Alias(a, b) <==> a == b
  {
  }

  lemma FaithfulBelow32(degrees: seq<nat>, d: nat)
    requires Below(degrees, 32) && d < 32
    ensures Below(degrees, 256) && (IsSet(MaskOf(degrees), d) <==> d in degrees)
  {
    hide IsSet, MaskOf, Alias;
    MaskAnswers(degrees, d);
    forall i | 0 <= i < |degrees| ensures Alias(degrees[i], d) <==> degrees[i] == d {
      AliasBelow32(degrees[i], d);
    }
  }

  /** With 33 packets the bitmap mistakes degree 32 for degree 0. */
  lemma Degree32LooksReceived()
    ensures Below([0], 256) && IsSet(MaskOf([0]), 32)
  {
    hide IsSet, MaskOf;
    assert Alias([0][0], 32);
    MaskAnswers([0], 32);
  }

  /** So blocks of up to 32 packets are exactly those the bitmap can record. */
  lemma FaithfulIff32(N: nat)
    requires N <= 256
    ensures Faithful(N) <==> N <= 32
  {
    hide IsSet, MaskOf, Alias;
    if N <= 32 {
      forall degrees: seq<nat>, d: nat | Below(degrees, 256) && Below(degrees, N) && d < N
        ensures IsSet(MaskOf(degrees), d) <==> d in degrees
      {
        assert Below(degrees, 32);
        FaithfulBelow32(degrees, d);
      }
    } else {
      Degree32LooksReceived();
      var degrees: seq<nat> := [0];
      assert Below(degrees, 256) && Below(degrees, N) && 32 !in degrees;
    }
  }
}
