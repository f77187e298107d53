/**
 What the syndromes of a whole word say: they vanish exactly on the codewords, so
 that rscode_check_syndromes detects every change of one to T symbols; and any
 other choice of K symbols belongs to exactly one codeword.
 */
module Detection {
  import opened Collections
  import opened Bits
  import opened ExpLog
  import opened GaloisField
  import opened Polynomials
  import opened CodeTheory
  import opened Erasures
  import opened Block
  import opened Missing
  import RsCode

  /** The message symbols of a word. */
  ghost function MessageOf(T: nat, w: seq<nat>): (m: seq<nat>)
    requires T <= |w|
    ensures |m| == |w| - T && forall i :: 0 <= i < |m| ==> m[i] == w[|w| - 1 - i]
  {
    seq(|w| - T, i requires 0 <= i < |w| - T => w[|w| - 1 - i])
  }

  /** The word is what the encoder makes of its message symbols. */
  ghost predicate IsCodeword(f: Field, T: nat, w: seq<nat>) {
    0 < T <= |w| && InField(f, w) && w == Codeword(f, T, MessageOf(T, w))
  }

  /** The value of the word at X^(k + 1): syndrome k of all its symbols. */
  ghost function ValueAt(f: Field, w: seq<nat>, k: nat): nat {
    Eval(f, w, Exp(f, k + 1))
  }

  /** The word is zero at X^1, ..., X^T. */
  ghost predicate Vanishes(f: Field, T: nat, w: seq<nat>) {
    forall k: nat :: k < T ==> ValueAt(f, w, k) == 0
  }

  // ----- Few symbols with zero syndromes are zero.

  lemma {:induction false} ZeroValues(f: Field, degrees: seq<nat>, values: seq<nat>, k: nat)
    requires |degrees| == |values| && forall i :: 0 <= i < |values| ==> values[i] == 0
    ensures SyndromeOfList(f, degrees, values, k) == 0
  {
    hide Xor, Mul, Exp;
    if degrees != [] {
      var n := |degrees| - 1;
      ZeroValues(f, degrees[..n], values[..n], k);
      MulZero(f, Exp(f, degrees[n] * (k + 1)));
      XorZero(0);
    }
  }

  lemma SupportVanishes(f: Field, T: nat, degrees: seq<nat>, values: seq<nat>)
    requires |degrees| == |values| <= T && Locatable(f, degrees) && InField(f, values)
    requires forall k: nat :: k < T ==> SyndromeOfList(f, degrees, values, k) == 0
    ensures forall i :: 0 <= i < |values| ==> values[i] == 0
  {
    hide Solution, SyndromeOfList, Locatable;
    var e := |degrees|;
    forall k: nat ensures SyndromeOfList(f, degrees, Zeros(e), k) == 0 {
      ZeroValues(f, degrees, Zeros(e), k);
    }
    assert Syndromes(f, e, degrees, values) == Syndromes(f, e, degrees, Zeros(e));
    forall i | 0 <= i < e ensures values[i] == 0 {
      ErasureSolved(f, degrees, values, i);
      ErasureSolved(f, degrees, Zeros(e), i);
    }
  }

  // ----- Two words that vanish and differ in at most T symbols are equal.

  lemma {:induction false} ZeroSymbols(f: Field, w: seq<nat>, a: set<nat>, n: nat, k: nat)
    requires n <= |w| && forall d :: 0 <= d < n && d in a ==> w[d] == 0
    ensures SyndromeOfSet(f, w, a, n, k) == 0
  {
    hide Xor, Mul, Exp;
    if n > 0 {
      ZeroSymbols(f, w, a, n - 1, k);
      MulZero(f, Exp(f, (n - 1) * (k + 1)));
      XorZero(0);
    }
  }

  /** If all other symbols are zero, the syndrome of a few is the value of the word. */
  lemma FewSymbols(f: Field, w: seq<nat>, degrees: seq<nat>, k: nat)
    requires Distinct(degrees) && Below(degrees, |w|) && forall d :: 0 <= d < |w| && d !in degrees ==> w[d] == 0
    ensures SyndromeOfList(f, degrees, Pick(w, degrees), k) == ValueAt(f, w, k)
  {
    hide Xor, Exp, Eval, SyndromeOfSet, SyndromeOfList, Distinct;
    var a := Elements(degrees);
    var b := Initial(|w|) - a;
    PickedSyndrome(f, w, degrees, k);
    SplitSyndrome(f, w, a, b, |w|, k);
    ZeroSymbols(f, w, b, |w|, k);
    XorZero(SyndromeOfSet(f, w, a, |w|, k));
    assert w[..|w|] == w;
  }

  lemma DifferenceVanishes(f: Field, T: nat, v: seq<nat>, w: seq<nat>)
    requires |v| == |w| && Vanishes(f, T, v) && Vanishes(f, T, w)
    ensures Vanishes(f, T, Add(v, w))
  {
    hide Xor, Exp, Eval;
    XorZero(0);
    forall k: nat | k < T ensures ValueAt(f, Add(v, w), k) == 0 {
      assert ValueAt(f, v, k) == 0 && ValueAt(f, w, k) == 0;
      EvalAdd(f, v, w, Exp(f, k + 1));
    }
  }

  lemma SumInField(f: Field, v: seq<nat>, w: seq<nat>)
    requires |v| == |w| && InField(f, v) && InField(f, w)
    ensures InField(f, Add(v, w))
  {
    hide Xor;
    forall i | 0 <= i < |v| ensures Add(v, w)[i] < Order(f) {
      XorBound(v[i], w[i], f.degree);
    }
  }

  lemma SameWord(f: Field, T: nat, v: seq<nat>, w: seq<nat>, changed: seq<nat>)
    requires |v| == |w| <= Units(f) && InField(f, v) && InField(f, w) && Vanishes(f, T, v) && Vanishes(f, T, w)
    requires |changed| <= T && Distinct(changed) && Below(changed, |w|)
    requires forall d :: 0 <= d < |w| && d !in changed ==> v[d] == w[d]
    ensures v == w
  {
    hide Xor, Exp, ValueAt, SyndromeOfList, Units, Order;
    var e := Add(v, w);
    DifferenceVanishes(f, T, v, w);
    SumInField(f, v, w);
    forall d | 0 <= d < |w| ensures e[d] == 0 <==> v[d] == w[d] {
      XorZeroMeansEqual(v[d], w[d]);
    }
    forall k: nat | k < T ensures SyndromeOfList(f, changed, Pick(e, changed), k) == 0 {
      FewSymbols(f, e, changed, k);
    }
    SupportVanishes(f, T, changed, Pick(e, changed));
    forall d | 0 <= d < |w| ensures v[d] == w[d] {
      if d in changed {
        var i :| 0 <= i < |changed| && changed[i] == d;
        assert Pick(e, changed)[i] == 0;
      }
    }
  }

  // ----- Zero syndromes mean a codeword.

  ghost function Ascending(n: nat): (ds: seq<nat>)
    ensures |ds| == n && forall i :: 0 <= i < n ==> ds[i] == i
  {
    seq(n, i requires 0 <= i < n => i)
  }

  lemma MessageBack(f: Field, T: nat, m: seq<nat>)
    requires T > 0 && InField(f, m)
    ensures MessageOf(T, Codeword(f, T, m)) == m && InField(f, Codeword(f, T, m)) && IsCodeword(f, T, Codeword(f, T, m))
  {
    hide Checks, Codeword;
    var w := Codeword(f, T, m);
    ChecksInField(f, T, m);
    forall d | 0 <= d < |w| ensures w[d] < Order(f) && (d >= T ==> w[d] == m[|w| - 1 - d]) {
      CodewordAt(f, T, m, d);
    }
    assert MessageOf(T, w) == m;
  }

  lemma CodewordVanishes(f: Field, T: nat, m: seq<nat>)
    requires T > 0 && InField(f, m)
    ensures Vanishes(f, T, Codeword(f, T, m))
  {
    hide Codeword, Eval, Exp;
    forall k: nat | k < T ensures ValueAt(f, Codeword(f, T, m), k) == 0 {
      CodewordRoot(f, T, m, k);
    }
  }

  /** The syndromes of a word are all zero if and only if it is a codeword. */
  lemma VanishesIffCodeword(f: Field, T: nat, w: seq<nat>)
    requires 0 < T <= |w| <= Units(f) && InField(f, w)
    ensures Vanishes(f, T, w) <==> IsCodeword(f, T, w)
  {
    hide Vanishes, Units, Codeword;
    var m := MessageOf(T, w);
    var c := Codeword(f, T, m);
    MessageBack(f, T, m);
    CodewordVanishes(f, T, m);
    if Vanishes(f, T, w) {
      forall d | 0 <= d < |w| && d !in Ascending(T) ensures w[d] == c[d] {
        HasMember(Ascending(T), d);
        assert m[|w| - 1 - d] == w[d];
        CodewordAt(f, T, m, d);
      }
      SameWord(f, T, w, c, Ascending(T));
    }
  }

  /** Changing one to T symbols of a codeword never gives zero syndromes. */
  lemma ChangeIsDetected(f: Field, T: nat, m: seq<nat>, w: seq<nat>, changed: seq<nat>)
    requires T > 0 && InField(f, m) && |w| == T + |m| <= Units(f) && InField(f, w)
    requires |changed| <= T && Distinct(changed) && Below(changed, |w|)
    requires w != Codeword(f, T, m) && forall d :: 0 <= d < |w| && d !in changed ==> w[d] == Codeword(f, T, m)[d]
    ensures !Vanishes(f, T, w)
  {
    hide Vanishes, Units, Codeword;
    MessageBack(f, T, m);
    CodewordVanishes(f, T, m);
    if Vanishes(f, T, w) {
      SameWord(f, T, w, Codeword(f, T, m), changed);
    }
  }

  /** A list of all degrees leaves none out. */
  lemma AllReceived(order: seq<nat>, N: nat)
    requires Distinct(order) && Below(order, N) && |order| == N
    ensures IsComplement([], order, N)
  {
    DistinctSize(order);
    assert Elements(order) <= Initial(N);
    SameSize(Elements(order), Initial(N));
  }

  /** In whatever order the symbols of a word come, their syndromes are its values. */
  lemma OrderedSyndrome(f: Field, w: seq<nat>, order: seq<nat>, k: nat)
    requires Distinct(order) && Below(order, |w|) && |order| == |w|
    ensures SyndromeOfList(f, order, Pick(w, order), k) == ValueAt(f, w, k)
  {
    hide SyndromeOfList, ValueAt;
    AllReceived(order, |w|);
    FewSymbols(f, w, order, k);
  }

  // ----- T erasures can make up for any syndromes.

  /** All sequences of n field elements. */
  ghost function Tuples(f: Field, n: nat): set<seq<nat>> {
    if n == 0 then {[]} else set s, v | s in Tuples(f, n - 1) && v in Initial(Order(f)) :: s + [v]
  }

  lemma {:induction false} TuplesMembers(f: Field, n: nat, s: seq<nat>)
    ensures s in Tuples(f, n) <==> |s| == n && InField(f, s)
  {
    hide Order;
    if n > 0 {
      if s in Tuples(f, n) {
        var t, v :| t in Tuples(f, n - 1) && v in Initial(Order(f)) && s == t + [v];
        TuplesMembers(f, n - 1, t);
      }
      if |s| == n && InField(f, s) {
        TuplesMembers(f, n - 1, s[..n - 1]);
        assert s == s[..n - 1] + [s[n - 1]];
      }
    }
  }

  ghost function Image(g: seq<nat> -> seq<nat>, a: set<seq<nat>>): set<seq<nat>> {
    set s | s in a :: g(s)
  }

  ghost predicate OneToOne(g: seq<nat> -> seq<nat>, a: set<seq<nat>>) {
    forall s, t :: s in a && t in a && g(s) == g(t) ==> s == t
  }

  lemma {:induction false} ImageSize(g: seq<nat> -> seq<nat>, a: set<seq<nat>>)
    requires OneToOne(g, a)
    ensures |Image(g, a)| == |a|
  {
    if a != {} {
      var s :| s in a;
      ImageSize(g, a - {s});
      assert Image(g, a) == Image(g, a - {s}) + {g(s)};
    }
  }

  lemma ImageMember(g: seq<nat> -> seq<nat>, a: set<seq<nat>>, y: seq<nat>) returns (x: seq<nat>)
    requires y in Image(g, a)
    ensures x in a && g(x) == y
  {
    x :| x in a && g(x) == y;
  }

  /** A map of a finite set into itself that is one to one is onto. */
  lemma OneToOneIsOnto(g: seq<nat> -> seq<nat>, a: set<seq<nat>>, y: seq<nat>) returns (x: seq<nat>)
    requires OneToOne(g, a) && Image(g, a) <= a && y in a
    ensures x in a && g(x) == y
  {
    hide *;
    ImageSize(g, a);
    SameSize(Image(g, a), a);
    x := ImageMember(g, a, y);
  }

  ghost function SyndromeMap(f: Field, degrees: seq<nat>): seq<nat> -> seq<nat> {
    values => if |values| == |degrees| then Syndromes(f, |degrees|, degrees, values) else values
  }

  lemma SyndromesInField(f: Field, e: nat, degrees: seq<nat>, values: seq<nat>)
    requires |degrees| == |values|
    ensures InField(f, Syndromes(f, e, degrees, values))
  {
    hide SyndromeOfList;
    forall k | 0 <= k < e ensures SyndromeOfList(f, degrees, values, k) < Order(f) {
      SyndromeListBound(f, degrees, values, k);
    }
  }

  lemma {:induction false} SyndromeListBound(f: Field, degrees: seq<nat>, values: seq<nat>, k: nat)
    requires |degrees| == |values|
    ensures SyndromeOfList(f, degrees, values, k) < Order(f)
  {
    hide Xor, Exp, Mul;
    if degrees != [] {
      var n := |degrees| - 1;
      SyndromeListBound(f, degrees[..n], values[..n], k);
      XorBound(SyndromeOfList(f, degrees[..n], values[..n], k), Term(f, values[n], degrees[n], k), f.degree);
    }
  }

  lemma SyndromesDiffer(f: Field, degrees: seq<nat>, v: seq<nat>, w: seq<nat>)
    requires |degrees| == |v| == |w| && Locatable(f, degrees) && InField(f, v) && InField(f, w)
    requires Syndromes(f, |degrees|, degrees, v) == Syndromes(f, |degrees|, degrees, w)
    ensures v == w
  {
    hide Solution, Syndromes, Locatable;
    forall i | 0 <= i < |v| ensures v[i] == w[i] {
      ErasureSolved(f, degrees, v, i);
      ErasureSolved(f, degrees, w, i);
    }
  }

  /** Any syndromes are those of some values at as many erasures; the closed form finds them. */
  lemma ErasuresFit(f: Field, degrees: seq<nat>, s: seq<nat>) returns (values: seq<nat>)
    requires |s| == |degrees| && Locatable(f, degrees) && InField(f, s)
    ensures |values| == |degrees| && InField(f, values) && Syndromes(f, |degrees|, degrees, values) == s
    ensures forall i :: 0 <= i < |degrees| ==> values[i] == Solution(f, degrees, s, i)
  {
    hide Solution, Syndromes, Locatable, Tuples, InField;
    var e, g := |degrees|, SyndromeMap(f, degrees);
    var all := Tuples(f, e);
    TuplesMembers(f, e, s);
    forall v | v in all ensures g(v) in all {
      TuplesMembers(f, e, v);
      SyndromesInField(f, e, degrees, v);
      TuplesMembers(f, e, g(v));
    }
    forall v, w | v in all && w in all && g(v) == g(w) ensures v == w {
      TuplesMembers(f, e, v);
      TuplesMembers(f, e, w);
      SyndromesDiffer(f, degrees, v, w);
    }
    values := OneToOneIsOnto(g, all, s);
    TuplesMembers(f, e, values);
    forall i | 0 <= i < e ensures values[i] == Solution(f, degrees, s, i) {
      RsCode.ValueInField(f, values, i);
      ErasureSolved(f, degrees, values, i);
    }
  }

  // ----- Any K symbols belong to exactly one codeword.

  /** The value that stands beside degree d. */
  ghost function Beside(degrees: seq<nat>, values: seq<nat>, d: nat): nat
    requires |degrees| == |values|
  {
    if degrees == [] then 0
    else if degrees[0] == d then values[0]
    else Beside(degrees[1..], values[1..], d)
  }

  lemma {:induction false} BesideAt(degrees: seq<nat>, values: seq<nat>, i: nat)
    requires |degrees| == |values| && Distinct(degrees) && i < |degrees|
    ensures Beside(degrees, values, degrees[i]) == values[i]
  {
    if i > 0 {
      assert degrees[0] != degrees[i];
      BesideAt(degrees[1..], values[1..], i - 1);
    }
  }

  lemma {:induction false} BesideInField(f: Field, degrees: seq<nat>, values: seq<nat>, d: nat)
    requires |degrees| == |values| && InField(f, values)
    ensures Beside(degrees, values, d) < Order(f)
  {
    if degrees != [] {
      BesideInField(f, degrees[1..], values[1..], d);
    }
  }

  /** The word with the given values at the given degrees. */
  ghost function Assemble(n: nat, degrees: seq<nat>, values: seq<nat>): (w: seq<nat>)
    requires |degrees| == |values|
    ensures |w| == n && forall d :: 0 <= d < n ==> w[d] == Beside(degrees, values, d)
  {
    seq(n, (d: nat) => Beside(degrees, values, d))
  }

  /** The word is a codeword with the given values at the given degrees. */
  ghost predicate Fits(f: Field, T: nat, w: seq<nat>, degrees: seq<nat>, values: seq<nat>)
    requires |degrees| == |values|
  {
    IsCodeword(f, T, w) && Below(degrees, |w|) && Pick(w, degrees) == values
  }

  lemma Joined(received: seq<nat>, erased: seq<nat>, n: nat)
    requires Distinct(received) && Below(received, n) && IsComplement(erased, received, n)
    ensures Distinct(received + erased)
  {
    var all := received + erased;
    forall i, j | 0 <= i < j < |all| ensures all[i] != all[j] {
      if i < |received| <= j {
        assert all[i] in received && all[j] in erased;
      }
    }
  }

  lemma AssembledPicks(n: nat, a: seq<nat>, b: seq<nat>, x: seq<nat>, y: seq<nat>)
    requires |a| == |x| && |b| == |y| && Distinct(a + b) && Below(a, n) && Below(b, n)
    ensures Pick(Assemble(n, a + b, x + y), a) == x && Pick(Assemble(n, a + b, x + y), b) == y
  {
    var all, xs := a + b, x + y;
    forall i | 0 <= i < |a| ensures Beside(all, xs, a[i]) == x[i] {
      assert all[i] == a[i];
      BesideAt(all, xs, i);
    }
    forall i | 0 <= i < |b| ensures Beside(all, xs, b[i]) == y[i] {
      assert all[|a| + i] == b[i];
      BesideAt(all, xs, |a| + i);
    }
  }

  /** If received and erased symbols have equal syndromes, the word vanishes. */
  lemma BalancedVanishes(f: Field, T: nat, w: seq<nat>, received: seq<nat>, erased: seq<nat>)
    requires Distinct(received) && Below(received, |w|) && Below(erased, |w|) && IsComplement(erased, received, |w|)
    requires Syndromes(f, T, received, Pick(w, received)) == Syndromes(f, T, erased, Pick(w, erased))
    ensures Vanishes(f, T, w)
  {
    hide Xor, Exp, Eval, SyndromeOfSet, SyndromeOfList;
    ComplementSets(erased, received, |w|);
    assert w[..|w|] == w;
    forall k: nat | k < T ensures ValueAt(f, w, k) == 0 {
      assert SyndromeOfList(f, received, Pick(w, received), k) == Syndromes(f, T, received, Pick(w, received))[k];
      PickedSyndrome(f, w, received, k);
      PickedSyndrome(f, w, erased, k);
      SplitSyndrome(f, w, Elements(received), Elements(erased), |w|, k);
      XorSelf(SyndromeOfSet(f, w, Elements(received), |w|, k));
    }
  }

  lemma OnlyOneFits(f: Field, T: nat, v: seq<nat>, w: seq<nat>, received: seq<nat>, erased: seq<nat>)
    requires |v| == |w| <= Units(f) && IsCodeword(f, T, v) && IsCodeword(f, T, w) && |erased| == T
    requires Distinct(received) && Below(received, |w|) && IsComplement(erased, received, |w|)
    requires Pick(v, received) == Pick(w, received)
    ensures v == w
  {
    hide Vanishes, Units, Codeword;
    VanishesIffCodeword(f, T, v);
    VanishesIffCodeword(f, T, w);
    forall d | 0 <= d < |w| && d !in erased ensures v[d] == w[d] {
      var i :| 0 <= i < |received| && received[i] == d;
      assert Pick(v, received)[i] == Pick(w, received)[i];
    }
    SameWord(f, T, v, w, erased);
  }

  /**
   Any values at any K degrees are symbols of exactly one codeword; at the other
   degrees it has the values that the solver finds.
   */
  lemma FitsOneWord(f: Field, T: nat, n: nat, received: seq<nat>, values: seq<nat>, erased: seq<nat>)
      returns (w: seq<nat>)
    requires 0 < T == |erased| && n <= Units(f) && |received| == |values| && InField(f, values) && Locatable(f, erased)
    requires Distinct(received) && Below(received, n) && IsComplement(erased, received, n) && T <= n
    ensures |w| == n && Fits(f, T, w, received, values) && Below(erased, n)
    ensures forall v | |v| == n && Fits(f, T, v, received, values) :: v == w
    ensures forall i :: 0 <= i < T ==> w[erased[i]] == Solution(f, erased, Syndromes(f, T, received, values), i)
  {
    hide Vanishes, Units, Codeword, Solution, Syndromes, Distinct, Locatable, IsCodeword, InField;
    SyndromesInField(f, T, received, values);
    var others := ErasuresFit(f, erased, Syndromes(f, T, received, values));
    ComplementSets(erased, received, n);
    Joined(received, erased, n);
    w := Assemble(n, received + erased, values + others);
    AssembledPicks(n, received, erased, values, others);
    BothInField(f, values, others);
    WordInField(f, n, received + erased, values + others);
    BalancedVanishes(f, T, w, received, erased);
    VanishesIffCodeword(f, T, w);
    forall v | |v| == n && Fits(f, T, v, received, values) ensures v == w {
      OnlyOneFits(f, T, v, w, received, erased);
    }
    forall i | 0 <= i < T ensures w[erased[i]] == others[i] {
      assert Pick(w, erased)[i] == others[i];
    }
  }

  lemma BothInField(f: Field, v: seq<nat>, w: seq<nat>)
    requires InField(f, v) && InField(f, w)
    ensures InField(f, v + w)
  {
  }

  lemma WordInField(f: Field, n: nat, degrees: seq<nat>, values: seq<nat>)
    requires |degrees| == |values| && InField(f, values)
    ensures InField(f, Assemble(n, degrees, values))
  {
    forall d: nat | d < n ensures Beside(degrees, values, d) < Order(f) {
      BesideInField(f, degrees, values, d);
    }
  }
}
