/**
 A whole word through src/main/rs/rscode.c: the checks that rscode_encode leaves
 behind make all syndromes of the word vanish, in whichever order its symbols are
 added.
 */
module WholeWord {
  import opened Collections
  import opened Arithmetic
  import opened Bits
  import opened ExpLog
  import opened GaloisField
  import opened Polynomials
  import opened CodeTheory
  import opened Erasures
  import opened Block
  import opened Missing
  import opened Detection
  import opened RsCode
  import opened SyndromeWrap
  import opened WideField

  /** The symbols of a codeword, in any order, have zero syndromes. */
  lemma WholeWordVanishes(f: Field, T: nat, m: seq<nat>, order: seq<nat>)
    requires T > 0 && InField(f, m) && Distinct(order) && Below(order, T + |m|) && |order| == T + |m|
    ensures Syndromes(f, T, order, Pick(Codeword(f, T, m), order)) == Zeros(T)
  {
    hide SyndromeOfList, Codeword, Distinct, Below;
    AllReceived(order, T + |m|);
    forall k | 0 <= k < T ensures SyndromeOfList(f, order, Pick(Codeword(f, T, m), order), k) == 0 {
      ColumnSyndromes(f, T, m, order, [], k);
      NoSymbols(f, Pick(Codeword(f, T, m), []), k);
    }
  }

  lemma NoSymbols(f: Field, values: seq<nat>, k: nat)
    requires values == []
    ensures SyndromeOfList(f, [], values, k) == 0 && Below([], 0)
  {
  }

  /** Feeding a message through rscode_encode. */
  method EncodeMessage(c: Code, m: seq<nat>) returns (checks: array<nat>)
    requires c.Valid() && InField(c.F(), m)
    ensures checks.Length == c.ChecksNum() && checks[..] == Checks(c.F(), c.ChecksNum(), m)
  {
    hide *;
    c.Facts();
    var T := c.ChecksNum();
    checks := new nat[T];
    Prepare(c, checks);
    assert m[..0] == [] && checks[..T] == checks[..];
    for i := 0 to |m|
      invariant checks[..] == Checks(c.F(), T, m[..i])
    {
      ChecksInField(c.F(), T, m[..i]);
      ChecksStep(c.F(), T, m, i);
      assert checks[0..0 + T] == checks[..];
      Encode(c, m[i], checks, 0);
      assert checks[0..0 + T] == checks[..];
    }
    assert m[..|m|] == m;
  }

  lemma ChecksStep(f: Field, T: nat, m: seq<nat>, i: nat)
    requires T > 0 && i < |m| && InField(f, m)
    ensures m[i] < Order(f) && Checks(f, T, m[..i + 1]) == RegisterStep(f, Generator(f, T), Checks(f, T, m[..i]), m[i])
  {
    hide RegisterStep, Generator;
    assert m[..i + 1][..i] == m[..i];
  }

  /** The symbol of the codeword at degree d. */
  method SymbolAt(ghost f: Field, T: nat, checks: array<nat>, m: seq<nat>, d: nat) returns (symbol: nat)
    requires T > 0 && InField(f, m) && checks.Length == T && checks[..] == Checks(f, T, m) && d < T + |m|
    ensures symbol == Codeword(f, T, m)[d] < Order(f)
  {
    hide *;
    CodewordAt(f, T, m, d);
    CodewordSymbol(f, T, m, d);
    symbol := if d < T then checks[T - 1 - d] else m[T + |m| - 1 - d];
  }

  /** The order names every degree once. */
  ghost predicate Complete(order: seq<nat>, n: nat) {
    |order| == n && Distinct(order) && Below(order, n)
  }

  /** The first e syndromes as rscode_decode_syndromes adds them up. */
  ghost function WrappedSyndromes(f: Field, e: nat, degrees: seq<nat>, values: seq<nat>): (s: seq<nat>)
    requires |degrees| == |values|
    ensures |s| == e && forall k :: 0 <= k < e ==> s[k] == WrappedOfList(f, degrees, values, k)
  {
    seq(e, (k: nat) => WrappedOfList(f, degrees, values, k))
  }

  /** The word passes the check, its symbols coming in the given order. */
  ghost predicate Passes(f: Field, T: nat, w: seq<nat>, order: seq<nat>)
    requires Below(order, |w|)
  {
    WrappedSyndromes(f, T, order, Pick(w, order)) == Zeros(T)
  }

  lemma OneMoreSymbol(f: Field, T: nat, w: seq<nat>, order: seq<nat>, i: nat)
    requires Below(order, |w|) && i < |order|
    ensures Below(order[..i], |w|) && Below(order[..i + 1], |w|)
    ensures WrappedSyndromes(f, T, order[..i + 1], Pick(w, order[..i + 1]))
         == Add(WrappedSyndromes(f, T, order[..i], Pick(w, order[..i])), WrappedTerms(f, T, w[order[i]], order[i]))
  {
    hide Xor, WrappedTerm;
    var ds, vs := order[..i + 1], Pick(w, order[..i + 1]);
    assert ds[..i] == order[..i] && vs[..i] == Pick(w, order[..i]);
  }

  /** rscode_decode_syndromes on the only syndromes of an array. */
  method AddSymbol(c: Code, symbol: nat, d: nat, syndromes: array<nat>)
    requires c.Valid() && symbol < Order(c.F()) && c.k <= c.n && syndromes.Length == c.ChecksNum()
    modifies syndromes
    ensures |old(syndromes[..])| == c.ChecksNum()
    ensures syndromes[..] == Add(old(syndromes[..]), WrappedTerms(c.F(), c.ChecksNum(), symbol, d))
  {
    hide *;
    c.Facts();
    assert syndromes[0..0 + syndromes.Length] == syndromes[..];
    DecodeSyndromes(c, symbol, d, syndromes, 0);
    assert syndromes[0..0 + syndromes.Length] == syndromes[..];
  }

  /** Adding up the syndromes of any word in any order, and checking them. */
  method CheckWord(c: Code, w: seq<nat>, order: seq<nat>) returns (ok: bool)
    requires c.Valid() && InField(c.F(), w) && Below(order, |w|)
    ensures ok <==> Passes(c.F(), c.ChecksNum(), w, order)
  {
    hide *;
    c.Facts();
    var T := c.ChecksNum();
    var syndromes := new nat[T];
    PolyZero(syndromes, T - 1);
    StartsZero(c.F(), T, w, order);
    assert syndromes[..] == Zeros(T);
    for i := 0 to |order|
      invariant Below(order[..i], |w|) && syndromes[..] == WrappedSyndromes(c.F(), T, order[..i], Pick(w, order[..i]))
    {
      DegreeFits(order, i, |w|);
      ValueInField(c.F(), w, order[i]);
      OneMoreSymbol(c.F(), T, w, order, i);
      AddSymbol(c, w[order[i]], order[i], syndromes);
    }
    assert order[..|order|] == order;
    PassesIs(c.F(), T, w, order);
    ok := CheckSyndromes(c, syndromes, 0);
    assert syndromes[0..0 + T] == syndromes[..];
  }

  lemma PassesIs(f: Field, T: nat, w: seq<nat>, order: seq<nat>)
    requires Below(order, |w|)
    ensures Passes(f, T, w, order) <==> WrappedSyndromes(f, T, order, Pick(w, order)) == Zeros(T)
  {
  }

  /** Every message, encoded and then checked in any order of its symbols. */
  method EncodeAndCheck(c: Code, m: seq<nat>, order: seq<nat>) returns (ok: bool)
    requires c.Valid() && InField(c.F(), m) && Complete(order, c.ChecksNum() + |m|)
    ensures Below(order, c.ChecksNum() + |m|)
    ensures (ok <==> Passes(c.F(), c.ChecksNum(), Codeword(c.F(), c.ChecksNum(), m), order))
    ensures AllExact(c.F(), c.ChecksNum(), c.ChecksNum() + |m|) && c.ChecksNum() + |m| <= c.n ==> ok
  {
    hide *;
    c.Facts();
    CompleteIs(order, c.ChecksNum() + |m|);
    var T := c.ChecksNum();
    var checks := EncodeMessage(c, m);
    var w := [];
    WordSoFar(c.F(), T, m);
    for d := 0 to T + |m|
      invariant |w| == d <= |Codeword(c.F(), T, m)| && w == Codeword(c.F(), T, m)[..d]
      invariant checks[..] == Checks(c.F(), T, m)
    {
      var symbol := SymbolAt(c.F(), T, checks, m, d);
      w := w + [symbol];
    }
    assert Codeword(c.F(), T, m)[..T + |m|] == Codeword(c.F(), T, m);
    ok := CheckWord(c, w, order);
    if AllExact(c.F(), T, T + |m|) && T + |m| <= c.n {
      MessageBack(c.F(), T, m);
      PassesIffCodeword(c.F(), T, w, order);
    }
  }

  lemma CompleteIs(order: seq<nat>, n: nat)
    requires Complete(order, n)
    ensures |order| == n && Below(order, n)
  {
  }

  lemma WordSoFar(f: Field, T: nat, m: seq<nat>)
    requires T > 0 && InField(f, m)
    ensures |Codeword(f, T, m)| == T + |m| && Codeword(f, T, m)[..0] == [] && InField(f, Codeword(f, T, m))
  {
    hide Codeword, Checks;
    MessageBack(f, T, m);
  }

  lemma StartsZero(f: Field, T: nat, w: seq<nat>, order: seq<nat>)
    ensures order[..0] == [] && Below([], |w|) && WrappedSyndromes(f, T, [], Pick(w, [])) == Zeros(T)
  {
  }

  lemma DegreeFits(order: seq<nat>, i: nat, N: nat)
    requires Below(order, N) && i < |order|
    ensures order[i] < N
  {
  }

  lemma CodewordSymbol(f: Field, T: nat, m: seq<nat>, d: nat)
    requires T > 0 && InField(f, m) && d < T + |m|
    ensures Codeword(f, T, m)[d] < Order(f)
  {
    hide Checks, Codeword;
    CodewordAt(f, T, m, d);
    ChecksInField(f, T, m);
  }

  // ----- When the check is right.

  /** No degree below n has a term that wraps by a part of a turn. */
  ghost predicate AllExact(f: Field, T: nat, n: nat) {
    forall d: nat :: d < n ==> Exact(f, T, d)
  }

  /**
   Then the check passes exactly the codewords: it turns away every word that has
   been changed in one to T symbols (ChangeIsDetected).
   */
  lemma PassesIffCodeword(f: Field, T: nat, w: seq<nat>, order: seq<nat>)
    requires 0 < T <= |w| <= Units(f) && InField(f, w) && Complete(order, |w|) && AllExact(f, T, |w|)
    ensures Below(order, |w|) && (Passes(f, T, w, order) <==> IsCodeword(f, T, w))
  {
    hide Exact, Units, WrappedOfList, SyndromeOfList, ValueAt, IsCodeword, Distinct;
    forall k: nat | k < T ensures WrappedOfList(f, order, Pick(w, order), k) == ValueAt(f, w, k) {
      PickInWord(f, w, order);
      ExactSyndrome(f, T, order, Pick(w, order), k);
      OrderedSyndrome(f, w, order, k);
    }
    VanishesIffCodeword(f, T, w);
    if Passes(f, T, w, order) {
      forall k: nat | k < T ensures ValueAt(f, w, k) == 0 {
        assert WrappedSyndromes(f, T, order, Pick(w, order))[k] == 0;
      }
    }
  }

  lemma PickInWord(f: Field, w: seq<nat>, order: seq<nat>)
    requires InField(f, w) && Below(order, |w|)
    ensures InField(f, Pick(w, order))
  {
  }

  /** All messages of L symbols pass, in all orders. */
  ghost predicate AllPass(f: Field, T: nat, L: nat)
    requires T > 0
  {
    forall m, order | |m| == L && InField(f, m) && Complete(order, T + L) :: Passes(f, T, Codeword(f, T, m), order)
  }

  /** The message that is 1 at degree d, and zero elsewhere. */
  ghost function OneAt(T: nat, L: nat, d: nat): (m: seq<nat>)
    ensures |m| == L && forall i :: 0 <= i < L ==> m[i] == if T + L - 1 - i == d then 1 else 0
  {
    seq(L, i requires 0 <= i < L => if T + L - 1 - i == d then 1 else 0)
  }

  lemma AscendingIsComplete(n: nat)
    ensures Complete(Ascending(n), n)
  {
  }

  lemma CheckTurns(f: Field, T: nat, d: nat, k: nat)
    requires d < T && k < T && T * T <= UINT32_RANGE
    ensures WholeTurns(f, d, k)
  {
    hide WholeTurns;
    MulMonotone(d, k + 1, T);
    MulMonotone(T, d + 1, T);
    SmallTurns(f, d, k);
  }

  lemma OneInCodeword(f: Field, T: nat, L: nat, d: nat)
    requires T <= d < T + L && T > 0
    ensures var w := Codeword(f, T, OneAt(T, L, d));
            InField(f, OneAt(T, L, d)) && |w| == T + L && w[d] == 1 && forall j :: T <= j < T + L && j != d ==>
                w[j] == 0
  {
    hide Checks, Codeword;
    OneInField(f);
    forall j | T <= j < T + L ensures Codeword(f, T, OneAt(T, L, d))[j] == if j == d then 1 else 0 {
      CodewordAt(f, T, OneAt(T, L, d), j);
    }
  }

  /** In a word whose only wrong term is that of one symbol 1, the wrapped syndrome is not the syndrome. */
  lemma WrongTermShows(f: Field, T: nat, w: seq<nat>, d: nat, k: nat)
    requires InField(f, w) && d < |w| && w[d] == 1 && !WholeTurns(f, d, k)
    requires forall j :: 0 <= j < |w| && j != d ==> w[j] == 0 || WholeTurns(f, j, k)
    requires ValueAt(f, w, k) == 0
    ensures Below(Ascending(|w|), |w|) && WrappedOfList(f, Ascending(|w|), Pick(w, Ascending(|w|)), k) != 0
  {
    hide WholeTurns, Units, WrappedOfList, SyndromeOfList, ValueAt, Distinct, Term, WrappedTerm, Xor;
    var order := Ascending(|w|);
    AscendingIsComplete(|w|);
    assert Pick(w, order) == w;
    assert order[d] == d;
    WrapDifference(f, order, w, k, d, 1);
    OrderedSyndrome(f, w, order, k);
    XorZero(Xor(Term(f, 1, d, k), WrappedTerm(f, 1, d, k)));
    XorZeroMeansEqual(Term(f, 1, d, k), WrappedTerm(f, 1, d, k));
    OneInField(f);
    WrapIff(f, 1, d, k);
  }

  lemma FailsAt(f: Field, T: nat, w: seq<nat>, order: seq<nat>, k: nat)
    requires Below(order, |w|) && k < T && WrappedOfList(f, order, Pick(w, order), k) != 0
    ensures !Passes(f, T, w, order)
  {
    hide WrappedOfList;
    assert WrappedSyndromes(f, T, order, Pick(w, order))[k] != 0;
  }

  /** A message with one symbol, at a degree whose term wraps by a part of a turn, does not pass. */
  lemma OneSymbolFails(f: Field, T: nat, L: nat, d: nat, k: nat)
    requires 0 < T && T + L <= Units(f) && T * T <= UINT32_RANGE && d < T + L && k < T && !WholeTurns(f, d, k)
    ensures !AllPass(f, T, L)
  {
    hide WholeTurns, Units, WrappedOfList, Codeword, Passes, ValueAt, Complete;
    if d < T {
      CheckTurns(f, T, d, k);
    }
    var m := OneAt(T, L, d);
    var w := Codeword(f, T, m);
    OneInCodeword(f, T, L, d);
    MessageBack(f, T, m);
    forall j: nat | j < T ensures WholeTurns(f, j, k) {
      CheckTurns(f, T, j, k);
    }
    CodewordVanishes(f, T, m);
    assert ValueAt(f, w, k) == 0;
    WrongTermShows(f, T, w, d, k);
    AscendingIsComplete(T + L);
    FailsAt(f, T, w, Ascending(T + L), k);
  }

  /**
   For up to 2^16 checks: every message passes its own check if and only if no
   degree of the word has a term that wraps by a part of a turn.
   */
  lemma AllPassIffExact(f: Field, T: nat, L: nat)
    requires 0 < T && T + L <= Units(f) && T * T <= UINT32_RANGE
    ensures AllPass(f, T, L) <==> AllExact(f, T, T + L)
  {
    hide WholeTurns, Units, Codeword, Passes, IsCodeword;
    if AllExact(f, T, T + L) {
      forall m, order | |m| == L && InField(f, m) && Complete(order, T + L)
        ensures Below(order, T + L) && Passes(f, T, Codeword(f, T, m), order)
      {
        MessageBack(f, T, m);
        PassesIffCodeword(f, T, Codeword(f, T, m), order);
      }
    } else {
      var d: nat :| d < T + L && !Exact(f, T, d);
      var k: nat :| k < T && !WholeTurns(f, d, k);
      OneSymbolFails(f, T, L, d, k);
    }
  }

  /** In fields of up to 2^16 elements, whatever the code, nothing wraps. */
  lemma SmallFieldsPass(f: Field, T: nat, L: nat)
    requires Units(f) <= 0xFFFF && 0 < T && T + L <= Units(f)
    ensures AllExact(f, T, T + L) && AllPass(f, T, L)
  {
    hide WholeTurns, Units, Codeword, Passes, IsCodeword, Exact;
    forall d: nat | d < T + L ensures Exact(f, T, d) {
      SmallFieldIsExact(f, T, d);
    }
    forall m, order | |m| == L && InField(f, m) && Complete(order, T + L)
      ensures Below(order, T + L) && Passes(f, T, Codeword(f, T, m), order)
    {
      MessageBack(f, T, m);
      PassesIffCodeword(f, T, Codeword(f, T, m), order);
    }
  }

  lemma PartOfATurn()
    ensures !WholeTurns(WIDE, 131070, 32768)
  {
    WellFormedWide();
    hide Units;
    assert 131070 * 32769 / UINT32_RANGE == 1;
    ModSmall(1, 131071);
  }

  /** In GF(2^17), the code with 32769 checks and 98302 message symbols fails its own check at degree 131070. */
  lemma WideCodeFails()
    ensures Primitive(WIDE) && !AllPass(WIDE, 32769, 98302)
  {
    hide Primitive, WholeTurns, Units, AllPass;
    WideIsPrimitive();
    WellFormedWide();
    PartOfATurn();
    OneSymbolFails(WIDE, 32769, 98302, 131070, 32768);
  }
}
