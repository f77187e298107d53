/**
 One register of T symbols per byte column, laid out one after the other in a
 single array, as src/main/rs/rs.c keeps its checks and syndromes.
 */
module Columns {
  import opened Arithmetic
  import opened ExpLog
  import opened Polynomials
  import opened CodeTheory
  import opened Erasures
  import opened RsCode

  function Offset(col: nat, T: nat): nat {
    col * T
  }

  lemma OffsetFits(col: nat, columns: nat, T: nat)
    requires col < columns
    ensures Offset(col, T) + T <= Offset(columns, T)
  {
    MultipleIsLarge(T, columns - col);
    Distribute(T, columns, col);
  }

  /** The registers of a flat array. */
  ghost function Rows(s: seq<nat>, columns: nat, T: nat): (rows: seq<seq<nat>>)
    requires |s| == Offset(columns, T)
    ensures |rows| == columns
  {
    seq(columns, col requires 0 <= col < columns => Row(s, columns, T, col))
  }

  ghost function Row(s: seq<nat>, columns: nat, T: nat, col: nat): (row: seq<nat>)
    requires |s| == Offset(columns, T) && col < columns
    ensures |row| == T
  {
    OffsetFits(col, columns, T);
    s[Offset(col, T)..Offset(col, T) + T]
  }

  /** Writing one register leaves the others alone. */
  lemma RowsAfterWrite(s: seq<nat>, s': seq<nat>, columns: nat, T: nat, col: nat, r: seq<nat>)
    requires |s| == |s'| == Offset(columns, T) && col < columns
    requires forall p :: 0 <= p < |s| && !(Offset(col, T) <= p < Offset(col, T) + T) ==> s'[p] == s[p]
    requires Row(s', columns, T, col) == r
    ensures Rows(s', columns, T) == Rows(s, columns, T)[col := r]
  {
    hide Offset;
    forall c | 0 <= c < columns && c != col ensures Row(s', columns, T, c) == Row(s, columns, T, c) {
      if c < col {
        OffsetFits(c, col, T);
      } else {
        OffsetFits(col, c, T);
      }
      OffsetFits(c, columns, T);
    }
  }

  /** The registers on the way from before to after: the first i columns are done. */
  ghost predicate Updated(s: seq<nat>, columns: nat, T: nat, before: seq<seq<nat>>, after: seq<seq<nat>>, i: nat) {
    && |s| == Offset(columns, T)
    && |before| == |after| == columns
    && i <= columns
    && (forall col :: 0 <= col < i ==> Row(s, columns, T, col) == after[col])
    && (forall col :: i <= col < columns ==> Row(s, columns, T, col) == before[col])
  }

  lemma UpdatedEnds(s: seq<nat>, columns: nat, T: nat, before: seq<seq<nat>>, after: seq<seq<nat>>)
    requires |s| == Offset(columns, T) && |before| == |after| == columns
    ensures Updated(s, columns, T, before, after, 0) <==> Rows(s, columns, T) == before
    ensures Updated(s, columns, T, before, after, columns) <==> Rows(s, columns, T) == after
  {
    hide Row, Offset;
    assert forall col :: 0 <= col < columns ==> Rows(s, columns, T)[col] == Row(s, columns, T, col);
  }

  lemma UpdatedRow(s: seq<nat>, columns: nat, T: nat, before: seq<seq<nat>>, after: seq<seq<nat>>, i: nat)
    requires Updated(s, columns, T, before, after, i) && i < columns
    ensures |s| == Offset(columns, T) && Row(s, columns, T, i) == before[i]
  {
  }

  /** Writing the register of column i takes Updated from i to i + 1. */
  lemma UpdatedNext(s: seq<nat>, s': seq<nat>, columns: nat, T: nat, before: seq<seq<nat>>, after: seq<seq<nat>>,
                    i: nat)
    requires Updated(s, columns, T, before, after, i) && |s'| == |s| && i < columns
    requires Rows(s', columns, T) == Rows(s, columns, T)[i := after[i]]
    ensures Updated(s', columns, T, before, after, i + 1)
  {
    hide Row, Offset;
    forall col | 0 <= col < columns
      ensures Row(s', columns, T, col) == if col == i then after[i] else Row(s, columns, T, col)
    {
      assert Rows(s', columns, T)[col] == Row(s', columns, T, col);
      assert Rows(s, columns, T)[col] == Row(s, columns, T, col);
    }
  }

  /** Columns that do not change need not be written. */
  lemma UpdatedSkip(s: seq<nat>, columns: nat, T: nat, before: seq<seq<nat>>, after: seq<seq<nat>>, i: nat)
    requires Updated(s, columns, T, before, after, i)
    requires forall col :: i <= col < columns ==> after[col] == before[col]
    ensures Updated(s, columns, T, before, after, columns)
  {
    hide Row;
  }

  /** rscode_encode on the register of one column. */
  method EncodeColumn(c: Code, input: nat, checks: array<nat>, columns: nat, col: nat)
    requires c.Valid() && Primitive(c.F()) && input < Order(c.F()) && c.k < c.n
    requires checks.Length == Offset(columns, c.ChecksNum()) && col < columns
    requires InField(c.F(), Row(checks[..], columns, c.ChecksNum(), col))
    modifies checks
    ensures |c.genPoly| == c.ChecksNum() + 1 > 1
    ensures Rows(checks[..], columns, c.ChecksNum())
         == old(Rows(checks[..], columns, c.ChecksNum()))
              [col := RegisterStep(c.F(), c.genPoly, old(Row(checks[..], columns, c.ChecksNum(), col)), input)]
  {
    c.Facts();
    var T := c.ChecksNum();
    OffsetFits(col, columns, T);
    ghost var s := checks[..];
    ghost var r := Row(s, columns, T, col);
    SliceIsRow(checks, columns, T, col);
    Encode(c, input, checks, Offset(col, T));
    SliceIsRow(checks, columns, T, col);
    RowsAfterWrite(s, checks[..], columns, T, col, RegisterStep(c.F(), c.genPoly, r, input));
  }

  lemma SliceIsRow(a: array<nat>, columns: nat, T: nat, col: nat)
    requires a.Length == Offset(columns, T) && col < columns && Offset(col, T) + T <= a.Length
    ensures a[Offset(col, T)..Offset(col, T) + T] == Row(a[..], columns, T, col)
  {
  }

  /** rscode_decode_syndromes on the syndromes of one column. */
  method SyndromesColumn(c: Code, input: nat, degree: nat, syndromes: array<nat>, columns: nat, col: nat)
    requires c.Valid() && Primitive(c.F()) && input < Order(c.F()) && c.k < c.n
    requires degree * c.ChecksNum() < UINT32_RANGE
    requires syndromes.Length == Offset(columns, c.ChecksNum()) && col < columns
    modifies syndromes
    ensures Rows(syndromes[..], columns, c.ChecksNum())
         == old(Rows(syndromes[..], columns, c.ChecksNum()))
              [col := Add(old(Row(syndromes[..], columns, c.ChecksNum(), col)),
                          Terms(c.F(), c.ChecksNum(), input, degree))]
  {
    var T := c.ChecksNum();
    OffsetFits(col, columns, T);
    ghost var s := syndromes[..];
    ghost var r := Row(s, columns, T, col);
    SliceIsRow(syndromes, columns, T, col);
    NoWrap(c.F(), T, input, degree);
    DecodeSyndromes(c, input, degree, syndromes, Offset(col, T));
    SliceIsRow(syndromes, columns, T, col);
    RowsAfterWrite(s, syndromes[..], columns, T, col, Add(r, Terms(c.F(), T, input, degree)));
  }
}
