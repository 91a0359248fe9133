/**
 * The bipartite node observation: a column-feature matrix with one row per LP
 * column, a row-feature matrix with one row per side (left, then right) that an
 * LP row actually has, and the LP matrix passed through.
 *
 * The first half states the layout as functions on the LP; the second half is
 * the extractor as the C++ code runs it, filling zero-initialised row-major
 * storage through an advancing cursor, proved equal to those functions.
 */
module NodeBipartite {
  import opened Scip
  import opened Features

  /** Smoothing term added to the LP count when normalising ages (`cste`). */
  const AgeSmoothing: real := 5.0

  /** Width of a row-feature row (`n_row_feat`). */
  const RowFeatWidth: nat := 5

  /** Width of a column-feature row (`n_col_feat`). */
  const ColFeatWidth: nat := 11 + VarTypeCount + BaseStatCount

  /** Offset of the basis-status one-hot block in a column-feature row. */
  const BaseStatOffset: nat := 9

  /** Offset of the variable-type one-hot block in a column-feature row. */
  const VarTypeOffset: nat := BaseStatOffset + BaseStatCount + 2

  /** A row-major matrix: entry (i, j) is `data[i * nCols + j]`. */
  datatype Matrix = Matrix(nRows: nat, nCols: nat, data: seq<Feature>)
  {
    predicate WellShaped()
    {
      |data| == nRows * nCols
    }
  }

  /** What the observation function receives: the LP and the solver's LP matrix. */
  datatype State<M> = State(model: Lp, lpMatrix: M)

  datatype NodeBipartiteObs<M> = NodeBipartiteObs(colFeat: Matrix, rowFeat: Matrix, matrix: M)

  /* ---------------------------------------------------------------------- */
  /* The layout, as functions of the LP                                     */
  /* ---------------------------------------------------------------------- */

  /** The objective norm used as a divisor: the solver's value when positive, else one. */
  function ObjNorm(solverNorm: real): (r: real)
    ensures r > 0.0
    ensures solverNorm > 0.0 ==> r == solverNorm
    ensures solverNorm <= 0.0 ==> r == 1.0
  {
    if solverNorm > 0.0 then solverNorm else 1.0
  }

  /** An age normalised by the number of LPs solved plus the smoothing term. */
  function AgeFeature(age: nat, nLps: nat): (r: Feature)
    ensures r.Num? && r.value >= 0.0
    ensures r.value == 0.0 <==> age == 0
  {
    Num(age as real / (nLps as real + AgeSmoothing))
  }

  /** The nine scalar features that open a column's feature row. */
  function ColumnScalars(col: Column, lp: Lp): (r: seq<Feature>)
    ensures |r| == BaseStatOffset
    ensures forall i :: 0 <= i < |r| ==> r[i].Num?
  {
    var objNorm := ObjNorm(lp.objNorm);
    [ Flag(col.hasLb),
      Flag(col.hasUb),
      Num(col.reducedCost / objNorm),
      Num(col.obj / objNorm),
      Num(col.primSol),
      Num(if col.varType == Continuous then 0.0 else col.primSolFrac),
      Flag(col.atLb),
      Flag(col.atUb),
      AgeFeature(col.age, lp.nLps) ]
  }

  /** The two solution statistics, NaN where the solver never recorded one. */
  function ColumnStats(col: Column): (r: seq<Feature>)
    ensures |r| == 2
    ensures r[0].Num? <==> col.bestSolVal.Some?
    ensures col.bestSolVal.Some? ==> r[0].value == col.bestSolVal.value
    ensures col.bestSolVal.None? ==> r[0] == NaN
    ensures r[1].Num? <==> col.avgSol.Some?
    ensures col.avgSol.Some? ==> r[1].value == col.avgSol.value
    ensures col.avgSol.None? ==> r[1] == NaN
  {
    [ValueOr(col.bestSolVal), ValueOr(col.avgSol)]
  }

  /** The feature row of one LP column. */
  function ColumnFeatures(col: Column, lp: Lp): (r: seq<Feature>)
    ensures |r| == ColFeatWidth
  {
    ColumnScalars(col, lp)
    + OneHot(BaseStatCount, col.basisStatus.Index())
    + ColumnStats(col)
    + OneHot(VarTypeCount, col.varType.Index())
  }

  /** Where each feature of a column sits in its feature row. */
  lemma ColumnLayout(col: Column, lp: Lp)
    ensures var r := ColumnFeatures(col, lp);
      && r[0] == Flag(col.hasLb) && r[1] == Flag(col.hasUb)
      && r[2] == Num(col.reducedCost / ObjNorm(lp.objNorm))
      && r[3] == Num(col.obj / ObjNorm(lp.objNorm))
      && r[4] == Num(col.primSol)
      && (col.varType == Continuous ==> r[5] == Num(0.0))
      && (col.varType != Continuous ==> r[5] == Num(col.primSolFrac))
      && r[6] == Flag(col.atLb) && r[7] == Flag(col.atUb)
      && r[8] == AgeFeature(col.age, lp.nLps)
      && r[BaseStatOffset..BaseStatOffset + BaseStatCount] == OneHot(BaseStatCount, col.basisStatus.Index())
      && (col.bestSolVal.Some? ==> r[BaseStatOffset + BaseStatCount] == Num(col.bestSolVal.value))
      && (col.bestSolVal.None? ==> r[BaseStatOffset + BaseStatCount] == NaN)
      && (col.avgSol.Some? ==> r[BaseStatOffset + BaseStatCount + 1] == Num(col.avgSol.value))
      && (col.avgSol.None? ==> r[BaseStatOffset + BaseStatCount + 1] == NaN)
      && r[VarTypeOffset..VarTypeOffset + VarTypeCount] == OneHot(VarTypeCount, col.varType.Index())
  {
  }

  /** The column-feature rows of `cols`, concatenated in order. */
  function ColFeatData(cols: seq<Column>, lp: Lp): (r: seq<Feature>)
    ensures |r| == |cols| * ColFeatWidth
  {
    if cols == [] then []
    else ColFeatData(cols[..|cols| - 1], lp) + ColumnFeatures(cols[|cols| - 1], lp)
  }

  /** The column-feature matrix of an LP. */
  function ColFeat(lp: Lp): (m: Matrix)
    ensures m.WellShaped()
    ensures m.nRows == |lp.columns| && m.nCols == ColFeatWidth
  {
    Matrix(|lp.columns|, ColFeatWidth, ColFeatData(lp.columns, lp))
  }

  /** Entry (i, k) of the column-feature data is entry k of column i's feature row. */
  lemma {:induction false} ColFeatDataAt(cols: seq<Column>, lp: Lp, i: nat, k: nat)
    requires i < |cols| && k < ColFeatWidth
    ensures i * ColFeatWidth + k < |ColFeatData(cols, lp)|
    ensures ColFeatData(cols, lp)[i * ColFeatWidth + k] == ColumnFeatures(cols[i], lp)[k]
  {
    var n := |cols|;
    var init := cols[..n - 1];
    assert ColFeatData(cols, lp) == ColFeatData(init, lp) + ColumnFeatures(cols[n - 1], lp);
    if i < n - 1 {
      ColFeatDataAt(init, lp, i, k);
      MulMonotone(i + 1, n - 1, ColFeatWidth);
    }
  }

  /**
   * In the column-feature matrix, the basis-status block of column i holds a
   * one exactly at the column's basis status, and the variable-type block a one
   * exactly at its variable type; every other entry of both blocks is zero.
   */
  lemma ColFeatOneHot(lp: Lp, i: nat, k: nat)
    requires i < |lp.columns|
    ensures var m := ColFeat(lp); var col := lp.columns[i];
      && (k < BaseStatCount ==>
            m.data[i * ColFeatWidth + BaseStatOffset + k] == (if k == col.basisStatus.Index() then Num(1.0) else Num(0.0)))
      && (k < VarTypeCount ==>
            m.data[i * ColFeatWidth + VarTypeOffset + k] == (if k == col.varType.Index() then Num(1.0) else Num(0.0)))
  {
    var col := lp.columns[i];
    var r := ColumnFeatures(col, lp);
    ColumnLayout(col, lp);
    if k < BaseStatCount {
      ColFeatDataAt(lp.columns, lp, i, BaseStatOffset + k);
      assert r[BaseStatOffset + k] == r[BaseStatOffset..BaseStatOffset + BaseStatCount][k];
    }
    if k < VarTypeCount {
      ColFeatDataAt(lp.columns, lp, i, VarTypeOffset + k);
      assert r[VarTypeOffset + k] == r[VarTypeOffset..VarTypeOffset + VarTypeCount][k];
    }
  }

  /** Each one-hot block of the column-feature matrix is finite and sums to exactly one. */
  lemma ColFeatBlocksSumToOne(lp: Lp, i: nat)
    requires i < |lp.columns|
    ensures var d, s := ColFeat(lp).data, i * ColFeatWidth;
      && s + ColFeatWidth <= |d|
      && (forall p :: s + BaseStatOffset <= p < s + BaseStatOffset + BaseStatCount ==> d[p].Num?)
      && (forall p :: s + VarTypeOffset <= p < s + VarTypeOffset + VarTypeCount ==> d[p].Num?)
      && SumOfFiniteEntries(d[s + BaseStatOffset..s + BaseStatOffset + BaseStatCount]) == 1.0
      && SumOfFiniteEntries(d[s + VarTypeOffset..s + VarTypeOffset + VarTypeCount]) == 1.0
  {
    var d, s := ColFeat(lp).data, i * ColFeatWidth;
    var col := lp.columns[i];
    MulMonotone(i + 1, |lp.columns|, ColFeatWidth);
    forall k | 0 <= k < BaseStatCount
      ensures d[s + BaseStatOffset..s + BaseStatOffset + BaseStatCount][k] == OneHot(BaseStatCount, col.basisStatus.Index())[k]
    {
      ColFeatOneHot(lp, i, k);
    }
    forall k | 0 <= k < VarTypeCount
      ensures d[s + VarTypeOffset..s + VarTypeOffset + VarTypeCount][k] == OneHot(VarTypeCount, col.varType.Index())[k]
    {
      ColFeatOneHot(lp, i, k);
    }
    forall p | s + BaseStatOffset <= p < s + BaseStatOffset + BaseStatCount
      ensures d[p].Num?
    {
      ColFeatOneHot(lp, i, p - s - BaseStatOffset);
    }
    forall p | s + VarTypeOffset <= p < s + VarTypeOffset + VarTypeCount
      ensures d[p].Num?
    {
      ColFeatOneHot(lp, i, p - s - VarTypeOffset);
    }
    assert d[s + BaseStatOffset..s + BaseStatOffset + BaseStatCount] == OneHot(BaseStatCount, col.basisStatus.Index());
    assert d[s + VarTypeOffset..s + VarTypeOffset + VarTypeCount] == OneHot(VarTypeCount, col.varType.Index());
    OneHotSumsToOne(BaseStatCount, col.basisStatus.Index());
    OneHotSumsToOne(VarTypeCount, col.varType.Index());
  }

  lemma MulMonotone(a: nat, b: nat, w: nat)
    requires a <= b
    ensures a * w <= b * w
  {
  }

  /** Which sides a row has: one feature row for each. */
  function SideCount(row: Row): (r: nat)
    ensures r <= 2
    ensures r == 0 <==> row.lhs.None? && row.rhs.None?
  {
    (if row.lhs.Some? then 1 else 0) + (if row.rhs.Some? then 1 else 0)
  }

  /** Number of row-feature rows: every present lhs and every present rhs counts once. */
  function NIneqRows(rows: seq<Row>): (r: nat)
    ensures r <= 2 * |rows|
  {
    if rows == [] then 0 else NIneqRows(rows[..|rows| - 1]) + SideCount(rows[|rows| - 1])
  }

  /** No feature rows at all exactly when no LP row has a finite side. */
  lemma {:induction false} NIneqRowsZero(rows: seq<Row>)
    ensures NIneqRows(rows) == 0 <==> forall i :: 0 <= i < |rows| ==> rows[i].lhs.None? && rows[i].rhs.None?
  {
    if rows != [] {
      var init := rows[..|rows| - 1];
      NIneqRowsZero(init);
      assert forall i :: 0 <= i < |init| ==> init[i] == rows[i];
    }
  }

  /** -1 for a left-hand side, +1 for a right-hand side. */
  function Sign(lhs: bool): (r: real)
    ensures lhs ==> r == -1.0
    ensures !lhs ==> r == 1.0
  {
    if lhs then -1.0 else 1.0
  }

  /** The feature row of one side of an LP row; the side must be present. */
  function SideFeatures(row: Row, lhs: bool, lp: Lp): (r: seq<Feature>)
    requires if lhs then row.lhs.Some? else row.rhs.Some?
    ensures |r| == RowFeatWidth
  {
    var sign := Sign(lhs);
    var bound := if lhs then row.lhs.value else row.rhs.value;
    var atBound := if lhs then row.atLhs else row.atRhs;
    [ Quot(bound, row.l2Norm),
      Flag(atBound),
      AgeFeature(row.age, lp.nLps),
      Num(sign * row.objCosSim),
      Quot(sign * row.dualSol, row.l2Norm * ObjNorm(lp.objNorm)) ]
  }

  /**
   * Where each feature of a side sits in its feature row: the side's bound over
   * the row norm, its at-bound flag, the age, the cosine similarity negated for
   * the lhs and kept for the rhs, and the dual value with the same sign over the
   * row norm times the objective norm.
   */
  lemma SideLayout(row: Row, lhs: bool, lp: Lp)
    requires if lhs then row.lhs.Some? else row.rhs.Some?
    ensures var r := SideFeatures(row, lhs, lp);
      && r[0] == Quot(if lhs then row.lhs.value else row.rhs.value, row.l2Norm)
      && r[1] == Flag(if lhs then row.atLhs else row.atRhs)
      && r[2] == AgeFeature(row.age, lp.nLps)
      && r[3] == Num(if lhs then -row.objCosSim else row.objCosSim)
      && r[4] == Quot(if lhs then -row.dualSol else row.dualSol, row.l2Norm * ObjNorm(lp.objNorm))
  {
  }

  /** The feature rows of one LP row: the lhs row (if any) followed by the rhs row (if any). */
  function RowFeatures(row: Row, lp: Lp): (r: seq<Feature>)
    ensures |r| == SideCount(row) * RowFeatWidth
    ensures row.lhs.None? && row.rhs.None? ==> r == []
    ensures row.lhs.Some? ==> r[..RowFeatWidth] == SideFeatures(row, true, lp)
    ensures row.rhs.Some? ==> r[|r| - RowFeatWidth..] == SideFeatures(row, false, lp)
  {
    (if row.lhs.Some? then SideFeatures(row, true, lp) else [])
    + (if row.rhs.Some? then SideFeatures(row, false, lp) else [])
  }

  /** The feature rows of `rows`, concatenated in order. */
  function RowFeatData(rows: seq<Row>, lp: Lp): (r: seq<Feature>)
    ensures |r| == NIneqRows(rows) * RowFeatWidth
  {
    if rows == [] then []
    else RowFeatData(rows[..|rows| - 1], lp) + RowFeatures(rows[|rows| - 1], lp)
  }

  /** The row-feature matrix of an LP. */
  function RowFeat(lp: Lp): (m: Matrix)
    ensures m.WellShaped()
    ensures m.nRows == NIneqRows(lp.rows) && m.nCols == RowFeatWidth
  {
    Matrix(NIneqRows(lp.rows), RowFeatWidth, RowFeatData(lp.rows, lp))
  }

  /** The observation: both feature matrices and the LP matrix, unchanged. */
  function Observation<M>(state: State<M>): (r: NodeBipartiteObs<M>)
    ensures r.colFeat.WellShaped() && r.rowFeat.WellShaped()
    ensures r.colFeat.nRows == |state.model.columns| && r.colFeat.nCols == ColFeatWidth
    ensures r.rowFeat.nRows == NIneqRows(state.model.rows) && r.rowFeat.nCols == RowFeatWidth
    ensures r.matrix == state.lpMatrix
  {
    NodeBipartiteObs(ColFeat(state.model), RowFeat(state.model), state.lpMatrix)
  }

  /** The row count is additive over a split of the LP rows. */
  lemma {:induction false} NIneqRowsAppend(a: seq<Row>, b: seq<Row>)
    ensures NIneqRows(a + b) == NIneqRows(a) + NIneqRows(b)
    decreases |b|
  {
    if b != [] {
      var init := b[..|b| - 1];
      assert (a + b)[..|a + b| - 1] == a + init;
      NIneqRowsAppend(a, init);
    } else {
      assert a + b == a;
    }
  }

  /** The row-feature data of a split of the LP rows is the concatenation of the parts' data. */
  lemma {:induction false} RowFeatDataAppend(a: seq<Row>, b: seq<Row>, lp: Lp)
    ensures RowFeatData(a + b, lp) == RowFeatData(a, lp) + RowFeatData(b, lp)
    decreases |b|
  {
    if b != [] {
      var init := b[..|b| - 1];
      assert (a + b)[..|a + b| - 1] == a + init;
      RowFeatDataAppend(a, init, lp);
    } else {
      assert a + b == a;
    }
  }

  /**
   * LP row i owns the block of the row-feature data that starts after the
   * feature rows of the rows before it: its lhs row there, then its rhs row.
   */
  lemma RowFeatDataAt(rows: seq<Row>, lp: Lp, i: nat)
    requires i < |rows|
    ensures var start := NIneqRows(rows[..i]) * RowFeatWidth;
      var end := start + SideCount(rows[i]) * RowFeatWidth;
      && end <= |RowFeatData(rows, lp)|
      && RowFeatData(rows, lp)[start..end] == RowFeatures(rows[i], lp)
  {
    assert rows == rows[..i] + [rows[i]] + rows[i + 1..];
    RowFeatDataAppend(rows[..i] + [rows[i]], rows[i + 1..], lp);
    RowFeatDataAppend(rows[..i], [rows[i]], lp);
    assert RowFeatData([rows[i]], lp) == RowFeatures(rows[i], lp) by {
      assert [rows[i]][..0] == [];
    }
  }

  /** The lhs and rhs feature rows of one LP row mirror each other in the signed entries. */
  lemma MirroredSides(row: Row, lp: Lp)
    requires row.lhs.Some? && row.rhs.Some?
    ensures var l, r := SideFeatures(row, true, lp), SideFeatures(row, false, lp);
      && l[3].value == -r[3].value
      && (row.l2Norm != 0.0 ==> l[4].Num? && r[4].Num? && l[4].value == -r[4].value)
      && l[2] == r[2]
  {
  }

  /**
   * In the row-feature matrix, a two-sided LP row's lhs feature row starts
   * where the feature rows of the rows before it end, and its rhs feature row
   * follows right after.
   */
  lemma RowFeatTwoSided(lp: Lp, i: nat)
    requires i < |lp.rows| && lp.rows[i].lhs.Some? && lp.rows[i].rhs.Some?
    ensures var d, s, row := RowFeat(lp).data, NIneqRows(lp.rows[..i]) * RowFeatWidth, lp.rows[i];
      && s + 2 * RowFeatWidth <= |d|
      && d[s..s + RowFeatWidth] == SideFeatures(row, true, lp)
      && d[s + RowFeatWidth..s + 2 * RowFeatWidth] == SideFeatures(row, false, lp)
  {
    var d, s, row := RowFeat(lp).data, NIneqRows(lp.rows[..i]) * RowFeatWidth, lp.rows[i];
    RowFeatDataAt(lp.rows, lp, i);
    var r := RowFeatures(row, lp);
    assert SideCount(row) == 2;
    var block := d[s..s + 2 * RowFeatWidth];
    assert block == r;
    assert d[s..s + RowFeatWidth] == block[..RowFeatWidth];
    assert d[s + RowFeatWidth..s + 2 * RowFeatWidth] == block[RowFeatWidth..];
  }

  /**
   * Positions `s` and `s + RowFeatWidth` of `d` start the feature rows of the
   * two sides of a two-sided row, lhs first, and mirror each other: equal
   * ages, the cosine similarity negated in the lhs row and kept in the rhs row,
   * the dual value negated in the lhs row and kept in the rhs row, and, when
   * the row norm is nonzero, finite duals of opposite values.
   */
  predicate MirroredAt(d: seq<Feature>, s: nat, row: Row, lp: Lp)
  {
    var q := row.l2Norm * ObjNorm(lp.objNorm);
    && s + 2 * RowFeatWidth <= |d|
    && d[s + 2] == d[s + RowFeatWidth + 2]
    && d[s + 3] == Num(-row.objCosSim) && d[s + RowFeatWidth + 3] == Num(row.objCosSim)
    && d[s + 4] == Quot(-row.dualSol, q) && d[s + RowFeatWidth + 4] == Quot(row.dualSol, q)
    && (row.l2Norm != 0.0 ==>
          d[s + 4].Num? && d[s + RowFeatWidth + 4].Num? && d[s + 4].value == -d[s + RowFeatWidth + 4].value)
  }

  /** A block holding a two-sided row's lhs feature row and then its rhs one is mirrored. */
  lemma MirroredBlock(d: seq<Feature>, s: nat, row: Row, lp: Lp)
    requires row.lhs.Some? && row.rhs.Some?
    requires s + 2 * RowFeatWidth <= |d|
    requires d[s..s + RowFeatWidth] == SideFeatures(row, true, lp)
    requires d[s + RowFeatWidth..s + 2 * RowFeatWidth] == SideFeatures(row, false, lp)
    ensures MirroredAt(d, s, row, lp)
  {
    var l, r := d[s..s + RowFeatWidth], d[s + RowFeatWidth..s + 2 * RowFeatWidth];
    assert d[s + 2] == l[2] && d[s + 3] == l[3] && d[s + 4] == l[4];
    assert d[s + RowFeatWidth + 2] == r[2] && d[s + RowFeatWidth + 3] == r[3] && d[s + RowFeatWidth + 4] == r[4];
    SideLayout(row, true, lp);
    SideLayout(row, false, lp);
    MirroredSides(row, lp);
  }

  /**
   * In the row-feature matrix, the lhs and rhs feature rows of a two-sided LP
   * row sit next to each other where the feature rows of the rows before it
   * end, and mirror each other as `MirroredAt` states.
   */
  lemma RowFeatMirrored(lp: Lp, i: nat)
    requires i < |lp.rows| && lp.rows[i].lhs.Some? && lp.rows[i].rhs.Some?
    ensures MirroredAt(RowFeat(lp).data, NIneqRows(lp.rows[..i]) * RowFeatWidth, lp.rows[i], lp)
  {
    RowFeatTwoSided(lp, i);
    MirroredBlock(RowFeat(lp).data, NIneqRows(lp.rows[..i]) * RowFeatWidth, lp.rows[i], lp);
  }

  /**
   * Division by the objective norm never yields a non-finite feature; division by
   * the row norm does exactly when that norm is zero.
   */
  lemma NonFiniteOnlyFromRowNorm(row: Row, lhs: bool, lp: Lp)
    requires if lhs then row.lhs.Some? else row.rhs.Some?
    ensures var r := SideFeatures(row, lhs, lp);
      && (r[0].Num? <==> row.l2Norm != 0.0)
      && (r[4].Num? <==> row.l2Norm != 0.0)
  {
  }

  /**
   * A row with lhs 1, rhs 5 and norm 2 yields two feature rows, 0.5 then 2.5;
   * the lhs row holds the negated cosine similarity and the rhs row the cosine
   * similarity itself.
   */
  lemma TwoSidedRowExample(lp: Lp, cosSim: real)
    requires cosSim != 0.0
    ensures var row := Row(Some(1.0), Some(5.0), 2.0, 0, cosSim, 0.0, false, false);
      var r := RowFeatures(row, lp);
      && |r| == 2 * RowFeatWidth
      && r[0] == Num(0.5) && r[RowFeatWidth] == Num(2.5)
      && r[3] == Num(-cosSim) && r[RowFeatWidth + 3] == Num(cosSim) && r[3] != r[RowFeatWidth + 3]
  {
  }

  /* ---------------------------------------------------------------------- */
  /* The extractor                                                          */
  /* ---------------------------------------------------------------------- */

  /**
   * Fills the column-feature matrix through a cursor: zero-initialised storage of
   * one row per column, each row written in feature order, with the two one-hot
   * blocks written by setting one entry and skipping over the rest.
   */
  method ExtractColFeat(lp: Lp) returns (colFeat: Matrix)
    ensures colFeat == ColFeat(lp)
  {
    var cols := lp.columns;
    var data := seq(|cols| * ColFeatWidth, _ => Num(0.0));
    var nLps := lp.nLps;
    var objNorm := ObjNorm(lp.objNorm);
    var iter := 0;
    for j := 0 to |cols|
      invariant |data| == |cols| * ColFeatWidth
      invariant iter == j * ColFeatWidth
      invariant data[..iter] == ColFeatData(cols[..j], lp)
      invariant iter <= |data| && ZerosOn(data, iter, |data|)
    {
      MulMonotone(j + 1, |cols|, ColFeatWidth);
      ghost var start := iter;
      ghost var before := data;
      data, iter := ExtractColumn(data, iter, cols[j], nLps, objNorm, lp);
      WrittenPrefix(before, data, start, iter, ColumnFeatures(cols[j], lp));
      ZerosKept(before, data, start, iter, |data|, ColumnFeatures(cols[j], lp));
      assert cols[..j + 1][..j] == cols[..j];
    }
    // Every element of the matrix was written: the cursor ends at its size.
    assert iter == |data|;
    assert cols[..|cols|] == cols;
    colFeat := Matrix(|cols|, ColFeatWidth, data);
  }

  /**
   * `written` is `data` with the entries from `iter` up to `next` replaced by
   * `block` and every other entry left as it was: what a run of cursor writes
   * starting at `iter` and ending at `next` leaves behind.
   */
  predicate WroteBlock(data: seq<Feature>, written: seq<Feature>, iter: nat, next: nat, block: seq<Feature>)
  {
    && |written| == |data| && iter <= next <= |data|
    && written[..iter] == data[..iter]
    && written[iter..next] == block
    && written[next..] == data[next..]
  }

  /** Two runs of writes, the second starting where the first ended, write the concatenated block. */
  lemma WroteBlockThen(d0: seq<Feature>, d1: seq<Feature>, d2: seq<Feature>, a: nat, b: nat, c: nat,
                       b1: seq<Feature>, b2: seq<Feature>)
    requires WroteBlock(d0, d1, a, b, b1) && WroteBlock(d1, d2, b, c, b2)
    ensures WroteBlock(d0, d2, a, c, b1 + b2)
  {
  }

  /** After writes at the end of a filled prefix, the filled prefix has grown by the block. */
  lemma WrittenPrefix(d0: seq<Feature>, d1: seq<Feature>, iter: nat, next: nat, block: seq<Feature>)
    requires WroteBlock(d0, d1, iter, next, block)
    ensures d1[..next] == d0[..iter] + block
  {
  }

  /** Entries from `lo` up to `hi` are all zero. */
  predicate ZerosOn(s: seq<Feature>, lo: nat, hi: nat)
    requires lo <= hi <= |s|
  {
    forall p :: lo <= p < hi ==> s[p] == Num(0.0)
  }

  /** Writes ending at `next` leave the zeros after it in place. */
  lemma ZerosKept(d0: seq<Feature>, d1: seq<Feature>, iter: nat, next: nat, hi: nat, block: seq<Feature>)
    requires WroteBlock(d0, d1, iter, next, block) && next <= hi <= |d0| && ZerosOn(d0, iter, hi)
    ensures ZerosOn(d1, next, hi)
  {
  }

  /**
   * Writes the feature row of `col` at the cursor of zero-initialised storage
   * and returns the storage and the advanced cursor; `nLps` and `objNorm` are
   * the values the caller computed once for all columns.
   */
  method ExtractColumn(data: seq<Feature>, iter: nat, col: Column, nLps: nat, objNorm: real, ghost lp: Lp)
    returns (written: seq<Feature>, next: nat)
    requires nLps == lp.nLps && objNorm == ObjNorm(lp.objNorm)
    requires iter + ColFeatWidth <= |data| && ZerosOn(data, iter, iter + ColFeatWidth)
    ensures next == iter + ColFeatWidth
    ensures WroteBlock(data, written, iter, next, ColumnFeatures(col, lp))
  {
    ghost var end := iter + ColFeatWidth;
    var w1, n1 := ExtractColumnBounds(data, iter, col, objNorm, lp);
    var w2, n2 := ExtractColumnStatus(w1, n1, col, nLps, lp);
    WroteBlockThen(data, w1, w2, iter, n1, n2, ColumnScalars(col, lp)[..5], ColumnScalars(col, lp)[5..]);
    assert ColumnScalars(col, lp)[..5] + ColumnScalars(col, lp)[5..] == ColumnScalars(col, lp);
    ZerosKept(data, w2, iter, n2, end, ColumnScalars(col, lp));

    var w3, n3 := SetOneHot(w2, n2, BaseStatCount, col.basisStatus.Index());
    ghost var block3 := ColumnScalars(col, lp) + OneHot(BaseStatCount, col.basisStatus.Index());
    WroteBlockThen(data, w2, w3, iter, n2, n3, ColumnScalars(col, lp), OneHot(BaseStatCount, col.basisStatus.Index()));
    ZerosKept(data, w3, iter, n3, end, block3);

    var w4, n4 := ExtractColumnStats(w3, n3, col);
    ghost var block4 := block3 + ColumnStats(col);
    WroteBlockThen(data, w3, w4, iter, n3, n4, block3, ColumnStats(col));
    ZerosKept(data, w4, iter, n4, end, block4);

    written, next := SetOneHot(w4, n4, VarTypeCount, col.varType.Index());
    WroteBlockThen(data, w4, written, iter, n4, next, block4, OneHot(VarTypeCount, col.varType.Index()));
  }

  /** Writes the bound-presence flags, the normalised costs and the primal value of `col`. */
  method ExtractColumnBounds(data: seq<Feature>, iter: nat, col: Column, objNorm: real, ghost lp: Lp)
    returns (written: seq<Feature>, next: nat)
    requires objNorm == ObjNorm(lp.objNorm)
    requires iter + 5 <= |data|
    ensures next == iter + 5
    ensures WroteBlock(data, written, iter, next, ColumnScalars(col, lp)[..5])
  {
    written, next := data, iter;
    written := written[next := Flag(col.hasLb)]; next := next + 1;
    written := written[next := Flag(col.hasUb)]; next := next + 1;
    written := written[next := Num(col.reducedCost / objNorm)]; next := next + 1;
    written := written[next := Num(col.obj / objNorm)]; next := next + 1;
    written := written[next := Num(col.primSol)]; next := next + 1;
    assert forall q :: 0 <= q < iter ==> written[..iter][q] == data[..iter][q];
    assert forall q :: 0 <= q < 5 ==> written[iter..next][q] == ColumnScalars(col, lp)[..5][q];
  }

  /** Writes the fractionality (zero for a continuous variable), the bound status and the age of `col`. */
  method ExtractColumnStatus(data: seq<Feature>, iter: nat, col: Column, nLps: nat, ghost lp: Lp)
    returns (written: seq<Feature>, next: nat)
    requires nLps == lp.nLps
    requires iter + 4 <= |data|
    ensures next == iter + 4
    ensures WroteBlock(data, written, iter, next, ColumnScalars(col, lp)[5..])
  {
    written, next := data, iter;
    if col.varType == Continuous {
      written := written[next := Num(0.0)]; next := next + 1;
    } else {
      written := written[next := Num(col.primSolFrac)]; next := next + 1;
    }
    written := written[next := Flag(col.atLb)]; next := next + 1;
    written := written[next := Flag(col.atUb)]; next := next + 1;
    written := written[next := AgeFeature(col.age, nLps)]; next := next + 1;
    assert forall q :: 0 <= q < iter ==> written[..iter][q] == data[..iter][q];
    assert forall q :: 0 <= q < 4 ==> written[iter..next][q] == ColumnScalars(col, lp)[5..][q];
  }

  /** Writes the best and average solution values of `col`, NaN where absent. */
  method ExtractColumnStats(data: seq<Feature>, iter: nat, col: Column)
    returns (written: seq<Feature>, next: nat)
    requires iter + 2 <= |data|
    ensures next == iter + 2
    ensures WroteBlock(data, written, iter, next, ColumnStats(col))
  {
    written, next := data, iter;
    written := written[next := ValueOr(col.bestSolVal)]; next := next + 1;
    written := written[next := ValueOr(col.avgSol)]; next := next + 1;
    assert forall q :: 0 <= q < iter ==> written[..iter][q] == data[..iter][q];
  }

  /**
   * Writes a one-hot block at the cursor of zero storage by setting the single
   * entry at offset `k` and skipping over the others; returns the storage and
   * the advanced cursor.
   */
  method SetOneHot(data: seq<Feature>, iter: nat, n: nat, k: nat) returns (written: seq<Feature>, next: nat)
    requires k < n && iter + n <= |data| && ZerosOn(data, iter, iter + n)
    ensures next == iter + n
    ensures WroteBlock(data, written, iter, next, OneHot(n, k))
  {
    written := data[iter + k := Num(1.0)];
    next := iter + n;
    assert forall q :: 0 <= q < n ==> written[iter..next][q] == OneHot(n, k)[q];
    assert forall q :: 0 <= q < iter ==> written[..iter][q] == data[..iter][q];
  }

  /** Counts the row-feature rows: once per present rhs, once per present lhs. */
  method GetNIneqRows(rows: seq<Row>) returns (count: nat)
    ensures count == NIneqRows(rows)
  {
    count := 0;
    for i := 0 to |rows|
      invariant count == NIneqRows(rows[..i])
    {
      var row := rows[i];
      assert rows[..i + 1][..i] == rows[..i];
      count := count + if row.rhs.Some? then 1 else 0;
      count := count + if row.lhs.Some? then 1 else 0;
    }
    assert rows[..|rows|] == rows;
  }

  /**
   * Writes the feature row of one side of `row` at the cursor and returns the
   * storage and the advanced cursor; `nLps` and `objNorm` are the values the
   * caller computed once for all rows.
   */
  method ExtractRow(data: seq<Feature>, iter: nat, row: Row, lhs: bool, nLps: nat, objNorm: real, ghost lp: Lp)
    returns (written: seq<Feature>, next: nat)
    requires nLps == lp.nLps && objNorm == ObjNorm(lp.objNorm)
    requires if lhs then row.lhs.Some? else row.rhs.Some?
    requires iter + RowFeatWidth <= |data|
    ensures next == iter + RowFeatWidth
    ensures WroteBlock(data, written, iter, next, SideFeatures(row, lhs, lp))
  {
    var w1, n1 := ExtractRowBound(data, iter, row, lhs, lp);
    written, next := ExtractRowScores(w1, n1, row, lhs, nLps, objNorm, lp);
    WroteBlockThen(data, w1, written, iter, n1, next, SideFeatures(row, lhs, lp)[..2], SideFeatures(row, lhs, lp)[2..]);
    assert SideFeatures(row, lhs, lp)[..2] + SideFeatures(row, lhs, lp)[2..] == SideFeatures(row, lhs, lp);
  }

  /** Writes the chosen side's bound over the row norm and whether the LP solution is at that side. */
  method ExtractRowBound(data: seq<Feature>, iter: nat, row: Row, lhs: bool, ghost lp: Lp)
    returns (written: seq<Feature>, next: nat)
    requires if lhs then row.lhs.Some? else row.rhs.Some?
    requires iter + 2 <= |data|
    ensures next == iter + 2
    ensures WroteBlock(data, written, iter, next, SideFeatures(row, lhs, lp)[..2])
  {
    var rowNorm := row.l2Norm;
    written, next := data, iter;
    if lhs {
      written := written[next := Quot(row.lhs.value, rowNorm)]; next := next + 1;
      written := written[next := Flag(row.atLhs)]; next := next + 1;
    } else {
      written := written[next := Quot(row.rhs.value, rowNorm)]; next := next + 1;
      written := written[next := Flag(row.atRhs)]; next := next + 1;
    }
    assert forall q :: 0 <= q < iter ==> written[..iter][q] == data[..iter][q];
  }

  /**
   * Writes the row's age, then its objective cosine similarity and its dual value
   * over the norms, both with the side's sign.
   */
  method ExtractRowScores(data: seq<Feature>, iter: nat, row: Row, lhs: bool, nLps: nat, objNorm: real, ghost lp: Lp)
    returns (written: seq<Feature>, next: nat)
    requires nLps == lp.nLps && objNorm == ObjNorm(lp.objNorm)
    requires if lhs then row.lhs.Some? else row.rhs.Some?
    requires iter + 3 <= |data|
    ensures next == iter + 3
    ensures WroteBlock(data, written, iter, next, SideFeatures(row, lhs, lp)[2..])
  {
    var sign := Sign(lhs);
    var rowNorm := row.l2Norm;
    written, next := data, iter;
    written := written[next := AgeFeature(row.age, nLps)]; next := next + 1;
    written := written[next := Num(sign * row.objCosSim)]; next := next + 1;
    written := written[next := Quot(sign * row.dualSol, rowNorm * objNorm)]; next := next + 1;
    assert forall q :: 0 <= q < iter ==> written[..iter][q] == data[..iter][q];
    assert forall q :: 0 <= q < 3 ==> written[iter..next][q] == SideFeatures(row, lhs, lp)[2..][q];
  }

  /** Extending a prefix of the LP rows by row i adds its side count to the count and its feature rows to the data. */
  lemma {:induction false} RowsPrefixStep(rows: seq<Row>, i: nat, lp: Lp)
    requires i < |rows|
    ensures NIneqRows(rows[..i + 1]) == NIneqRows(rows[..i]) + SideCount(rows[i])
    ensures NIneqRows(rows[..i + 1]) <= NIneqRows(rows)
    ensures RowFeatData(rows[..i + 1], lp) == RowFeatData(rows[..i], lp) + RowFeatures(rows[i], lp)
  {
    assert rows[..i + 1][..i] == rows[..i];
    assert rows == rows[..i + 1] + rows[i + 1..];
    NIneqRowsAppend(rows[..i + 1], rows[i + 1..]);
  }

  /**
   * Writes the feature rows of one LP row at the cursor: a row for its lhs
   * if it has one, then a row for its rhs if it has one.
   */
  method ExtractRowSides(data: seq<Feature>, iter: nat, row: Row, nLps: nat, objNorm: real, ghost lp: Lp)
    returns (written: seq<Feature>, next: nat)
    requires nLps == lp.nLps && objNorm == ObjNorm(lp.objNorm)
    requires iter + SideCount(row) * RowFeatWidth <= |data|
    ensures next == iter + SideCount(row) * RowFeatWidth
    ensures WroteBlock(data, written, iter, next, RowFeatures(row, lp))
  {
    ghost var lhsRow: seq<Feature> := [];
    ghost var rhsRow: seq<Feature> := [];
    written, next := data, iter;
    if row.lhs.Some? {
      written, next := ExtractRow(written, next, row, true, nLps, objNorm, lp);
      lhsRow := SideFeatures(row, true, lp);
    }
    ghost var middle, mid := written, next;
    assert WroteBlock(data, middle, iter, mid, lhsRow);
    if row.rhs.Some? {
      written, next := ExtractRow(written, next, row, false, nLps, objNorm, lp);
      rhsRow := SideFeatures(row, false, lp);
    }
    assert WroteBlock(middle, written, mid, next, rhsRow);
    WroteBlockThen(data, middle, written, iter, mid, next, lhsRow, rhsRow);
  }

  /**
   * Fills the row-feature matrix through a cursor: storage for the counted
   * number of feature rows, and for each LP row its lhs row, then its rhs row.
   */
  method ExtractRowFeat(lp: Lp) returns (rowFeat: Matrix)
    ensures rowFeat == RowFeat(lp)
  {
    var rows := lp.rows;
    var nIneqRows := GetNIneqRows(rows);
    var data := seq(nIneqRows * RowFeatWidth, _ => Num(0.0));
    var nLps := lp.nLps;
    var objNorm := ObjNorm(lp.objNorm);
    var iter := 0;
    for i := 0 to |rows|
      invariant |data| == nIneqRows * RowFeatWidth
      invariant iter == NIneqRows(rows[..i]) * RowFeatWidth
      invariant iter <= |data|
      invariant data[..iter] == RowFeatData(rows[..i], lp)
    {
      RowsPrefixStep(rows, i, lp);
      MulMonotone(NIneqRows(rows[..i + 1]), nIneqRows, RowFeatWidth);
      ghost var start := iter;
      ghost var before := data;
      data, iter := ExtractRowSides(data, iter, rows[i], nLps, objNorm, lp);
      WrittenPrefix(before, data, start, iter, RowFeatures(rows[i], lp));
    }
    // Every element of the matrix was written: the cursor ends at its size.
    assert rows[..|rows|] == rows;
    assert iter == |data|;
    rowFeat := Matrix(nIneqRows, RowFeatWidth, data);
  }

  /** The observation: column features, row features and the LP matrix passed through. */
  method Get<M>(state: State<M>) returns (obs: NodeBipartiteObs<M>)
    ensures obs == Observation(state)
    ensures obs.colFeat.WellShaped() && obs.rowFeat.WellShaped()
    ensures obs.colFeat.nRows == |state.model.columns| && obs.colFeat.nCols == ColFeatWidth
    ensures obs.rowFeat.nRows == NIneqRows(state.model.rows) && obs.rowFeat.nCols == RowFeatWidth
    ensures obs.matrix == state.lpMatrix
  {
    var colFeat := ExtractColFeat(state.model);
    var rowFeat := ExtractRowFeat(state.model);
    obs := NodeBipartiteObs(colFeat, rowFeat, state.lpMatrix);
  }
}
