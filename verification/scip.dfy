/**
 * The solver-side data that the bipartite extractor reads.
 *
 * The C++ code reads every quantity through proxies over the solver's native
 * arrays (`model.lp_columns()`, `col.reduced_cost()`, `row.l2_norm()`,
 * `SCIPgetObjNorm`, `SCIPgetNLPs`, ...). Here each proxy is replaced by a record
 * holding the values its accessors return at the decision point.
 */
module Scip {

  datatype Option<+T> = None | Some(value: T)

  /** Number of enumerators of `SCIP_VARTYPE`, the width of the variable-type one-hot block. */
  const VarTypeCount: nat := 4

  /** Number of enumerators of `SCIP_BASESTAT`, the width of the basis-status one-hot block. */
  const BaseStatCount: nat := 4

  /** `SCIP_VARTYPE`, in the solver's declaration order. */
  datatype VarType = Binary | Integer | ImplInt | Continuous
  {
    /** The enumerator's integer value, which the extractor uses as an offset. */
    function Index(): (i: nat)
      ensures i < VarTypeCount
      ensures i == 3 <==> this == Continuous
    {
      match this
      case Binary => 0
      case Integer => 1
      case ImplInt => 2
      case Continuous => 3
    }
  }

  /** `SCIP_BASESTAT`, in the solver's declaration order. */
  datatype BaseStat = Lower | Basic | Upper | Zero
  {
    /** The enumerator's integer value, which the extractor uses as an offset. */
    function Index(): (i: nat)
      ensures i < BaseStatCount
    {
      match this
      case Lower => 0
      case Basic => 1
      case Upper => 2
      case Zero => 3
    }
  }

  /**
   * What the column proxy and its variable report. `hasLb`/`hasUb` are the
   * presence of a finite bound; `bestSolVal` and `avgSol` are absent when the
   * solver never recorded them.
   */
  datatype Column = Column(
    hasLb: bool,
    hasUb: bool,
    reducedCost: real,
    obj: real,
    primSol: real,
    primSolFrac: real,
    atLb: bool,
    atUb: bool,
    age: nat,
    basisStatus: BaseStat,
    varType: VarType,
    bestSolVal: Option<real>,
    avgSol: Option<real>)

  /** What the row proxy reports; `lhs`/`rhs` are absent when that side is infinite. */
  datatype Row = Row(
    lhs: Option<real>,
    rhs: Option<real>,
    l2Norm: real,
    age: nat,
    objCosSim: real,
    dualSol: real,
    atLhs: bool,
    atRhs: bool)

  /**
   * The LP relaxation at the decision point: its columns and rows in the
   * solver's array order, the objective norm as the solver reports it and the
   * number of LPs solved so far.
   */
  datatype Lp = Lp(columns: seq<Column>, rows: seq<Row>, objNorm: real, nLps: nat)
}
