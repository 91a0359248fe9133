# Ecole bipartite node observation and observation combinators, in Dafny

This project models two pieces of Ecole, a library that exposes the SCIP
mixed-integer solver as a learning environment.

The first piece is the `NodeBipartite` observation function. At a branching
node it describes the LP relaxation as a bipartite graph and returns three
things:

- a column-feature matrix with one row of 11 + |var_type| + |base_stat|
  entries per LP column;
- a row-feature matrix with one five-entry row per side (left-hand side, then
  right-hand side) that an LP row actually has;
- the solver's LP matrix, passed through unchanged.

The extractor allocates zero-filled row-major storage. It walks the columns
(then the rows) and writes each feature through an advancing cursor. Each
one-hot block is written by setting a single entry and skipping the rest.

The second piece is the Python combinators `TupleFunction` and
`DictFunction`. They pack several observation functions, forward `reset` to
each of them, and collect the observations as a tuple (by position) or as a
dict (by keyword name).

Files:

- `scip.dfy`: the solver-side input records (`Column`, `Row`, `Lp`) and SCIP's
  `SCIP_VARTYPE` and `SCIP_BASESTAT` enumerations.
- `features.dfy`: the value of a matrix entry. It is an exact real, or NaN, or
  a signed infinity. It also defines the IEEE-style quotient and the one-hot
  block.
- `nodebipartite.dfy`:
  - The layout, stated as functions of the LP: `ColumnFeatures`, `ColFeat`,
    `SideFeatures`, `RowFeatures`, `RowFeat` and `Observation`.
  - The cursor-based extractor methods, each proved to produce exactly those
    functions.
  - Lemmas about the layout.
- `observation.dfy`: the two combinator classes, generic over the observation
  function type. It also has the functions that state what they compute, and
  a lemma that relates the two combinators.

## Model

| member | source | states |
|---|---|---|
| Scip.VarType.Index | libecole/src/observation/nodebipartite.cpp:56 | the variable type's integer value is below the size of the enumeration, and equals 3 exactly for a continuous variable, so the one-hot write stays inside its block |
| Scip.BaseStat.Index | libecole/src/observation/nodebipartite.cpp:52 | the basis status's integer value is below the size of the enumeration, so the one-hot write stays inside its block |
| Features.QuotMeaning | libecole/src/observation/nodebipartite.cpp:90-98 | a quotient is finite exactly when the divisor is nonzero, and then it times the divisor is the dividend; 0/0 is NaN and any other division by zero is an infinity with the dividend's sign |
| Features.ValueOr | libecole/src/observation/nodebipartite.cpp:54-55 | a recorded statistic becomes a finite entry holding that value, and a missing one becomes NaN |
| Features.Quot | libecole/src/observation/nodebipartite.cpp:90-98 | the floating-point quotient is finite exactly when the divisor is nonzero, and is NaN exactly for 0/0 |
| Features.Flag | libecole/src/observation/nodebipartite.cpp:40-41 | a boolean becomes a finite entry that is one exactly when it holds and zero exactly when it does not; the same cast is used at lines 49-50, 91 and 94 |
| Features.OneHot | libecole/src/observation/nodebipartite.cpp:52-57 | a block of n entries with a one at offset k and zeros everywhere else |
| Features.OneHotSumsToOne | libecole/src/observation/nodebipartite.cpp:52-57 | a one-hot block is all finite, and so its sum is the sum of its finite entries, exactly one |
| NodeBipartite.ObjNorm | libecole/src/observation/nodebipartite.cpp:26-29 | the objective-norm divisor is always positive; it is the solver's norm when that is positive and exactly 1 otherwise |
| NodeBipartite.AgeFeature | libecole/src/observation/nodebipartite.cpp:51 | a normalised age (age over n_lps + 5) is finite, non-negative, and zero exactly for age 0; the same normalisation is used at line 96 |
| NodeBipartite.ColumnScalars | libecole/src/observation/nodebipartite.cpp:40-51 | the nine scalar features that open a column row are all finite |
| NodeBipartite.ColumnStats | libecole/src/observation/nodebipartite.cpp:54-55 | the best and average solution values are finite entries holding the solver's values when recorded, and NaN when not |
| NodeBipartite.ColumnFeatures | libecole/src/observation/nodebipartite.cpp:23-24 | a column's feature row has exactly 11 + |var_type| + |base_stat| entries |
| NodeBipartite.ColumnLayout | libecole/src/observation/nodebipartite.cpp:40-57 | the position of every column feature: bound flags, the costs divided by the objective norm, the primal value, a fractionality of 0 for a continuous variable and the fractional value otherwise, the bound-status flags, the age over n_lps + 5, the basis-status one-hot at offset 9, the best and average solution values (NaN when absent), and the variable-type one-hot at offset 11 + |base_stat| |
| NodeBipartite.ColFeatData | libecole/src/observation/nodebipartite.cpp:38-58 | the concatenated feature rows of the columns have one full row of entries per column |
| NodeBipartite.ColFeat | libecole/src/observation/nodebipartite.cpp:32 | the column-feature matrix is well shaped, with one row per LP column and n_col_feat columns |
| NodeBipartite.ColFeatDataAt | libecole/src/observation/nodebipartite.cpp:38-58 | entry (i, k) of the row-major column data is entry k of column i's feature row |
| NodeBipartite.ColFeatOneHot | libecole/src/observation/nodebipartite.cpp:52-57 | in the matrix, column i's basis-status block has a one exactly at its basis status and zeros elsewhere; the variable-type block has a one exactly at its type and zeros elsewhere |
| NodeBipartite.ColFeatBlocksSumToOne | libecole/src/observation/nodebipartite.cpp:52-57 | in the matrix, every entry of column i's two one-hot blocks is finite, and each block sums to exactly one |
| NodeBipartite.SideCount | libecole/src/observation/nodebipartite.cpp:74-75 | a row counts at most twice, and not at all exactly when it has neither side; lines 104-105 write one feature row per counted side |
| NodeBipartite.NIneqRows | libecole/src/observation/nodebipartite.cpp:71-78 | the count of inequality rows, one per present side, is at most twice the number of LP rows |
| NodeBipartite.NIneqRowsZero | libecole/src/observation/nodebipartite.cpp:71-78 | the count is zero exactly when no LP row has a finite side |
| NodeBipartite.Sign | libecole/src/observation/nodebipartite.cpp:87 | the sign is -1 for the left-hand side and +1 for the right-hand side |
| NodeBipartite.SideFeatures | libecole/src/observation/nodebipartite.cpp:86-98 | a side's feature row has n_row_feat entries |
| NodeBipartite.SideLayout | libecole/src/observation/nodebipartite.cpp:86-98 | the position of every side feature: the side's bound over the row norm, its at-bound flag, the age over n_lps + 5, the cosine similarity negated for the lhs and kept for the rhs, and the dual value with the same sign over the row norm times the objective norm |
| NodeBipartite.RowFeatures | libecole/src/observation/nodebipartite.cpp:104-105 | an LP row has one feature row per present side; a row with neither side gives none; the lhs row comes first and the rhs row last |
| NodeBipartite.RowFeatData | libecole/src/observation/nodebipartite.cpp:101-106 | the concatenated feature rows have n_row_feat entries per counted side |
| NodeBipartite.RowFeat | libecole/src/observation/nodebipartite.cpp:81 | the row-feature matrix is well shaped, with get_n_ineq_rows rows and n_row_feat columns |
| NodeBipartite.NIneqRowsAppend | libecole/src/observation/nodebipartite.cpp:71-78 | the count of inequality rows is additive over a split of the LP rows |
| NodeBipartite.RowFeatDataAppend | libecole/src/observation/nodebipartite.cpp:101-106 | the row data of a split of the LP rows is the concatenation of the two parts' data |
| NodeBipartite.RowFeatDataAt | libecole/src/observation/nodebipartite.cpp:101-106 | LP row i owns the block that starts after the feature rows of the rows before it, and that block holds its lhs row and then its rhs row |
| NodeBipartite.RowsPrefixStep | libecole/src/observation/nodebipartite.cpp:73-76 | each LP row adds its number of present sides to the count and its feature rows to the data, and the count of a prefix never exceeds the total |
| NodeBipartite.MirroredSides | libecole/src/observation/nodebipartite.cpp:87-98 | for a two-sided row, the lhs and rhs rows have opposite signed cosine similarity, opposite dual entries when the row norm is nonzero, and equal ages |
| NodeBipartite.RowFeatTwoSided | libecole/src/observation/nodebipartite.cpp:101-106 | in the matrix, a two-sided LP row's lhs feature row starts after the feature rows of the rows before it, and its rhs feature row follows right after |
| NodeBipartite.MirroredBlock | libecole/src/observation/nodebipartite.cpp:87-98 | a block holding a two-sided row's lhs feature row and then its rhs one has equal ages, the cosine similarity and the dual negated in the lhs row and kept in the rhs row, and, for a nonzero row norm, finite duals of opposite values |
| NodeBipartite.RowFeatMirrored | libecole/src/observation/nodebipartite.cpp:87-105 | in the matrix, a two-sided LP row's lhs and rhs feature rows are adjacent, lhs first, with equal ages, the cosine similarity and the dual negated in the lhs row and kept in the rhs row, and, for a nonzero row norm, finite duals of opposite values |
| NodeBipartite.NonFiniteOnlyFromRowNorm | libecole/src/observation/nodebipartite.cpp:90-98 | the bound and dual entries of a side are finite exactly when the row norm is nonzero; the objective norm never makes an entry non-finite |
| NodeBipartite.TwoSidedRowExample | libecole/src/observation/nodebipartite.cpp:86-105 | a row with lhs 1, rhs 5 and norm 2 gives two feature rows, 0.5 first and then 2.5, the lhs row holding the negated cosine similarity and the rhs row the cosine similarity itself |
| NodeBipartite.ExtractColFeat | libecole/src/observation/nodebipartite.cpp:31-64 | filling zeroed storage column by column through the cursor yields exactly the column-feature matrix; the body asserts, and the proof confirms, that the cursor ends at the matrix size |
| NodeBipartite.ExtractColumn | libecole/src/observation/nodebipartite.cpp:38-57 | writing one column at the cursor of zeroed storage sets exactly the next n_col_feat entries to the column's feature row, advances the cursor by that width and leaves every other entry unchanged |
| NodeBipartite.ExtractColumnBounds | libecole/src/observation/nodebipartite.cpp:40-44 | the first five writes put the bound flags, the normalised costs and the primal value at the cursor and touch nothing else |
| NodeBipartite.ExtractColumnStatus | libecole/src/observation/nodebipartite.cpp:45-51 | the next four writes put the fractionality (0 for a continuous variable), the bound-status flags and the age and touch nothing else |
| NodeBipartite.ExtractColumnStats | libecole/src/observation/nodebipartite.cpp:54-55 | the best and average solution values, or NaN, go at the cursor and nothing else changes |
| NodeBipartite.SetOneHot | libecole/src/observation/nodebipartite.cpp:52-53 | on zeroed storage, setting the entry at the enumerator's offset and skipping the block's width leaves exactly a one-hot block at the cursor |
| NodeBipartite.GetNIneqRows | libecole/src/observation/nodebipartite.cpp:71-78 | the loop counts one for every present rhs and one for every present lhs |
| NodeBipartite.ExtractRow | libecole/src/observation/nodebipartite.cpp:86-99 | writing one side at the cursor sets exactly the next n_row_feat entries to that side's feature row, advances the cursor by that width and leaves every other entry unchanged |
| NodeBipartite.ExtractRowBound | libecole/src/observation/nodebipartite.cpp:89-95 | the chosen side's bound over the row norm and its at-bound flag go at the cursor and nothing else changes |
| NodeBipartite.ExtractRowScores | libecole/src/observation/nodebipartite.cpp:96-98 | the age, the signed cosine similarity and the signed dual over both norms go at the cursor and nothing else changes |
| NodeBipartite.ExtractRowSides | libecole/src/observation/nodebipartite.cpp:104-105 | one LP row's pass writes its lhs feature row if present and then its rhs feature row if present, advances the cursor by that many rows and leaves every other entry unchanged |
| NodeBipartite.ExtractRowFeat | libecole/src/observation/nodebipartite.cpp:80-114 | filling storage sized by the side count, with each row's lhs and then its rhs, yields exactly the row-feature matrix; the body asserts, and the proof confirms, that the cursor ends at the matrix size |
| NodeBipartite.Observation | libecole/src/observation/nodebipartite.cpp:116-122 | the observation triple: both feature matrices well shaped with their row and column counts, and the LP matrix passed through unchanged |
| NodeBipartite.Get | libecole/src/observation/nodebipartite.cpp:116-122 | the observation is the triple of the column features, the row features and the LP matrix unchanged, with both feature matrices well shaped |
| Observation.ApplyEach | python/src/ecole/observation.py:13-18 | one result per packed function, the i-th being the i-th function's result: its observation in `obtain_observation`, its reset state in `reset` |
| Observation.Names | python/src/ecole/observation.py:37 | the names of a dict's entries in insertion order |
| Observation.Values | python/src/ecole/observation.py:30 | the values of a dict's entries in insertion order |
| Observation.DictObservations | python/src/ecole/observation.py:35-38 | the dict's keys are exactly the stored names, and with distinct names each name maps to the observation of its own function |
| Observation.DictObservationsSize | python/src/ecole/observation.py:35-38 | with distinct names the dict has exactly one entry per stored function |
| Observation.DictMatchesTuple | python/src/ecole/observation.py:16-18 | with distinct names, the dict has as many entries as the tuple of the same functions, and it maps the i-th name to the i-th tuple entry |
| Observation.TupleFunction.constructor | python/src/ecole/observation.py:7-9 | the positional functions are stored unchanged and nothing has been reset yet |
| Observation.TupleFunction.Reset | python/src/ecole/observation.py:11-14 | every packed function is reset for the model, each exactly once and in stored order, and nothing else changes |
| Observation.TupleFunction.ObtainObservation | python/src/ecole/observation.py:16-18 | the tuple has one entry per packed function, in positional order |
| Observation.DictFunction.constructor | python/src/ecole/observation.py:24-26 | the keyword functions are stored unchanged with distinct names, and nothing has been reset yet |
| Observation.DictFunction.Reset | python/src/ecole/observation.py:28-31 | every packed function is reset for the model, each exactly once and in insertion order; the names and their order stay as they were |
| Observation.DictFunction.ObtainObservation | python/src/ecole/observation.py:33-38 | the dict has one entry per packed function, its keys are exactly the stored names, and each name maps to its own function's observation |

## Left out

- Solver queries are inputs. `SCIPgetObjNorm`, `SCIPgetNLPs` and the column, row and variable proxy accessors become fields of the `Lp`, `Column` and `Row` records. The values are those the accessors return at the decision point.
- The LP matrix (`lp_matrix()`) is an uninterpreted value of type parameter `M`. It is passed through and never inspected.
- Floating point: entries are exact reals, not doubles. Rounding and the conversion of counts to double are not modelled. Non-finite results are tagged as NaN or a signed infinity.
  - The quotient assumes the divisor is never a negative zero. This holds because it is a row norm or a product of norms.
- Storage: the xtensor buffer and its iterator are a `seq<Feature>` and a `nat` cursor. Each `*(iter++) = v` is a sequence update at the cursor followed by an increment.
  - The model does not capture in-place mutation of a shared buffer or aliasing of the iterator.
  - The per-column and per-side writes are grouped into helper methods that each write one run of entries.
- Integer widths: `std::size_t` and the enum casts are unbounded naturals. The counts involved are far below any wrap-around.
- The widths of the one-hot blocks follow SCIP's own enumerations. `SCIP_VARTYPE` and `SCIP_BASESTAT` each have four enumerators, so a column row has 19 entries. Some descriptions of this observation count five basis statuses; the model follows the code, which takes the size from SCIP's enumeration. The `scip::enum_size` trait itself is not part of this model.
- The C++ `assert`s on the number of elements written are not runtime checks here. The extractor methods prove them.
- `NodeBipartite::clone`: copying the function object carries no behaviour worth modelling.
- `focusnode.hpp`, `variable.hpp`, `learn2branch.hpp` and the reward tests are not part of this model. They are declarations, the solver driver and tests of other components.
- Python combinators:
  - Observation functions are values of type `F`. Their own `reset` is a function from old state to new state, and their `obtain_observation` is a pure function of the function and the model.
  - A packed function whose `obtain_observation` changes its own state is not modelled.
  - Passing the same object twice, which would reset it twice, is not modelled.
- Observation.TupleFunction.Reset, Observation.DictFunction.Reset: the order of the `reset` calls is recorded only by the ghost trace `resetLog`, which the loop itself extends. Under value semantics nothing else can observe call order, so the contracts do not tie the trace to the calls.
- Observation.DictFunction.ObtainObservation: the result is a `map`, which has no order. The insertion (keyword) order that the Python result dict keeps is not captured; only the keys and their values are.
- Python tuples and dicts: a tuple is a `seq`, and the stored keyword dict is a sequence of (name, function) pairs in insertion order. Keyword arguments cannot repeat a name, so the `DictFunction` constructor requires distinct names.
