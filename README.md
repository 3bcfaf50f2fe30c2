# rapaio core, modelled in Dafny

This project models several self-contained algorithms of the rapaio Java
machine-learning library, with `double` arithmetic taken as exact `real`
arithmetic:

- **LU decomposition with partial pivoting** (`LUDecomposition`, modules `LU`
  and `Substitution`). The left-looking Crout/Doolittle elimination produces a
  packed `LU` matrix, a pivot vector `piv` and its sign `pivsign`. The
  accessors `getL`/`getU`/`getPivot`/`getDoublePivot`, `isNonsingular`, `det`
  and `solve` are built on it. The main theorem is `A(piv,:) = L·U`. For
  square nonsingular `A`, `solve` returns an X with `A·X = B`.
- **Confusion matrix** (`Confusion`, module `Eval`). Validation of the two
  nominal variables; counting of complete rows into `cmf`; the trace,
  accuracy, error and binary precision/recall/F1; and the row, column and
  grand totals of the matrix.
- **In-place vector arithmetic** (the default methods of `RV`, module
  `Linear`) over an array-backed vector.
- **Standard column selector** (`StdColSelector`, module `ColSelect`). A
  two-cursor walk that keeps every column outside an exclusion list.
- **Intercept filter** (`FFAddIntercept`, module `Formula`). Prepends a
  column of ones named `intercept` unless the frame already starts with one.
- **Random-forest bookkeeping** (`CForest`, modules `Forest` and
  `Densities`). The bootstrap train/out-of-bag partition for a given sample,
  the run counting of `learn`/`learnFurther`, and the VOTING and
  DISTRIBUTION_SUM density accumulation.
- **Bagging modes** (`BaggingMode`, module `Bagging`): VOTING and
  DISTRIBUTION.
- **L2 boosting loss** (`L2BoostingLossFunction`, module `Boost`): residuals
  and their mean.
- **Regression-tree node** (`RTreeNode`, module `RTree`): node state, setters
  and the recursive boosting update of leaf values.

Modules `Wrappers` (Option/Result/Outcome), `Sums` (finite sums and their
algebra) and `Matrices` (matrices as sequences of rows, product,
associativity, row permutation) are shared support.

Collaborators whose code is not part of this model become parameters:

- the density vector's best index and normalization;
- the weak learner of the forest (as `build: nat -> WeakFit<M>`);
- the regression loss's `findMinimum`;
- the tree splitter.

Only their stated contracts are relied on, as preconditions such as
`PicksLabel`, `KeepsLength` and `SplitsRows`.

## Model

| member | source | states |
|---|---|---|
| LU.Identity | src/rapaio/data/matrix/LUDecomposition.java:81-84 | the initial pivot vector has length m and entry i equal to i |
| LU.IdentityCount | src/rapaio/data/matrix/LUDecomposition.java:81-84 | the initial pivot vector holds every value below m exactly once and nothing else |
| LU.PermutationFacts | src/rapaio/data/matrix/LUDecomposition.java:81-84 | a permutation of 0..m-1 has length m, entries below m, every value present, no value twice |
| LU.SwapKeepsPermutation | src/rapaio/data/matrix/LUDecomposition.java:124-126 | swapping two entries of a permutation leaves a permutation |
| LU.RecordSwap | src/rapaio/data/matrix/LUDecomposition.java:118-128 | after an exchange, piv is still the identity with the recorded swaps applied, still a permutation, and the sign of the swap count flips |
| LU.FindPivot | src/rapaio/data/matrix/LUDecomposition.java:112-117 | the pivot is in j..m-1, has maximal absolute value there, and every earlier index in j..p-1 is strictly smaller (the first maximum) |
| LU.ExchangeRows | src/rapaio/data/matrix/LUDecomposition.java:118-123 | rows p and j are swapped across all n columns, every other row is unchanged |
| LU.ExchangeKeeps | src/rapaio/data/matrix/LUDecomposition.java:118-128 | exchanging rows p and j of LU and the same two piv entries keeps the reconstruction A(piv,:) of the finished columns and the bounded multipliers |
| LU.ReduceColumn | src/rapaio/data/matrix/LUDecomposition.java:93-109 | column j of each row i loses the dot product of the first min(i, j) entries of row i and column j; nothing outside column j changes |
| LU.ScaleBelowPivot | src/rapaio/data/matrix/LUDecomposition.java:131-135 | with a non-zero pivot, the entries below the diagonal of column j are divided by it and nothing else changes |
| LU.FinishColumn | src/rapaio/data/matrix/LUDecomposition.java:130-135 | after scaling, column j of A(piv,:) is reconstructed from L·U and its multipliers are at most 1 in absolute value |
| LU.PivotColumn | src/rapaio/data/matrix/LUDecomposition.java:111-128 | after pivot search and exchange, piv stays a permutation built by the recorded swaps, pivsign is (-1)^swaps, and the pivot dominates column j below the diagonal |
| LU.Decompose | src/rapaio/data/matrix/LUDecomposition.java:75-137 | for m >= n: piv is a permutation obtained from the identity by at most n swaps, pivsign is (-1)^swaps, every entry of A(piv,:) is reconstructed from the packed factors, and all multipliers are at most 1 in absolute value |
| LU.ReconIsProduct | src/rapaio/data/matrix/LUDecomposition.java:190-219 | entry (i, c) of getL()·getU() is the packed reconstruction of that entry |
| LU.LUTheorem | src/rapaio/data/matrix/LUDecomposition.java:75-137 | L·U, with L and U as getL and getU (lines 190-219) build them, equals A with its rows permuted by piv |
| LU.LFactor | src/rapaio/data/matrix/LUDecomposition.java:190-202 | L is m-by-n |
| LU.UFactor | src/rapaio/data/matrix/LUDecomposition.java:209-219 | U is n-by-n |
| LU.DiagProductZero | src/rapaio/data/matrix/LUDecomposition.java:255-258 | the product of the first k diagonal entries is 0 exactly when one of them is 0 |
| LU.DetVanishes | src/rapaio/data/matrix/LUDecomposition.java:251-260 | the determinant is 0 exactly when the decomposition is singular, whatever the sign |
| LU.SubstitutionSolves | src/rapaio/data/matrix/LUDecomposition.java:282-300 | the forward and back solves give an X with L·U·X = B(piv,:) on the first n rows |
| LU.SolvesSystem | src/rapaio/data/matrix/LUDecomposition.java:270-302 | for square A with A(piv,:) = L·U, an X with L·U·X = B(piv,:) satisfies A·X = B |
| LU.LUDecomposition.constructor | src/rapaio/data/matrix/LUDecomposition.java:75-137 | the object holds A, its shape and the decomposition invariant A(piv,:) = L·U, with bounded multipliers |
| LU.LUDecomposition.IsNonsingular | src/rapaio/data/matrix/LUDecomposition.java:176-183 | true exactly when LU[j][j] != 0 for every j < n |
| LU.LUDecomposition.GetL | src/rapaio/data/matrix/LUDecomposition.java:190-202 | returns the m-by-n unit lower triangular factor: 1 on the diagonal, LU below, 0 above |
| LU.LUDecomposition.GetU | src/rapaio/data/matrix/LUDecomposition.java:209-219 | returns the n-by-n upper triangular factor: LU on and above the diagonal, 0 below |
| LU.LUDecomposition.GetPivot | src/rapaio/data/matrix/LUDecomposition.java:226-230 | returns a copy of piv |
| LU.LUDecomposition.GetDoublePivot | src/rapaio/data/matrix/LUDecomposition.java:237-243 | returns piv converted entry by entry to reals |
| LU.LUDecomposition.Det | src/rapaio/data/matrix/LUDecomposition.java:251-260 | fails (not square) when m != n, and otherwise returns pivsign times the product of the diagonal |
| LU.LUDecomposition.Solve | src/rapaio/data/matrix/LUDecomposition.java:270-302 | fails with a row mismatch, else fails when singular, else returns an m-by-nx X solving L·U·X = B(piv,:) (rows n.. are copied from B(piv,:)); when square, A·X = B |
| Substitution.ForwardSubstitute | src/rapaio/data/matrix/LUDecomposition.java:282-289 | each of the first n rows of Y is B(piv,:) minus the strictly lower part of LU applied to Y; later rows are untouched |
| Substitution.BackSubstitute | src/rapaio/data/matrix/LUDecomposition.java:290-300 | each of the first n rows of X solves the upper triangular system U·X = Y; later rows are untouched |
| Eval.Validate | src/rapaio/ml/eval/Confusion.java:85-103 | passes exactly when both vars are nominal with the same levels in the same order; otherwise reports the first failing check in source order |
| Eval.From | src/rapaio/ml/eval/Confusion.java:46-52 | fails exactly when validation fails, with the same error; otherwise returns a counted matrix over the two vars |
| Eval.Confusion.constructor | src/rapaio/ml/eval/Confusion.java:74-83 | factors are the actual levels, cmf is (levels-1)×(levels-1), binary holds exactly with 3 levels, and all counts and scores are computed |
| Eval.Confusion.CountRows | src/rapaio/ml/eval/Confusion.java:106-111 | each cell (r, c) counts the rows with actual index r+1 and predicted index c+1, and completeCases counts the rows with both indexes non-zero |
| Eval.Confusion.DiagonalSum | src/rapaio/ml/eval/Confusion.java:112 | the diagonal sum is the number of complete rows whose prediction agrees |
| Eval.Confusion.Derive | src/rapaio/ml/eval/Confusion.java:112-133 | accepted cases are the trace, error cases are complete minus accepted, accuracy is accepted/complete (0 without complete cases), and in the binary case precision, recall and F1 come from cells (0,0), (1,0), (0,1) |
| Eval.Confusion.DeriveCounts | src/rapaio/ml/eval/Confusion.java:112-120 | accepted cases are the trace of the counts, error cases the complete count less them, and accuracy their ratio (0 without complete cases) |
| Eval.Confusion.DeriveScores | src/rapaio/ml/eval/Confusion.java:121-133 | with two labels, F1, precision and recall are the ratios of cells (0,0), (1,0), (0,1); otherwise the scores are left as they were |
| Eval.Confusion.Compute | src/rapaio/ml/eval/Confusion.java:105-134 | from a fresh zero matrix, establishes the counts and every derived quantity |
| Eval.Confusion.Accuracy | src/rapaio/ml/eval/Confusion.java:265-267 | the accuracy lies in [0, 1], is 0 without complete cases, and otherwise times the complete count gives the agreeing rows |
| Eval.Confusion.Error | src/rapaio/ml/eval/Confusion.java:269-271 | the error is 1 - accuracy, lies in [0, 1], and with complete cases it is 0 exactly when every complete row agrees |
| Eval.Confusion.AcceptedCases | src/rapaio/ml/eval/Confusion.java:276-278 | the number of complete rows whose prediction agrees, at most the complete cases |
| Eval.Confusion.ErrorCases | src/rapaio/ml/eval/Confusion.java:283-285 | the number of complete rows whose prediction disagrees; accepted plus error cases is the complete count |
| Eval.Confusion.CompleteCases | src/rapaio/ml/eval/Confusion.java:287-289 | the number of rows with both indexes non-zero, at most the row count |
| Eval.Confusion.AddRow | src/rapaio/ml/eval/Confusion.java:194-201 | one pass of the inner loop adds row i of cmf to rowTotals[i], each of its cells to colTotals, and the row's sum to grandTotal |
| Eval.Confusion.Totals | src/rapaio/ml/eval/Confusion.java:190-201 | rowTotals[r] is the number of complete rows with actual label r, colTotals[c] the number with predicted label c, and grandTotal equals completeCases |
| Eval.ReadyInRange | src/rapaio/ml/eval/Confusion.java:107-109 | for a validated pair every complete row lands in a cell inside cmf |
| Eval.RowTotalIsActualCount | src/rapaio/ml/eval/Confusion.java:198 | the sum of row r of the counts is the number of complete rows with actual label r |
| Eval.ColTotalIsPredictCount | src/rapaio/ml/eval/Confusion.java:199 | the sum of column c of the counts is the number of complete rows with predicted label c |
| Eval.ActualCountsSum | src/rapaio/ml/eval/Confusion.java:106-111 | the per-label actual counts add up to the complete count |
| Eval.GrandTotalIsComplete | src/rapaio/ml/eval/Confusion.java:106-111 | the sum of all cells equals the complete count |
| Eval.TraceIsAgreement | src/rapaio/ml/eval/Confusion.java:112-113 | the trace of the counts is the number of complete rows whose prediction agrees |
| Eval.CountsSplit | src/rapaio/ml/eval/Confusion.java:113-114 | agreeing plus disagreeing rows make the complete rows, and 0 <= agree <= complete <= rows |
| Eval.AccuracyBounds | src/rapaio/ml/eval/Confusion.java:116-120 | accuracy lies in [0, 1], times the complete count gives the accepted count, and is 1 exactly when all complete rows agree |
| Eval.RatioBounds | src/rapaio/ml/eval/Confusion.java:129-131 | a ratio part/(part+rest) of counts is undefined exactly when both are 0, and otherwise lies in [0, 1] |
| Eval.F1IsHarmonicMean | src/rapaio/ml/eval/Confusion.java:129-131 | with tp > 0, precision, recall and F1 are defined and F1 = 2·precision·recall/(precision+recall) |
| Linear.Vector.PlusScalar | src/main/java/rapaio/math/linear/RV.java:53-58 | adds x to every element in place and returns the same vector |
| Linear.Vector.PlusVector | src/main/java/rapaio/math/linear/RV.java:60-68 | fails (not conform) and changes nothing when counts differ; otherwise element i becomes old_i + B_i (also when B is this vector) and B is untouched otherwise |
| Linear.Vector.MinusScalar | src/main/java/rapaio/math/linear/RV.java:70-72 | behaves as PlusScalar(-x) |
| Linear.Vector.MinusVector | src/main/java/rapaio/math/linear/RV.java:74-82 | fails and changes nothing when counts differ; otherwise element i becomes old_i - B_i |
| Linear.Vector.DotProd | src/main/java/rapaio/math/linear/RV.java:97-104 | fails (index out of range) exactly when counts differ; otherwise returns the sum of element products |
| Linear.Vector.AsMatrix | src/main/java/rapaio/math/linear/RV.java:125-131 | a new count-by-1 matrix with (i, 0) = element i |
| Linear.Vector.AsMatrixT | src/main/java/rapaio/math/linear/RV.java:133-139 | a new 1-by-count matrix with (0, i) = element i |
| Linear.AddScalarCancels | src/main/java/rapaio/math/linear/RV.java:53-72 | adding x then subtracting x restores the values |
| Linear.AddThenSubRestores | src/main/java/rapaio/math/linear/RV.java:60-82 | adding B then subtracting B restores the values |
| Linear.DotSymmetric | src/main/java/rapaio/math/linear/RV.java:97-104 | the dot product is symmetric |
| Linear.DotAddLeft | src/main/java/rapaio/math/linear/RV.java:97-104 | the dot product distributes over element-wise addition |
| Linear.PlusMinusRestores | src/main/java/rapaio/math/linear/RV.java:60-82 | on distinct vectors, plus(B) followed by minus(B) restores the vector, and both succeed exactly when counts agree |
| ColSelect.StdColSelector.constructor | src/rapaio/ml/classifier/colselect/StdColSelector.java:34 | a new selector has no selection (null) until initialized |
| ColSelect.StdColSelector.Initialize | src/rapaio/ml/classifier/colselect/StdColSelector.java:42-55 | more excluded indexes than columns fail before allocation; a walk that runs out of room fails; otherwise the selection holds as many names as there are columns less excluded indexes, exactly the columns the cursor walk keeps, in order |
| ColSelect.StdColSelector.Walk | src/rapaio/ml/classifier/colselect/StdColSelector.java:46-54 | succeeds exactly when the cursor walk fits the allocated selection, and then fills it with exactly the kept columns in order |
| ColSelect.StdColSelector.NextColNames | src/rapaio/ml/classifier/colselect/StdColSelector.java:57-60 | returns the selection built by the latest initialization, null before the first |
| ColSelect.KeptLength | src/rapaio/ml/classifier/colselect/StdColSelector.java:48-54 | the exclusion cursor stays within the list and the columns seen, and the kept count is i minus the cursor |
| ColSelect.NothingExcluded | src/rapaio/ml/classifier/colselect/StdColSelector.java:44-54 | with no exclusion every column is kept, in order |
| ColSelect.CursorSplits | src/rapaio/ml/classifier/colselect/StdColSelector.java:48-52 | on an ascending exclusion list the cursor before column i separates indexes below i from the rest |
| ColSelect.MemberAtSplit | src/rapaio/ml/classifier/colselect/StdColSelector.java:49 | at the split point, column i is excluded exactly when the cursor points at it |
| ColSelect.SplitCounts | src/rapaio/ml/classifier/colselect/StdColSelector.java:48-52 | the split position is the number of excluded indexes below i |
| ColSelect.AscendingKeepsFilter | src/rapaio/ml/classifier/colselect/StdColSelector.java:46-54 | on an ascending, in-range exclusion list the cursor is the count of excluded indexes below i, and the kept names are exactly the non-excluded names in frame order |
| ColSelect.AscendingFits | src/rapaio/ml/classifier/colselect/StdColSelector.java:45-54 | an ascending, in-range exclusion list always fits, leaving as many names as there are columns less excluded indexes |
| ColSelect.KeptMonotone | src/rapaio/ml/classifier/colselect/StdColSelector.java:48-53 | the cursor advances at most one step per column, so an overflowing walk cannot match the whole list |
| Formula.Apply | src/rapaio/data/formula/FFAddIntercept.java:45-60 | the column-by-column loop builds exactly the frame the filter specifies (the failure, the unchanged frame or the prepended intercept) |
| Formula.FailsOnlyWithoutColumns | src/rapaio/data/formula/FFAddIntercept.java:46 | the filter fails exactly on a frame without columns |
| Formula.InterceptPrepended | src/rapaio/data/formula/FFAddIntercept.java:49-59 | otherwise the result has one more column; the first is named intercept with rowCount ones, and the others are the originals with their names, in order, over the same rows |
| Formula.InterceptKept | src/rapaio/data/formula/FFAddIntercept.java:46-48 | a frame already starting with intercept is returned unchanged |
| Formula.Idempotent | src/rapaio/data/formula/FFAddIntercept.java:36-60 | applying the filter twice equals applying it once |
| Forest.AbsentRows | src/rapaio/ml/classifier/tree/CForest.java:184-188 | the out-of-bag rows are ascending, below n, and are exactly the rows the sample misses |
| Forest.SamplePartitions | src/rapaio/ml/classifier/tree/CForest.java:178-188 | the sampled rows and the out-of-bag rows are disjoint and together are all rows |
| Forest.ProduceSamples | src/rapaio/ml/classifier/tree/CForest.java:156-194 | without sampling, all rows in order with the original weights and an empty out-of-bag part; with sampling, the sample in order (duplicates kept) with its weights, then the absent rows ascending with theirs |
| Forest.DrawTrain | src/rapaio/ml/classifier/tree/CForest.java:178-183 | the train rows are the sample, their weights are looked up by row, and the row set holds exactly the sampled rows |
| Forest.CollectOob | src/rapaio/ml/classifier/tree/CForest.java:184-188 | collects the rows absent from the sample, ascending, with their weights |
| Forest.CForest.constructor | src/rapaio/ml/classifier/tree/CForest.java:50-57 | a new forest has no predictors, zero oob totals and an undefined oob error |
| Forest.CForest.WithRuns | src/rapaio/ml/classifier/tree/CForest.java:110-113 | sets runs |
| Forest.CForest.WithOobError | src/rapaio/ml/classifier/tree/CForest.java:116-119 | sets oobCompute |
| Forest.CForest.BuildWeakPredictor | src/rapaio/ml/classifier/tree/CForest.java:237-252 | appends the next weak model; when oobCompute, adds its out-of-bag rows and error to the totals |
| Forest.CForest.BuildUpTo | src/rapaio/ml/classifier/tree/CForest.java:232-234 | builds predictors until there are runs of them, keeping earlier ones, and sums their oob contributions |
| Forest.CForest.Learn | src/rapaio/ml/classifier/tree/CForest.java:197-219 | fails and changes nothing without exactly one target; otherwise restarts predictors and totals, builds runs predictors, and sets the oob error to total error / total rows when oobCompute |
| Forest.CForest.LearnFurther | src/rapaio/ml/classifier/tree/CForest.java:222-235 | on a learned forest adds additionalRuns to runs and appends predictors until there are runs of them, extending the out-of-bag totals and keeping target, dictionary and oobError; on an unlearned one sets runs to additionalRuns and then behaves as learn: without a single target it fails with every other field kept, otherwise it records target and dictionary, rebuilds runs predictors from zeroed out-of-bag totals and, when out-of-bag scoring is on, sets oobError to their average |
| Forest.OobStep | src/rapaio/ml/classifier/tree/CForest.java:246-250 | one more run adds its oob rows and error to the totals exactly when oobCompute |
| Forest.PredictorsPerRun | src/rapaio/ml/classifier/tree/CForest.java:207-214 | learning builds max(runs, 0) predictors, the k-th from run k |
| Forest.AssignClasses | src/rapaio/ml/classifier/tree/CForest.java:299-305 | each row's class is the best index of its final density row |
| Forest.Voting | src/rapaio/ml/classifier/tree/CForest.java:286-307 | each cell gains the number of trees whose best label for that row is the cell's label, and each class is the best index of its row |
| Forest.DistributionSum | src/rapaio/ml/classifier/tree/CForest.java:308-326 | each cell gains the sum over trees of their density there, and each class is the best index of its row |
| Densities.OneVotePerRow | src/rapaio/ml/classifier/tree/CForest.java:295-296 | across all labels a tree casts exactly one vote for each of its rows, none for rows it lacks |
| Densities.VotesPerRow | src/rapaio/ml/classifier/tree/CForest.java:289-298 | across all labels, the votes of t trees in a row are the number of those trees that have the row |
| Densities.SharesSumToOne | src/rapaio/ml/classifier/ensemble/impl/BaggingMode.java:76-84 | a tree row divided by its non-zero total sums to 1 |
| Densities.SharesPerRow | src/rapaio/ml/classifier/ensemble/impl/BaggingMode.java:75-85 | across all labels, the shares of t trees in a row sum to t |
| Densities.ReadRow | src/rapaio/ml/classifier/ensemble/impl/BaggingMode.java:87-90 | reads row i of the table as a density vector |
| Densities.AddToRow | src/rapaio/ml/classifier/ensemble/impl/BaggingMode.java:81-83 | adds a vector to row i, leaving every other cell |
| Densities.WriteRow | src/rapaio/ml/classifier/ensemble/impl/BaggingMode.java:60-62 | overwrites cells from.. of row i, leaving every other cell |
| Densities.AddVotes | src/rapaio/ml/classifier/tree/CForest.java:290-297 | one tree adds 1 to each of its rows in the cell of its vote |
| Densities.AddDensities | src/rapaio/ml/classifier/tree/CForest.java:312-316 | one tree adds its density matrix to the table |
| Densities.AddAllVotes | src/rapaio/ml/classifier/tree/CForest.java:289-298 | all trees' votes are added to the table |
| Densities.AddAllDensities | src/rapaio/ml/classifier/tree/CForest.java:311-317 | all trees' densities are added to the table |
| Bagging.TailVotePicks | src/rapaio/ml/classifier/ensemble/impl/BaggingMode.java:46-50 | the best index of a density vector built from labels 1.. is a label of the table |
| Bagging.ZeroTable | src/rapaio/ml/classifier/ensemble/impl/BaggingMode.java:70-74 | every cell becomes 0 |
| Bagging.RowTotalOf | src/rapaio/ml/classifier/ensemble/impl/BaggingMode.java:77-80 | the row total t is the sum of the tree's row |
| Bagging.AddShares | src/rapaio/ml/classifier/ensemble/impl/BaggingMode.java:76-84 | one tree adds each of its rows divided by the row total |
| Bagging.AddAllShares | src/rapaio/ml/classifier/ensemble/impl/BaggingMode.java:75-85 | all trees' shares are added to the table |
| Bagging.FinishRows | src/rapaio/ml/classifier/ensemble/impl/BaggingMode.java:54-64 | each row below the class count is rebuilt as a density vector (labels 1.. only for VOTING), normalized, written back to the cells it came from, and its class is the best index of the normalized vector; other cells are unchanged |
| Bagging.Voting | src/rapaio/ml/classifier/ensemble/impl/BaggingMode.java:43-65 | cells gain one vote per tree at the best of labels 1..; then columns 1.. of each classified row hold the normalized votes, column 0 keeps its count, and the class is the best normalized label |
| Bagging.Distribution | src/rapaio/ml/classifier/ensemble/impl/BaggingMode.java:69-97 | the table restarts at 0 and sums every tree's shares; each classified row is replaced by its normalization and gets its best label |
| Bagging.SharedRowSumsToTrees | src/rapaio/ml/classifier/ensemble/impl/BaggingMode.java:70-85 | before normalization every DISTRIBUTION row sums to the number of trees |
| Bagging.VotedRowGainsOnePerTree | src/rapaio/ml/classifier/ensemble/impl/BaggingMode.java:44-53 | before normalization a VOTING row gains exactly one per tree that has the row |
| Boost.Gradient | src/rapaio/ml/refactor/boost/gbt/L2BoostingLossFunction.java:38-44 | a new vector of one residual per row of y, element i being y[i] - fx[i] |
| Boost.FindMinimum | src/rapaio/ml/refactor/boost/gbt/L2BoostingLossFunction.java:33-35 | the mean of the residuals, undefined exactly when y is empty |
| Boost.TotalOfResiduals | src/rapaio/ml/refactor/boost/gbt/L2BoostingLossFunction.java:38-44 | the residuals total the total of y less that of the matching fitted values |
| Boost.MinimumIsDifferenceOfMeans | src/rapaio/ml/refactor/boost/gbt/L2BoostingLossFunction.java:33-35 | for equal non-empty lengths, the best constant is mean(y) - mean(fx) |
| Boost.PerfectFit | src/rapaio/ml/refactor/boost/gbt/L2BoostingLossFunction.java:33-44 | when fx equals y every residual and the best constant are 0 |
| RTree.MapRows | src/rapaio/ml/regression/tree/rtree/RTreeNode.java:138-142 | the rows selected by a mapping, in mapping order |
| RTree.PredicatesOf | src/rapaio/ml/regression/tree/rtree/RTreeNode.java:130-133 | the children's predicates in children order |
| RTree.RTreeNode.constructor | src/rapaio/ml/regression/tree/rtree/RTreeNode.java:47-66 | a new node keeps its id, parent, group name, predicate and depth, and is a leaf without children |
| RTree.RTreeNode.SetLeaf | src/rapaio/ml/regression/tree/rtree/RTreeNode.java:88-90 | changes only the leaf flag |
| RTree.RTreeNode.SetBestCandidate | src/rapaio/ml/regression/tree/rtree/RTreeNode.java:96-98 | changes only the best candidate |
| RTree.RTreeNode.SetValue | src/rapaio/ml/regression/tree/rtree/RTreeNode.java:108-110 | changes only the value |
| RTree.RTreeNode.SetWeight | src/rapaio/ml/regression/tree/rtree/RTreeNode.java:116-118 | changes only the weight |
| RTree.RTreeNode.AddChild | src/rapaio/ml/regression/tree/rtree/RTreeNode.java:92-94 | appending a separate subtree through the live children list keeps the node a tree |
| RTree.RTreeNode.GroupPredicates | src/rapaio/ml/regression/tree/rtree/RTreeNode.java:130-133 | collects the children's predicates in children order |
| RTree.RTreeNode.BoostUpdate | src/rapaio/ml/regression/tree/rtree/RTreeNode.java:124-144 | a leaf's value becomes findMinimum(y, fx); an internal node sends child i the rows of mapping i for its children's predicates; only leaf values change, and shape, flags, weights, candidates and internal values are kept |
| RTree.RTreeNode.BoostChildren | src/rapaio/ml/regression/tree/rtree/RTreeNode.java:137-143 | each child, in order, is refitted once to the rows of its mapping, and internal values are kept |

## Left out

- Floating point. `double` is exact `real`, so rounding, NaN and Infinity are not modelled. Where the source would produce NaN or an infinity, the model returns `None`:
  - `Eval.Precision`/`Recall`/`F1` with a zero denominator;
  - `Forest.OobAverage` with no out-of-bag rows (NaN for a zero total error, infinity for a positive one);
  - `Boost.Mean` of nothing.
- Integer width. Java `int` overflow of counters and indexes is ignored; Confusion's `double` counters, which only ever hold integers, are `int`, and `Math.rint` is the identity on them.
- LU.LUDecomposition.constructor: requires m >= n. The non-short-circuit `&` at `LUDecomposition.java:131` reads `LU[j][j]` for j = m when m < n and throws, although the documentation accepts any rectangular matrix.
- LU: the packed matrix and the right-hand side are sequence values reassigned by the loops, not arrays updated in place; aliasing of `LUrowi` with `LU[i]` is therefore not modelled.
- LU.LUDecomposition.Solve: the result has the source's m rows, of which only the first n are solved; `A·X = B` is proved for square A only, which is where the source promises it.
- Eval.From and Eval.Confusion.constructor: require well-formed nominal vars (at least the missing level, indexes within the levels) and at least as many predicted rows as actual rows. Nominal vars guarantee the first; for fewer predicted rows the source reads past the end and throws.
- Eval: the MCC and G-measure (they use `sqrt`), `summary`/`addDetails` text layout, the percent table and `matrix()` are not modelled; `Totals` models only the accumulation of `addConfusionMatrix`. In non-binary runs f1/precision/recall keep Java's default 0.
- Linear: `Vector` stands for the array-backed implementation of `RV`; `get`, `set`, `increment`, `count` are its array operations. `norm`, `normalize`, `mean`, `var`, `solidCopy`, `valueStream`, `dot` and `summary` are not part of this model.
- Linear.PlusMinusRestores: stated for two distinct vectors; for `a.plus(a).minus(a)` the source doubles, then zeroes.
- ColSelect.StdColSelector.Initialize: the exclusion list is a parameter (the VarRange parsing is unseen); `synchronized`, `name` and `toString` are left out. The source's exception for more exclusions than columns (negative array size) and for overflowing the selection are modelled as failures.
- Formula.Apply: `df.var(name)` is modelled by position; frames with duplicate column names are not distinguished.
- Forest.ProduceSamples: the sample is a parameter. The size `(int)(rowCount·sampling)` and the randomness of `DiscreteSampling.sampleWR` are not modelled; frames are modelled by their row mappings.
- Forest: the weak learner (`newInstance`, `learn`, `predict` and the oob accuracy through `ConfusionMatrix`) is the parameter `build`. Also left out:
  - the target parsing through `VarRange`;
  - the dictionary lookup;
  - `predict`'s collection of tree densities, which are passed in;
  - `withVarSelector`, `withSampling`, `withBaggingMethod`, `withClassifier`, the getters, `name`, `fullName`, `newInstance`, `buildRandomForest` and `buildSummary`.
- Densities and Bagging: `DensityVector` is modelled as a vector of its cells, with `update` adding into an initially zero vector; `findBestIndex` and `normalize` are parameters.
- Bagging.Distribution: requires every tree's density rows to have non-zero totals (the source divides by t and produces NaN otherwise), and every tree to cover every row of the table (the source throws otherwise).
- RTree.RTreeNode.BoostUpdate: requires a well-formed tree (disjoint child subtrees), y and x of equal length with fx at least as long, and a splitter that returns a mapping of in-range rows for each predicate. The loss and splitter are parameters, and frames are sequences of rows. Getters are plain field reads. `AddChild` stands for the callers' `children().add(...)` on the live list.
