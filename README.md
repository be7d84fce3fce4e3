# Sparse Munkres assignment solver

This project models the core of a sparse Hungarian (Munkres) solver. The
solver stores a cost matrix as a list of `(row, column, cost)` entries and
returns a minimum-cost assignment: at most one entry per row and per column.

Four parts of the source are modelled:

- **The matrix class** (`Matrix`).
  - It sorts the entries by row.
  - It works out the number of rows and real columns from the largest indices.
  - It appends one *filler* entry per row. The filler costs BIGVALUE and sits in a column of its own, so every row can always be matched.
  - It keeps row and column potentials that are added lazily to the stored costs, plus the cover flags.
- **The solver class** (`Munkres`). It has the six steps of the algorithm over the sets of starred and primed entry indices, and the driver loop that dispatches between them.
- **Extraction.** The driver collects the starred entries that lie in real columns.
- **The free function `munkres(entries)`.** It renumbers sparse row and column ids densely in first-seen order, solves, and maps the result back.

What is proved:

- Every step keeps the invariant that the next step relies on.
  - Potentials are feasible: every current value is at least 0.
  - Stars and primes sit on zeros.
  - The stars form a matching.
  - Covers and primes are consistent.
- The driver terminates. The measure is lexicographic: stars still to place, then primes still to place, then the step.
- At termination the stars are a minimum-cost perfect matching of the extended matrix.
  - This is a duality argument. Row and column potentials stay feasible, and every column without a star sits at the lowest column potential.
  - It carries over to the reported assignment: its cost, plus BIGVALUE for every row left unassigned, is no greater than that of any matching of real entries costed the same way.
- The reported assignment has no row or column twice and contains only input entries. A row is missing from it exactly when that row's filler is starred.
- The renumbering is a two-sided inverse between old and new ids.
  - It leaves no empty row or column.
  - Two entries share a new row or column exactly when they share the original one.
- Mapping back yields a one-to-one assignment drawn from the input.

Modules:

- `Entries` (`entry.dfy`): entry types, the row sort, dimension inference, fillers.
- `SparseMatrix` (`matrix.dfy`): class `Matrix`.
- `MunkresState` (`munkres_state.dfy`): an immutable snapshot of the solver state, the invariant each step expects, and the termination measure.
- `MunkresSteps` (`munkres_steps.dfy`): what each step does to a snapshot, and the lemmas showing the invariants are kept.
- `SetSums` (`sums.dfy`): sums over finite index sets.
- `Optimality` (`optimality.dfy`): the duality argument and the meaning of the fillers.
- `MunkresSolver` (`munkres.dfy`): class `Munkres`, its steps as methods, the driver and extraction.
- `Remap` (`remap.dfy`): the free `munkres` function.

## Model

| member | source | states |
|---|---|---|
| Entries.SortByRowCorrect | matrix.cpp:17 | sorting the input by row gives a sequence ordered by row that is a permutation of the input |
| Entries.MaxRow | matrix.cpp:20 | the largest row index of a non-empty entry list: an upper bound that some entry attains |
| Entries.MaxColumn | matrix.cpp:21 | the largest column index of a non-empty entry list: an upper bound that some entry attains |
| SparseMatrix.InRowMembers | matrix.h:33-34 | the entries of one row are exactly the values lying in that row |
| SparseMatrix.Matrix.constructor | matrix.cpp:14-41 | entries are the input sorted by row followed by one BIGVALUE filler per row in column real_columns + row; nrows and real_columns are one more than the largest indices; all potentials are 0 and no line is covered |
| SparseMatrix.Matrix.NEntries | matrix.cpp:115-117 | the number of stored entries, fillers included |
| SparseMatrix.Matrix.CurrentValue | matrix.cpp:109-113 | the entry at the same position, costing its stored cost plus its row's and its column's potential |
| SparseMatrix.Matrix.Row | matrix.cpp:50-60 | returns the current values of exactly the entries in the requested row, in storage order |
| SparseMatrix.Matrix.GetValues | matrix.cpp:62-70 | one current value per entry, at the same position, costing stored cost plus row and column potential |
| SparseMatrix.Matrix.AddToColumn | matrix.cpp:72-74 | only that column's potential changes; every current value in that column rises by the amount and no other value changes |
| SparseMatrix.Matrix.AddToRow | matrix.cpp:76-78 | only that row's potential changes; every current value in that row rises by the amount and no other value changes |
| SparseMatrix.Matrix.Zeros | matrix.cpp:80-89 | an index is returned iff its current value is zero; indices come in increasing storage order |
| SparseMatrix.Matrix.FindUncoveredZero | matrix.cpp:91-100 | the first uncovered zero in storage order, or none exactly when no uncovered zero exists |
| SparseMatrix.Matrix.MinUncoveredCost | matrix.cpp:119-130 | the smallest current value among uncovered entries when that is positive; no value exactly when nothing is uncovered or the smallest is not positive (the source's assertion) |
| MunkresSteps.RowMinIsMinimum | munkres.cpp:62-70 | the running row minimum is absent iff the row has no entry, else it is attained and bounds every entry of the row |
| MunkresSteps.RowMinFinite | matrix.cpp:23-29 | thanks to the fillers every row has a finite minimum |
| MunkresSteps.RowReduction | munkres.cpp:61-75 | subtracting each row minimum keeps potentials feasible and leaves a zero in every row |
| MunkresSteps.StarZero | munkres.cpp:92-99 | starring a zero with no star in its row or column keeps the stars a matching on zeros |
| MunkresSteps.CoverStarColumns | munkres.cpp:110-125 | after covering the starred columns the count equals the number of stars; it reaches nrows exactly when the stars are a finished perfect matching, otherwise the search may start |
| MunkresSteps.StarColumnsCount | munkres.cpp:116-119 | the number of covered columns is the number of stars when the covered columns are the starred ones |
| MunkresSteps.PrimeAndCover | munkres.cpp:154-158 | priming an uncovered zero whose row holds a star, covering that row and uncovering the star's column, keeps the search invariant |
| MunkresSteps.PrimeWithoutStar | munkres.cpp:141-156 | priming an uncovered zero in a row without a star yields the state step 5 needs |
| MunkresSteps.UncoveredEntryExists | matrix.cpp:128 | when step 6 runs some entry is uncovered, and every uncovered entry is positive, so the source's assertion holds |
| MunkresSteps.AdjustKeepsSearch | munkres.cpp:241-255 | adding the smallest uncovered value to covered rows and subtracting it from uncovered columns keeps every invariant |
| MunkresSteps.AdjustMakesZero | munkres.cpp:241-255 | the uncovered entry that held the smallest value becomes an uncovered zero |
| MunkresSteps.ChainStart | munkres.cpp:177-180 | the series starts at the last primed zero |
| MunkresSteps.ChainStep | munkres.cpp:205-216 | the row of the star found in the column of the last prime always holds a prime, so the source's assertion holds, and that prime extends the series |
| MunkresSteps.ChainDistinct | munkres.cpp:182-217 | the primes and stars of the series are pairwise distinct, and its primes lie in distinct rows |
| MunkresSteps.FlipMatching | munkres.cpp:219-228 | unstarring the series' stars and starring its primes yields a matching |
| MunkresSteps.FlipZeros | munkres.cpp:219-228 | the new stars all sit on zeros |
| MunkresSteps.FlipSize | munkres.cpp:219-229 | the new star set has exactly one more star, which bounds it by nrows as the source asserts |
| MunkresSteps.Augment | munkres.cpp:176-234 | the whole of step 5 hands step 3 a valid state with one more star |
| MunkresState.MatchingBound | munkres.cpp:101 | a matching has at most nrows entries, as the source asserts |
| MunkresState.CountTrueIsCard | munkres.cpp:116-119 | counting true flags equals the size of the set of flagged indices |
| MunkresState.BelowSize | munkres.cpp:101 | the indices below n are exactly n in number: the counting fact behind every comparison of a number of stars or primes with nrows (also munkres.cpp:120 and 229) |
| MunkresState.MatchingLines | munkres.cpp:110-120 | a matching occupies as many rows and as many columns as it has entries |
| MunkresState.Step1Progress | munkres.cpp:41-46 | step 1 followed by step 2 decreases the driver's measure |
| MunkresState.Step2Progress | munkres.cpp:41-46 | going from step 2 to step 3 decreases the measure |
| MunkresState.Step3Progress | munkres.cpp:41-46 | going from step 3 to step 4 or to the end decreases the measure |
| MunkresState.Step4Progress | munkres.cpp:41-46 | going from step 4 to step 5 or step 6 decreases the measure |
| MunkresState.Step5Progress | munkres.cpp:41-46 | going from step 5 back to step 3 decreases the measure, because one more star is placed |
| MunkresState.Step6Progress | munkres.cpp:41-46 | going from step 6 back to step 4 decreases the measure, because an uncovered zero now exists |
| MunkresState.ReadyBounds | munkres.cpp:101 | in every reachable state there are at most nrows stars and at most nrows primes |
| Optimality.StarsMinimal | munkres.cpp:41-53 | with feasible potentials, stars on zeros and every starless column at the lowest column potential, the stars cost no more than any perfect matching |
| Optimality.FinishedOptimal | munkres.cpp:41-53 | at termination the stars are a minimum-cost perfect matching of the extended matrix |
| Optimality.LevelStart | matrix.cpp:33-34 | with every column potential 0 and no stars, every column sits at the lowest potential, 0 |
| Optimality.LevelMoreStars | munkres.cpp:83-103 | starring more entries in step 2 keeps every starless column at the lowest potential |
| MunkresSteps.FlipKeepsColumns | munkres.cpp:219-228 | step 5 never frees a starred column |
| Optimality.LevelAugment | munkres.cpp:219-228 | step 5 keeps every starless column at the lowest potential |
| Optimality.LevelAdjust | munkres.cpp:241-255 | step 6 lowers every starless column by the same amount and never pushes a column below the new floor |
| Optimality.ExtendByFillers | matrix.cpp:23-29 | every matching of real entries plus the fillers of the rows it leaves out is a perfect matching costing its cost plus BIGVALUE per row left out |
| Optimality.StarsSplit | matrix.cpp:23-29 | a perfect matching costs its real part plus BIGVALUE per filler |
| Optimality.OptimalIsBest | munkres.cpp:47-53 | an optimal perfect matching restricted to real columns is the best assignment of real entries counting BIGVALUE per unassigned row |
| MunkresSolver.AssignmentDistinct | munkres.cpp:47-53 | the extracted assignment of a matching has no row and no column twice |
| MunkresSolver.AssignmentFromInput | munkres.cpp:47-53 | every extracted entry is an input entry in a real column |
| MunkresSolver.AssignmentMembers | munkres.cpp:47-53 | the extracted entries are exactly the stored entries of stars in real columns |
| MunkresSolver.FinishedRows | munkres.cpp:47-53 | a row is missing from the result exactly when its filler is starred |
| MunkresSolver.FinishedAssignment | munkres.cpp:47-53 | at termination the result is one-to-one, drawn from the input, and accounts for every row |
| MunkresSolver.AssignmentCost | munkres.cpp:47-53 | the result has one entry per real star and costs the sum of their stored costs |
| MunkresSolver.ReportedBest | munkres.cpp:35-55 | the reported assignment, with BIGVALUE per unassigned row, costs no more than any matching of real entries costed the same way |
| MunkresSolver.Munkres.constructor | munkres.cpp:25-28 | builds the matrix from the values: nrows and real_columns are one more than the largest row and column index, every row and column potential is 0, and there are no stars or primes |
| MunkresSolver.Munkres.StarSharingLine | munkres.cpp:88-96 | reports whether some star shares the zero's row or column |
| MunkresSolver.Munkres.StarInRow | munkres.cpp:145-153 | a star in the given row, or none exactly when the row has no star |
| MunkresSolver.Munkres.StarInColumn | munkres.cpp:186-196 | a star in the given column, or none exactly when the column has no star |
| MunkresSolver.Munkres.PrimeInRow | munkres.cpp:206-214 | a prime in the given row, or none exactly when the row has no prime |
| MunkresSolver.Munkres.RowMinima | munkres.cpp:62-70 | the array of running row minima over all current values |
| MunkresSolver.Munkres.SubtractRowMinima | munkres.cpp:71-73 | each row potential is lowered by its row minimum |
| MunkresSolver.Munkres.Step1 | munkres.cpp:61-75 | subtracts each row's minimum, leaving a zero in every row and feasible potentials; goes to step 2 |
| MunkresSolver.Munkres.StarZeros | munkres.cpp:84-100 | stars a matching of zeros such that every zero shares a line with a star |
| MunkresSolver.Munkres.Step2 | munkres.cpp:83-103 | the stars are a maximal matching of zeros, at most nrows; nothing else changes; goes to step 3 |
| MunkresSolver.Munkres.CoverStarredColumns | munkres.cpp:111-115 | a column becomes covered iff it was covered or holds a star |
| MunkresSolver.Munkres.CountCoveredColumns | munkres.cpp:116-119 | counts the covered columns |
| MunkresSolver.Munkres.Step3 | munkres.cpp:110-125 | covers the starred columns; ends exactly when there are nrows stars, otherwise goes to step 4 |
| MunkresSolver.Munkres.MarkPrime | munkres.cpp:141-142 | the zero joins the primes (one more prime) and becomes the last primed index; apart from the ghost priming clock nothing else changes |
| MunkresSolver.Munkres.PrimeZero | munkres.cpp:140-158 | primes the zero; with a star in its row, covers the row and uncovers the star's column, otherwise hands over to step 5 |
| MunkresSolver.Munkres.SearchRound | munkres.cpp:137-162 | one round of the step 4 loop: primes the first uncovered zero in storage order, with the exact new state: when its row has a star, that row is covered and the star's column uncovered (answer 4), otherwise nothing else changes (answer 5); with no uncovered zero left it answers 6 and changes nothing |
| MunkresSolver.Munkres.PrimeFirst | munkres.cpp:138-158 | primes the uncovered zero it is given and leaves exactly the state of one step 4 round, with the covers and the answer set by whether its row holds a star |
| MunkresSolver.Munkres.Step4 | munkres.cpp:135-165 | primes uncovered zeros until one has no star in its row (step 5) or none is left (step 6); stars and potentials do not change |
| MunkresSolver.Munkres.AddToCoveredRows | munkres.cpp:244-248 | adds the amount to the potential of every covered row |
| MunkresSolver.Munkres.SubtractFromUncoveredColumns | munkres.cpp:249-253 | subtracts the amount from the potential of every uncovered column |
| MunkresSolver.Munkres.PositiveMinimum | munkres.cpp:243 | the smallest uncovered current value, which is positive and attained |
| MunkresSolver.Munkres.SmallestUncovered | munkres.cpp:243 | the smallest uncovered value of the snapshot, positive and attained at an uncovered entry |
| MunkresSolver.Munkres.Step6 | munkres.cpp:241-255 | adjusts the potentials by the smallest uncovered value, keeping every invariant and creating an uncovered zero; goes to step 4 |
| MunkresSolver.Munkres.FindChain | munkres.cpp:178-217 | builds the alternating series of primes and stars from the last prime; it ends at a prime whose column has no star |
| MunkresSolver.Munkres.Unstar | munkres.cpp:220-223 | removes the series' stars and changes nothing else |
| MunkresSolver.Munkres.StarAll | munkres.cpp:225-228 | stars the series' primes and changes nothing else |
| MunkresSolver.Munkres.UncoverRows | munkres.cpp:231-232 | uncovers every row |
| MunkresSolver.Munkres.AugmentAlong | munkres.cpp:219-232 | flips the series, clears primes and uncovers rows |
| MunkresSolver.Munkres.Step5 | munkres.cpp:176-234 | flips the alternating series, giving one more star and a valid state; goes to step 3 |
| MunkresSolver.Munkres.Extract | munkres.cpp:47-53 | collects the stored entries of stars in real columns, in increasing index order |
| MunkresSolver.Munkres.Advance | munkres.cpp:41-46 | one dispatch of the driver keeps the next step's invariant and decreases the measure |
| MunkresSolver.Munkres.AdvanceToSearch | munkres.cpp:41-46 | dispatching steps 1 to 3 keeps the invariants and decreases the measure |
| MunkresSolver.Munkres.AdvanceSearch | munkres.cpp:41-46 | dispatching steps 4 to 6 keeps the invariants and decreases the measure |
| MunkresSolver.Munkres.AdvancePrime | munkres.cpp:41-46 | running step 4 hands over to step 5 or step 6 with its invariant, decreases the measure, and keeps every starless column at the lowest potential |
| MunkresSolver.Munkres.AdvanceAugment | munkres.cpp:41-46 | running step 5 hands over to step 3 with its invariant, decreases the measure, and keeps every starless column at the lowest potential |
| MunkresSolver.Munkres.AdvanceAdjust | munkres.cpp:41-46 | running step 6 hands over to step 4 with its invariant, decreases the measure, and keeps every starless column at the new, lower, lowest potential |
| MunkresSolver.Munkres.RunSteps | munkres.cpp:41-46 | the driver loop terminates with the stars a minimum-cost perfect matching of the extended matrix |
| MunkresSolver.Munkres.Solve | munkres.cpp:35-55 | returns a one-to-one assignment of input entries in real columns that accounts for every row and is the best one counting BIGVALUE per unassigned row |
| Remap.FirstSeen | munkres.cpp:264-287 | the ids in first-seen order: no repeats, the same ids as the input |
| Remap.FirstSeenSnoc | munkres.cpp:270-277 | a new id is appended, a known one leaves the order unchanged |
| Remap.InverseTwoSided | munkres.cpp:270-276 | the reverse map and the id list are inverse to each other in both directions |
| Remap.Lookup | munkres.cpp:270-277 | returns the dense number of an id, adding the id when it is new, keeping both maps inverse |
| Remap.Renumber | munkres.cpp:267-291 | every entry gets the dense numbers of its row and column ids in first-seen order, with its cost kept |
| Remap.DenseIds | munkres.cpp:257 | every dense number is used, and two positions share a dense number iff they share the original id |
| Remap.NoEmptyLines | munkres.cpp:257 | the renumbered matrix has no empty row or column, and entries share a new line iff they shared the original one |
| Remap.MapBack | munkres.cpp:295-299 | each result entry gets its original row and column ids back, with its cost kept |
| Remap.SolveDense | munkres.cpp:293-294 | the solver's answer on the renumbered entries is one-to-one and drawn from them |
| Remap.Solve | munkres.cpp:258-301 | the result is one-to-one in the original ids and consists of input entries |

## Left out

- Costs are unbounded integers rather than `double`. EPS becomes an exact zero test and INF becomes an absent value. Rounding and the difference between `<= EPS` and `< EPS` are not modelled.
- `uint` indices are unbounded naturals, so 32-bit wrap-around of row and column ids is not modelled. NOTFOUND becomes an absent value.
- The stream operator, the commented-out tracing and the unused iteration counter of `munkres()` are not modelled. They have no effect on the result.
- Allocation and destructors are not modelled: the matrix arrays are fresh Dafny arrays.
- Empty input is a precondition of the constructors and of `Remap.Solve`. The source takes `max_element` of an empty vector there, which is undefined.
- `std::sort` is not stable. The model sorts by insertion, which is one of the orders `std::sort` may produce, and proves the result sorted and a permutation of the input. Where entries of one row end up in another order, later ties may resolve differently.
- The loops over `std::set` in steps 2, 4 and 5 are modelled as searches for the one star or prime with the required property, which is unique, so iteration order does not matter. Extraction does depend on order and walks the stars in increasing index order, as `std::set` does.
- The source's `assert` calls (munkres.cpp:101, 191, 203, 215, 229 and matrix.cpp:128) are proved to hold rather than modelled as aborts.
- Remap.Solve: states that the result is one-to-one in the original ids and drawn from the input. The optimality proved for `Munkres.Solve` on the renumbered problem is not carried back through the renumbering to the original ids.
- The Python binding (pythonmodule.cpp) and the build script (setup.py) are not part of this model.
