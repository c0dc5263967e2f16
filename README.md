# Imputation of `native-country` in the Adult data set

A Dafny model of the imputation engine of `tarea10092025/nuevoAdult.py`. The
engine fills the missing values of the `native-country` column with a
conditional mode, which the script calls "maximum conditional likelihood".
It has four parts:

- **candidate counter** (`_conditional_candidates`). It takes the known rows that
  agree with a row on a list of attributes and counts their target values.
- **mode chooser** (`_choose_value`). It picks the most frequent candidate value.
  When there are no candidates it falls back to the global mode. When nothing
  is known at all it returns the "empty" signal.
- **single pass** (`impute_once`). It works on a copy of the table and fills
  every missing target. It tries the conditioning levels in order, against a
  known pool and a global counter that are frozen when the pass starts. The
  constant `"United-States"` is the last resort. It records one change entry
  per filled row.
- **driver** (`impute_native_country`). It repeats passes until the target
  column stops changing or `max_iters` passes have run. It keeps the first
  pass's change log.

Files and modules:

| file | module | contents |
|---|---|---|
| `wrappers.dfy` | `Wrappers` | `Option`: a cell value or a missing value (NaN) |
| `schema.dfy` | `Schema` | the 15 columns, `Row` (one optional string per column), `Dataset` (rows by original index) |
| `counting.dfy` | `Counting` | `Counter` (an association list in first-appearance order), `CounterOf` (`Counter(values)`), `Mode` (`max(counter.items(), key=count)`) |
| `candidates.dfy` | `Candidates` | the known pool, the matching subset, `ConditionalCandidates` |
| `chooser.dfy` | `Chooser` | `ChooseValue` and its tags |
| `imputation.dfy` | `Imputation` | `Decide` (the level loop as a function), `ImputeRow` and `ImputeOnce` (the loops as methods), `PassResult` / `PassChanges` (what a pass computes) |
| `driver.dfy` | `Driver` | the fixed conditioning hierarchy and `ImputeNativeCountry` |
| `scenarios.dfy` | `Scenarios` | a four-row example worked through the model |

Modelling choices:

- A counter is a list of `(value, count)` entries in the order in which each
  value first occurs, as with Python's `Counter`. Python's `max` keeps the
  first entry of maximal count. So on a tie the engine picks the tied value
  that occurs first in data set order, which need not be the lexicographically
  smallest. `ModeOfValues` and `ChosenValueIsMostFrequent` state this in terms
  of the counted values, and `DecideFirstLevelInDataOrder` in terms of the
  rows of the data set.
- pandas `==` is never true for a missing cell. `CellEquals` models this, so a
  missing conditioning value matches nothing.
- `impute_once` is imperative. `ImputeOnce` copies the data set (a Dafny
  sequence is a value, so the input is never changed). It freezes the pool,
  then walks the missing rows in order and writes each row's target cell.
  `ImputeRow` is the inner loop over levels with its `break`; `FillMissing` is
  the loop over the missing rows. Both are proved against the functions
  `Decide`, `PassResult` and `PassChanges`.
- `impute_native_country` is a `while` loop with a `break`. Its postcondition
  gives the outcome for every case of `max_iters` and of the input.
- The stop reason is the datatype `StopReason`: `NoChangeAt(it)` stands for
  "Sin cambios en iteración it. Proceso detenido." and `MaxItersReached(n)`
  for "Iteraciones máximas (n) alcanzadas.".

Behaviour of the code worth knowing, each proved in the model:

- Ties: the winner is the tied value that appears first in data set order,
  not the lexicographically smallest (lines 55-56; `DecideFirstLevelInDataOrder`).
- Levels 2 to 6 never decide. When a level has no matches but the pool is not
  empty, `_choose_value` returns the global mode, and line 73 accepts that
  result. So the first level always decides for a non-empty pool
  (`DecideNonEmptyPool`, `NonEmptyPoolOutcomes`). When the pool is empty,
  every level fails (`DecideEmptyPool`).
- The last resort is the constant `"United-States"`, or the global mode when
  one exists (line 78). The global-mode branch is reachable only with an
  empty list of levels (`DecideNoLevels`).
- A second pass never overwrites a value the first pass gave. A pass fills
  only rows that are still missing, and none is left after the first pass.
  So the second pass changes nothing (`PassIdentityWhenComplete`,
  `PassLeavesNothingMissing`). When something is missing and
  `max_iters >= 2`, the driver converges at iteration 2, also when no target
  is known at all.

## Model

| member | source | states |
|---|---|---|
| `Counting.Add` | tarea10092025/nuevoAdult.py:49 | counting one more occurrence keeps every existing key at its position; a new value is appended at the end with count 1 |
| `Counting.AddCount` | tarea10092025/nuevoAdult.py:49 | counting one more `v` raises the count of `v` by one and leaves every other count |
| `Counting.CounterOfCounts` | tarea10092025/nuevoAdult.py:49 | `Counter(values)` has distinct keys and positive counts; each value's count is its number of occurrences; the counts add up to the number of values |
| `Counting.CounterOfKeysOccur` | tarea10092025/nuevoAdult.py:49 | every key of `Counter(values)` is one of the values |
| `Counting.CounterOfKeysComplete` | tarea10092025/nuevoAdult.py:49 | every value is a key of `Counter(values)` |
| `Counting.CounterOfOrder` | tarea10092025/nuevoAdult.py:49 | the keys are kept in the order in which each value first occurs |
| `Counting.ArgMax` | tarea10092025/nuevoAdult.py:55-56 | the position `max` returns: no count is larger, and every earlier entry is strictly smaller |
| `Counting.Mode` | tarea10092025/nuevoAdult.py:55-56 | the key `max(counter.items(), key=count)[0]` returns |
| `Counting.ModeOfValues` | tarea10092025/nuevoAdult.py:49-56 | the mode of `Counter(values)` occurs in the values; no value occurs more often; of the values that occur as often, it is the first to occur |
| `Candidates.KnownPool` | tarea10092025/nuevoAdult.py:60 | the pool holds rows of the data set with a known target, and every such row; its target values are those of the data set, in the same order and number |
| `Candidates.KnownPoolAppend` | tarea10092025/nuevoAdult.py:60 | the filter keeps data set order: the pool of two consecutive stretches of rows is the pool of the first followed by the pool of the second |
| `Candidates.Subset` | tarea10092025/nuevoAdult.py:45-48 | the filtered rows are exactly the pool rows that match on every listed attribute |
| `Candidates.SubsetAppend` | tarea10092025/nuevoAdult.py:45-48 | the mask keeps pool order: the subset of two consecutive stretches is the subset of the first followed by the subset of the second |
| `Candidates.PoolSubsetTargets` | tarea10092025/nuevoAdult.py:44-49 | the target values counted for a row are those of the matching rows of the whole data set with a known target, in data set order |
| `Candidates.CandidatesUnconditioned` | tarea10092025/nuevoAdult.py:44-49 | with no attribute listed, every known row is counted: the candidates are the global counter |
| `Candidates.CandidateCount` | tarea10092025/nuevoAdult.py:44-49 | the count of each value is the number of known rows that hold it and agree with the row on every listed attribute, where a missing cell on either side never agrees |
| `Candidates.CandidateTotal` | tarea10092025/nuevoAdult.py:48-49 | the candidate counts add up to the size of the filtered subset |
| `Candidates.MissingConditioningValue` | tarea10092025/nuevoAdult.py:47 | a row whose value is missing on a listed attribute gets no candidates |
| `Candidates.EmptyPoolNoCandidates` | tarea10092025/nuevoAdult.py:44-49 | with no known target, the candidates and the global counter are empty |
| `Candidates.NonEmptyPoolCounter` | tarea10092025/nuevoAdult.py:60-61 | a non-empty known pool gives a non-empty global counter, with one value per row |
| `Chooser.ChooseValue` | tarea10092025/nuevoAdult.py:51-56 | both counters empty: `(None, fallback_empty)`; no candidates but a global value: the first global mode, `fallback_global_mode`; otherwise the first candidate mode, `conditional_mode` |
| `Chooser.ChosenValueIsMostFrequent` | tarea10092025/nuevoAdult.py:51-56 | with candidates, the chosen value is a most frequent candidate value, and on a tie the one that occurs first |
| `Chooser.FirstModeUnique` | tarea10092025/nuevoAdult.py:55-56 | the first mode of a counter is unique |
| `Imputation.DecideNonEmptyPool` | tarea10092025/nuevoAdult.py:70-76 | with a non-empty pool, the first level decides: its candidate mode tagged `cond(...)` if it has candidates, else the global mode tagged `fallback_global_mode` |
| `Imputation.DecideFirstLevelInDataOrder` | tarea10092025/nuevoAdult.py:70-76 | when some rows of the data set match on the first level and have a known target, that level decides with their most frequent target value, ties going to the value that appears first in data set order |
| `Imputation.DecideEmptyPool` | tarea10092025/nuevoAdult.py:70-79 | with no known target, every level fails and the row gets `"United-States"` tagged `ultimate_global_mode` |
| `Imputation.DecideNoLevels` | tarea10092025/nuevoAdult.py:77-79 | with no level and a non-empty global counter, the global mode tagged `ultimate_global_mode` |
| `Imputation.ImputeRow` | tarea10092025/nuevoAdult.py:69-79 | the level loop with its `break` and the last-resort fallback yields the decision `Decide` specifies |
| `Imputation.MissingIndices` | tarea10092025/nuevoAdult.py:64 | exactly the indices of the rows with a missing target, in increasing order; empty when no target is missing |
| `Imputation.PassResult` | tarea10092025/nuevoAdult.py:59-80 | after a pass no target is missing; rows that had a target and all other columns are unchanged; each filled row is decided against the pool and global counter of the pass's input |
| `Imputation.PassChanges` | tarea10092025/nuevoAdult.py:62-81 | one change entry per originally-missing row, in the order of `MissingIndices`, with its index, the value the pass wrote there and the method the level loop settled on against the frozen pool |
| `Imputation.PassChangesCoverMissing` | tarea10092025/nuevoAdult.py:64-81 | the change entries name only rows whose target was missing, in increasing index order, and every such row |
| `Imputation.PassIdentityWhenComplete` | tarea10092025/nuevoAdult.py:64-66 | with nothing missing, a pass returns the data set unchanged and an empty change list |
| `Imputation.PassLeavesNothingMissing` | tarea10092025/nuevoAdult.py:68-80 | after a pass, no target is missing |
| `Imputation.PassChangesTargetColumn` | tarea10092025/nuevoAdult.py:68-80 | a pass over a data set with a missing target changes the target column |
| `Imputation.EmptyPoolPass` | tarea10092025/nuevoAdult.py:77-80 | with no known target, every row gets `"United-States"`, and every change entry says so and is tagged `ultimate_global_mode` |
| `Imputation.FillMissing` | tarea10092025/nuevoAdult.py:68-81 | the loop over the missing rows fills exactly those rows; each entry it appends is decided from the input and the frozen pool only, so the table it builds is the same for any visiting order without repeats |
| `Imputation.PassRowDependsOnPoolOnly` | tarea10092025/nuevoAdult.py:59-61 | a filled row's value depends only on its own cells and the known pool taken at the start of the pass |
| `Imputation.ImputeOnce` | tarea10092025/nuevoAdult.py:58-82 | `impute_once` returns the data set `PassResult` and the change list `PassChanges` |
| `Driver.NonEmptyPoolOutcomes` | tarea10092025/nuevoAdult.py:70-76 | with the fixed hierarchy and a non-empty pool, every first-pass entry is the seven-attribute mode tagged `cond(race+sex+education+occupation+marital-status+relationship+income)`, or, when that match set is empty, the global mode tagged `fallback_global_mode` |
| `Driver.Level1Text` | tarea10092025/nuevoAdult.py:75 | the method text of a row decided by its seven-attribute matches is `cond(race+sex+education+occupation+marital-status+relationship+income)` |
| `Driver.ImputeNativeCountry` | tarea10092025/nuevoAdult.py:84-109 | `max_iters <= 0`: no pass is run and the result is not converged. Nothing missing: converged at iteration 1. Something missing and `max_iters == 1`: the first pass's result, not converged, "maximum iterations (1)". Something missing and `max_iters >= 2`: the first pass's result, converged at iteration 2. A converged result has no missing target. The log is the first pass's change list and is never longer than the number of originally-missing rows |
| `Driver.ImputeNativeCountryDefault` | tarea10092025/nuevoAdult.py:84-109 | with the default budget of three passes the driver always converges with every target filled, at iteration 1 when nothing was missing and at iteration 2 otherwise, and logs the first pass |
| `Scenarios.FourRowScenario` | tarea10092025/nuevoAdult.py:68-81 | two known "Mexico" rows of race A, then a missing row of race A and one of race B: the first gets "Mexico" by `cond(...)`, the second "Mexico" by `fallback_global_mode` |

## Left out

- `load_adult` (lines 33-41): reading the CSV with pandas, mapping `?` to a missing value and trimming strings. This is foreign-library I/O. The model takes rows that are already trimmed, with missing cells as `None`.
- `main` (lines 112-141): argument parsing, creating the output directory, writing the CSV files, sorting the change table and printing the summary. All of this is I/O.
- pandas mechanics (boolean masks, `.copy()`, `.equals`, building the change `DataFrame`). They are replaced by sequence operations with the same meaning. The row index is the position, as with the default `RangeIndex` of `read_csv`.
- Driver.Level1Text: states the level-1 method text as the nested concatenation `"cond(" + ("race+" + (... + "income")) + ")"`, not as a single string literal. Comparing it with the 70-character literal is too costly for the verifier. The text for levels 2 to 5 is not stated, because those levels never decide (see `DecideNonEmptyPool`).
- The Spanish stop-reason strings are not built. `StopReason` carries the iteration number or the budget instead.
- A `max_iters` that is not an integer is not modelled.
