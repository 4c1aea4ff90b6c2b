# Count encoder

A model of `CountEncoder`, a categorical count (frequency) encoder written as a
scikit-learn transformer. It has two phases:

- `fit(X)` walks the columns of a two-dimensional matrix and builds one
  frequency table per column. A table is a `collections.Counter` mapping each
  distinct value of the column to the number of rows holding it. The tables
  are stored, in column order, in the field `counters_`.
- `transform(X)` copies `X` and rewrites each column of the copy, in place,
  with the counts that column's table holds for its cells. It returns the copy.
- `fit_transform(X)`, inherited from the library mixin, is `fit(X)` followed
  by `transform(X)`.

The model has two modules:

- `Frequency` (`frequency.dfy`) is the counting itself, on values. A column is a
  `seq<int>`. `Occurrences(c, v)` is the reference definition: the size of the
  set of row indices of `c` holding `v`. `FrequencyTable(c)` builds the table
  row by row, as the counter does. `Total(t)` is the sum of a table's counts.
  The lemmas relate the table to the reference definition.
- `CountEncoding` (`count_encoder.dfy`) is the encoder. A matrix is an
  `array2<int>`, like the numpy array the source works on. The class
  `CountEncoder` has the field `counters: seq<map<int, nat>>`, which models
  `counters_`. It also has `fitted`, which records whether `counters_` exists
  yet. `Fit` has a column loop. `CountValues` holds the row loop that builds one
  column's table. `Transform` allocates a copy of its argument and then
  rewrites one column of the copy at a time.

The lookup at lines 27-28 of the source compares the column against the
counter's key list, takes the positions of the matches, and indexes the
counter's value list with them. `keys()` and `values()` of one counter iterate
in the same order, so this is a map lookup: the model writes
`counters[k][X[i, k]]`.

Two facts about the code:

- A column-count mismatch at transform time is not an error. `zip` at line 25
  stops at the shorter of the transposed copy and the table list. Columns with
  no table are returned unchanged, and tables with no column are never used.
  `Transform` states exactly this.
- The code does not check for values missing from a table (see `## Left out`).

## Model

| member | source | states |
|---|---|---|
| `Frequency.TableKeys` | 02_pipelines_and_column_transformers/exercices_perso/01-count_encoder.py:17 | the keys of a column's table are exactly the values occurring in that column (both directions) |
| `Frequency.TableCounts` | 02_pipelines_and_column_transformers/exercices_perso/01-count_encoder.py:17 | every key of a column's table maps to the number of row indices of the column holding that key |
| `Frequency.TableCountsBounded` | 02_pipelines_and_column_transformers/exercices_perso/01-count_encoder.py:17 | every count of a fitted table is at least 1 and at most the number of rows |
| `Frequency.TableTotal` | 02_pipelines_and_column_transformers/exercices_perso/01-count_encoder.py:17 | the counts of a column's table add up to the number of rows |
| `Frequency.TableHasValue` | 02_pipelines_and_column_transformers/exercices_perso/01-count_encoder.py:17 | every value occurring in a column is a key of that column's table |
| `Frequency.CellCount` | 02_pipelines_and_column_transformers/exercices_perso/01-count_encoder.py:16-17 | every cell's value is a key of its column's table; looking it up gives the number of rows sharing that value, between 1 and the number of rows |
| `Frequency.OccurrencesLast` | 02_pipelines_and_column_transformers/exercices_perso/01-count_encoder.py:17 | the rows holding a value in a column are those in all rows but the last, plus the last row if it holds the value |
| `Frequency.OccurrencesBounds` | 02_pipelines_and_column_transformers/exercices_perso/01-count_encoder.py:17 | a value taken from a column occurs in at least one and at most all of its rows |
| `Frequency.BumpTotal` | 02_pipelines_and_column_transformers/exercices_perso/01-count_encoder.py:17 | counting one more row raises a table's total by exactly one |
| `CountEncoding.CountValues` | 02_pipelines_and_column_transformers/exercices_perso/01-count_encoder.py:17 | the table built from column `k` of the matrix, one row at a time, is that column's frequency table |
| `CountEncoding.CountEncoder.constructor` | 02_pipelines_and_column_transformers/exercices_perso/01-count_encoder.py:8-9 | a new encoder holds no tables and is not fitted |
| `CountEncoding.CountEncoder.Fit` | 02_pipelines_and_column_transformers/exercices_perso/01-count_encoder.py:11-21 | afterwards the encoder is fitted and holds exactly one table per column of `X`, in column order, each the frequency table of its column; the new tables depend on `X` alone, so an earlier fit leaves nothing behind |
| `CountEncoding.CountEncoder.Transform` | 02_pipelines_and_column_transformers/exercices_perso/01-count_encoder.py:23-29 | returns a newly allocated matrix of the same shape; a cell in a column that has a table becomes that table's count for the input cell's value, and any other cell keeps its value; the input and the encoder are left unchanged |
| `CountEncoding.CountEncoder.FitTransform` | 02_pipelines_and_column_transformers/exercices_perso/01-count_encoder.py:11-29 | fit then transform on the same matrix: every cell becomes the number of rows of its column holding the cell's value, between 1 and the number of rows, and the stored tables are those `Fit` stores |
| `CountEncoding.ExampleFit` | 02_pipelines_and_column_transformers/exercices_perso/01-count_encoder.py:34-39 | on the 4x2 smoke-test matrix, the tables are {0: 1, 1: 3} and {2: 1, 3: 1, 1: 2} |
| `CountEncoding.Example` | 02_pipelines_and_column_transformers/exercices_perso/01-count_encoder.py:34-41 | `fit_transform` of [[0,2],[1,3],[1,1],[1,1]] is [[1,1],[3,1],[3,2],[3,2]] |

## Left out

- `CountEncoding.CountEncoder.Transform`: requires `fitted`. Before the first `fit` the source has no `counters_` attribute, so Python raises `AttributeError`; that error is not modelled.
- `CountEncoding.CountEncoder.Transform`: requires every cell it looks up to be a key of its column's table. For an unseen value, the position list at line 27 is shorter than the column, and the slice assignment at line 28 then fails in numpy or, when exactly one match remains, broadcasts that single count over the whole column. That uncontrolled numpy behaviour is not modelled.
- The scikit-learn base classes (`BaseEstimator`, `TransformerMixin`) are foreign library code. Their parameter introspection and pipeline plumbing are not modelled; `fit_transform` is modelled as `Fit` followed by `Transform`.
- `fit` returns `self` for call chaining; `Fit` returns nothing, because the caller already holds the object.
- Input that is not two-dimensional cannot occur: the matrix type is `array2`, so `X.shape[1]` at line 12 always exists.
- Cells are integers. The source accepts any hashable value and relies on Python equality.
- The slice assignment at line 28 casts the counts to the copied array's dtype. For an int64 matrix such as the smoke test's this changes nothing. For a narrower integer dtype (int8, int16, uint8, ...) a count above the dtype's maximum wraps around; for example, 200 rows of one value in an int8 column give -56. The model's counts are unbounded integers and do not show that wrap-around.
- The numpy broadcasting comparison and `np.nonzero` at line 27 are modelled only by their effect, a map lookup.
- The module-level `print` of the smoke test (line 41) is output; `Example` keeps its data and its expected result.
