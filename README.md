# First-occurrence label encoding of a DataFrame column

This project models `discretize_column` from `classification_utilities.py`
in Dafny. The function turns a categorical column of a DataFrame into
integer codes. It collects the column's distinct values in order of first
appearance (`Series.unique()`). It numbers them 0, 1, 2, … in a dictionary.
It then writes each row's number into a new column `<column>_discr` of the
caller's frame, in place, and leaves the original column where it was.
`prepare_data` uses it on the `lang` column and then drops `lang`. The model
covers that step too.

The model has two modules:

- `LabelEncoding` (`label_encoding.dfy`) holds the pure part, over a column
  `seq<T>` whose values only need equality. `Unique` is `unique()`.
  `IndexTable` is the `dict(... enumerate ...)` comprehension. `Apply` is the
  per-row `d[x]` lookup, KeyError included. `Discretize` is the resulting
  code column. The lemmas around them state what the encoding promises: the
  lookup never fails, codes are in range, equal codes mean equal values,
  codes follow first appearance and are dense.
- `Frames` (`data_frame.dfy`) holds the part that changes state. The
  `DataFrame` class has ordered column labels, a map from label to column
  and a row count. Its methods model `df[name]`, `df[name] = values`,
  `df.drop(columns=[name], inplace=True)`, `discretize_column` and lines
  63–66 of `prepare_data`. Python's KeyError is a `Result.KeyError` value
  that carries the missing key or label (pandas' message text is not
  modelled).

## Model

| member | source | states |
|---|---|---|
| `LabelEncoding.Unique` | classification_utilities.py:42 | the distinct values of the column have no repetition, hold every row's value and only rows' values, and are no more than the rows |
| `LabelEncoding.UniquePrefix` | classification_utilities.py:42 | the distinct values of a prefix of the rows are a prefix of the distinct values of all rows (later rows never reorder earlier values) |
| `LabelEncoding.UniqueAtFirstOccurrence` | classification_utilities.py:42 | at a value's first occurrence, `unique()` of the rows so far is `unique()` of the rows before it with that value appended |
| `LabelEncoding.PlaceInUnique` | classification_utilities.py:42 | a value first seen at row f stands in `unique()` at position "number of distinct values before row f" |
| `LabelEncoding.IndexTable` | classification_utilities.py:44 | the enumerate table has every collected value as a key, maps each key to a position holding that key, and on distinct values maps the value at position k to k |
| `LabelEncoding.Apply` | classification_utilities.py:46 | the per-row lookup succeeds exactly when every row's value is a key; then it has one entry per row equal to that row's looked-up value; otherwise it raises KeyError for the first row whose value is missing |
| `LabelEncoding.LookupNeverFails` | classification_utilities.py:42-46 | every row's value is a key of the table built from the column, so the lookup `d[x]` never raises |
| `LabelEncoding.Codes` | classification_utilities.py:42-46 | the pipeline as written (unique, enumerate table, per-row lookup) never raises, gives one code per row, each below the number of distinct values, and the distinct value at a row's code is the row's own value |
| `LabelEncoding.Discretize` | classification_utilities.py:42-46 | the code column has one code per row, each code is below the number of distinct values, and the distinct value at that code is the row's own value |
| `LabelEncoding.CodeIsFirstAppearanceRank` | classification_utilities.py:42-44 | a row's code is the number of distinct values that occur before the first occurrence of the row's value |
| `LabelEncoding.FirstRowGetsZero` | classification_utilities.py:42-44 | the first row's code is 0 |
| `LabelEncoding.CodesFollowFirstAppearance` | classification_utilities.py:42-44 | one row's value first appears before another's exactly when its code is smaller |
| `LabelEncoding.SameCodeIffSameValue` | classification_utilities.py:42-46 | two rows get the same code exactly when they hold equal values |
| `LabelEncoding.CodesAreDense` | classification_utilities.py:42-46 | every integer below the number of distinct values is the code of some row |
| `LabelEncoding.CodeCountIsDistinctCount` | classification_utilities.py:42-44 | the number of codes equals the number of distinct values in the column, counted as a set |
| `LabelEncoding.CodeCountsEarlierValues` | classification_utilities.py:42-44 | a row's code is the size of the set of values in the rows before the first occurrence of its value |
| `Frames.DiscrName` | classification_utilities.py:46 | the new column's label is the source label followed by `_discr`, so it is longer than, and never equal to, the source label |
| `Frames.CodeCells` | classification_utilities.py:46 | the Series assigned at line 46 has one integer cell per row, and row i's cell is row i's code |
| `Frames.Without` | classification_utilities.py:66 | the label list after a drop holds exactly the other labels and keeps them unique |
| `Frames.WithoutAbsent` | classification_utilities.py:66 | removing a label that is not in the list leaves the list as it was |
| `Frames.WithoutCutsOut` | classification_utilities.py:66 | on unique labels, removing the label at position k gives the list before k followed by the list after k, so the rest keep their order |
| `Frames.DataFrame.Column` | classification_utilities.py:42 | `df[name]` gives the column's cells, one per row, exactly when the label exists, and KeyError naming the label otherwise |
| `Frames.DataFrame.SetColumn` | classification_utilities.py:46 | `df[name] = values` replaces that column and leaves the others; a new label is appended at the end and an existing one keeps its position |
| `Frames.DataFrame.DiscretizeColumn` | classification_utilities.py:40-46 | KeyError with nothing written when the column is missing; otherwise only `name + "_discr"` is added or overwritten, it holds the codes of the column, and the source column and all other columns are unchanged |
| `Frames.DataFrame.DropColumn` | classification_utilities.py:66 | dropping removes exactly that column and its label, and the remaining labels are the ones before it followed by the ones after it, in order; KeyError with nothing changed when it is missing |
| `Frames.DataFrame.EncodeLanguage` | classification_utilities.py:63-66 | with a `lang` column, the frame ends with `lang` removed and `lang_discr` holding its codes; without one, KeyError and the frame unchanged |

## Left out

- `get_metrics`, `confusion_matrix`, `cross_validation`, `test_best` and `grid_search` (classification_utilities.py:11-37, 80-122): thin wrappers over scikit-learn metrics, `GridSearchCV`, `cross_validate` and matplotlib, whose behaviour lives in those libraries.
- File and plot I/O: `read_csv`, `to_csv`, `os.mkdir`, `plt.savefig`/`plt.show`.
- The rest of `prepare_data`: the merge (line 57), the first drop (line 60), NaN filling and ±inf clipping to float32 limits (lines 68-71), scaling (lines 73-75) and the randomized stratified `train_test_split` (line 77). These are library calls, floating-point numerics or randomness.
- The best-row choice with `idxmax` on `mean_test_f1` and its KeyError fallback (lines 102-107): a pandas float argmax over columns that the library decides.
- DM_11_TASK3/rf_svm_grid_search.py: a script that builds hyperparameter grids and calls the library. `grid_search_with_feature_selection` is not part of this model; it is not defined in any file here.
- Missing values: `unique()` keeps a single NaN, and `d[NaN]` depends on object identity in Python dictionaries. Cells here are `Text` or `Int` and have ordinary equality, so NaN in the categorical column is not modelled.
- Cell types: a frame's cells are `Text` or `Int`. Float columns and pandas dtypes are not modelled, and neither is the assignment of `df[name] = series` by index alignment. The series assigned at line 46 comes from the same frame, so its index matches, and positional assignment is what happens.
- `Frames.DataFrame.SetColumn` requires a value per row and assigns by position. pandas raises ValueError for a list or array of the wrong length, and aligns a Series by its index. The Series assigned at line 46 is derived from the same frame, so it has one value per row on the same index.
- Duplicate column labels: `Valid()` requires the labels to be unique. pandas allows duplicates, and there `df[name]` gives a DataFrame, so `.unique()` at line 42 raises AttributeError. That case is not modelled. The only caller passes a `merge` of two `read_csv` frames (lines 51-60), whose labels are unique.
- KeyError messages: `Result.KeyError` carries the missing label or key itself. pandas `drop` (line 66) raises `KeyError("['lang'] not found in axis")`, and that message text is not modelled.
