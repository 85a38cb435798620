# Dataframe-backed profiling data source

This project models the data source that Ludwig's AutoML profiler queries to
guess feature types (`DataframeSourceMixin` and `DataframeSource` in
`ludwig/automl/data_source.py`). Each query is a read-only statistic over one
column of the wrapped table:

- the number of distinct non-null values;
- a capped sample of those values;
- the balance ratio, the smallest value frequency divided by the largest;
- the boolean heuristic;
- the string-dtype test;
- the row counts.

The project has two modules.

- `Pandas` (`pandas.dfy`) states the dataframe primitives the code relies on,
  over a column written as `seq<Value>`. A `Value` is `Null`, `Bool`, `Num` or
  `Str`; `Null` stands for both None and NaN. The primitives are `dropna`
  (`DropNa`), `unique` (`Unique`, in order of first appearance),
  `value_counts` (`ValueCounts`, one entry per distinct non-null value),
  `idxmax`/`idxmin` (`ArgMax`/`ArgMin`) and the Python slice `[:k]` (`Head`).
- `DataSource` (`data_source.dfy`) holds the repository's own logic. First
  come the column-level functions `DistinctValuesOf` (lines 57-64) and
  `IsBooleanColumn` (lines 78-90), then `IsStringType` (lines 92-93). Last is
  the `DataframeSource` datatype: it wraps a `DataFrame` (lines 99-101) and
  its member functions are the queries, each looking up the named column.
  The table is a row count, an ordered list of column names and a map from
  name to `Column` (the cells and an opaque dtype name). A subset type keeps
  the names unique and every column at exactly `rows` cells.

Raised exceptions are `Err` results:

- `KeyError(column)`: the column is not in the table.
- `ArgmaxOfEmpty`: `idxmax` ran on an empty `value_counts()`. For the
  non-categorical columns modelled here, that means the column has no
  non-null cell. `check_if_boolean` does not catch this error, so it
  inherits it.

The `TypeError` that `np.isnan` raises on a string is caught inside
`check_if_boolean`. The model writes it as the `ReturnFalse` step of the scan.

Every query is a function of an immutable value. Because of that, no query
can change the wrapped table, and asking the same question twice gives the
same answer.

Surprising behaviours of the code that the model keeps and proves:

- `get_nonnull_values` returns the length of the `notnull()` mask, which is
  the total row count. Null cells are counted too (`NonnullValuesCountsNulls`).
- `check_if_boolean` returns `true` for any column with more than three
  distinct non-null values, whatever those values are
  (`IsBooleanColumnDecision`, `HighCardinalityExample`).
- `max_values_to_return` is a Python slice bound. A negative value is not
  refused: that many values are dropped from the end of the list of distinct
  values, and what is left is the sample (`DistinctSample`).

Other behaviours of the code, stated plainly:

- The balance of the column `[True, False, True, null]` is 1/2: the counts
  are 2 and 1 (`FlagColumnExample`).
- With one distinct value the balance is 1 (`BalanceSingleValue`).
- A null entry cannot reach the boolean scan, because `dropna` runs first.
  Null cells therefore never change the verdict (`IsBooleanColumnIgnoresNulls`).

## Model

| member | source | states |
|---|---|---|
| `Pandas.DropNa` | ludwig/automl/data_source.py:58 | `dropna` keeps exactly the non-null values, never adds a cell, and leaves no null |
| `Pandas.DropNaKeepsOrder` | ludwig/automl/data_source.py:58 | `dropna` keeps the order of the cells: non-null values first occur in the same relative order before and after dropping nulls |
| `Pandas.DropNaAppend` | ludwig/automl/data_source.py:58 | `dropna` works cell by cell: on two joined pieces it gives the joined results, so the kept cells stay in their order |
| `Pandas.DropNaWithoutNulls` | ludwig/automl/data_source.py:58 | `dropna` leaves a column without nulls unchanged |
| `Pandas.CountDropNa` | ludwig/automl/data_source.py:58-60 | dropping nulls does not change how often any non-null value occurs, so `value_counts` of the column and of its non-null cells agree |
| `Pandas.Unique` | ludwig/automl/data_source.py:58 | `unique` has no duplicates and contains exactly the values of its input |
| `Pandas.UniqueFirstAppearance` | ludwig/automl/data_source.py:58 | `unique` lists values in order of their first occurrence in the column |
| `Pandas.UniqueOfDistinct` | ludwig/automl/data_source.py:58 | a column without repeated values is its own `unique` |
| `Pandas.ValueCounts` | ludwig/automl/data_source.py:60 | `value_counts` has one entry per distinct non-null value of the column, each label once, each with its exact, positive number of occurrences |
| `Pandas.ValueCountsTotal` | ludwig/automl/data_source.py:60 | the counts of `value_counts` add up to the number of non-null cells |
| `Pandas.ArgMax` | ludwig/automl/data_source.py:61 | `idxmax` selects the first entry with the largest count: its count is at least every count, and every earlier entry's count is smaller |
| `Pandas.ArgMin` | ludwig/automl/data_source.py:62 | `idxmin` selects the first entry with the smallest count: its count is at most every count, and every earlier entry's count is larger |
| `Pandas.Head` | ludwig/automl/data_source.py:64 | the slice `[:k]` is a prefix of the sequence whose length is the Python stop index `SliceStop(|s|, k)` |
| `DataSource.DistinctValuesOf` | ludwig/automl/data_source.py:57-64 | `get_distinct_values` fails, with the `idxmax` error, exactly when the column has no non-null cell |
| `DataSource.DistinctCount` | ludwig/automl/data_source.py:58-59 | the distinct count is the cardinality of the set of non-null values of the column, hence at most the row count |
| `DataSource.DistinctSample` | ludwig/automl/data_source.py:58-64 | the sample is a prefix of the distinct non-null values without nulls or duplicates; for `k >= 0` it has `min(k, count)` values, for negative `k` it has `max(count + k, 0)` |
| `DataSource.DistinctSampleOrder` | ludwig/automl/data_source.py:58-64 | the sample lists its values in order of their first occurrence in the column itself, nulls included in the positions |
| `DataSource.DistinctSampleComplete` | ludwig/automl/data_source.py:64 | when `k` is at least the distinct count, the sample is every distinct non-null value |
| `DataSource.Balance` | ludwig/automl/data_source.py:60-63 | the balance lies in (0, 1] and equals 1 exactly when all non-null values occur equally often |
| `DataSource.BalanceValue` | ludwig/automl/data_source.py:60-63 | the balance is the count of some non-null value `lo` over the count of some non-null value `hi`, where every non-null value's count lies between those two |
| `DataSource.BalanceSingleValue` | ludwig/automl/data_source.py:60-63 | a column with one distinct non-null value has balance 1 |
| `DataSource.DistinctValuesIgnoreNulls` | ludwig/automl/data_source.py:58-64 | the whole distinct-value summary of a column equals that of its non-null cells |
| `DataSource.EntryStep` | ludwig/automl/data_source.py:82-88 | one pass of the loop goes on to the next entry exactly for a NaN or a boolean; a string (caught `TypeError`) or a number ends the scan with `False` |
| `DataSource.ScanEntries` | ludwig/automl/data_source.py:81-89 | the early-exit scan finishes without returning `False` exactly when every non-null entry is a boolean |
| `DataSource.IsBooleanColumn` | ludwig/automl/data_source.py:78-90 | `check_if_boolean` fails exactly when `get_distinct_values` does, with the same error |
| `DataSource.IsBooleanColumnDecision` | ludwig/automl/data_source.py:79-90 | the verdict is `true` exactly when there are more than three distinct non-null values or every non-null cell is a boolean |
| `DataSource.IsBooleanColumnAtMostTwo` | ludwig/automl/data_source.py:80-90 | a `true` verdict means more than three distinct values or at most two: the low-cardinality branch never accepts three |
| `DataSource.IsBooleanColumnIgnoresNulls` | ludwig/automl/data_source.py:58-89 | two columns with the same non-null cells get the same verdict |
| `DataSource.IsStringType` | ludwig/automl/data_source.py:92-93 | a dtype is a string dtype exactly when it is `str`, `string` or `object` |
| `DataSource.DataframeSource.Columns` | ludwig/automl/data_source.py:50-52 | the column names are unique and name exactly the stored columns |
| `DataSource.DataframeSource.GetDtype` | ludwig/automl/data_source.py:54-55 | the stored dtype name of a present column, a `KeyError` otherwise |
| `DataSource.DataframeSource.GetDistinctValues` | ludwig/automl/data_source.py:57-64 | a `KeyError` for an unknown column, the `idxmax` error for an all-null column, otherwise a summary whose count is at most `len` of the source |
| `DataSource.DataframeSource.GetNonnullValues` | ludwig/automl/data_source.py:66-67 | for a present column the result is `len` of the source; a `KeyError` otherwise |
| `DataSource.DataframeSource.NonnullValuesCountsNulls` | ludwig/automl/data_source.py:66-67 | the result is the number of non-null cells plus the number of null cells |
| `DataSource.DataframeSource.CheckIfBoolean` | ludwig/automl/data_source.py:78-90 | a `KeyError` for an unknown column, the `idxmax` error for an all-null column, a verdict otherwise |
| `DataSource.DataframeSource.CheckIfBooleanDecision` | ludwig/automl/data_source.py:79-90 | on a stored column the verdict is the exact decision of `IsBooleanColumnDecision` |
| `DataSource.DataframeSource.Len` | ludwig/automl/data_source.py:95-96 | `len` is the number of cells of every column |
| `DataSource.FlagColumnExample` | ludwig/automl/data_source.py:57-64 | `[True, False, True, null]` with `k = 4` gives count 2, sample `[True, False]` and balance 1/2 |
| `DataSource.FlagColumnIsBoolean` | ludwig/automl/data_source.py:78-90 | `[True, False, True, null]` is found boolean |
| `DataSource.MixedColumnExample` | ludwig/automl/data_source.py:78-90 | `[True, False, "yes"]` is found not boolean |
| `DataSource.HighCardinalityExample` | ludwig/automl/data_source.py:79-90 | four distinct strings take the high-cardinality branch and are found boolean |
| `DataSource.StringTypeExample` | ludwig/automl/data_source.py:92-93 | `object` is a string dtype and `int64` is not |

## Left out

- The abstract `DataSource` base class (lines 12-44) declares the interface and
  has no behaviour. It is not written separately: `DataframeSource` carries
  the same queries.
- `get_image_values` and `get_audio_values` (lines 69-73) sum scores from
  `is_image_score` and `is_audio_score`. `get_avg_num_tokens` (lines 75-76)
  calls `avg_num_tokens`. Those three functions live outside this file and are
  not part of this model.
- Floating point: the balance is an exact rational (`real`), not a float, and
  `Num` cells hold integers only.
- Python's equality of `True` with `1` (and `False` with `0`), which would
  merge such cells in `unique` and `value_counts`. The model keeps `Bool` and
  `Num` values distinct.
- The `np.bool_` versus `bool` distinction of the `isinstance` test. `Bool` is
  the only boolean.
- None versus NaN in the boolean scan. `EntryStep` treats `Null` as NaN, which
  is skipped. None would raise the caught `TypeError` instead. The difference
  cannot show, because `dropna` removes every null first.
- Pandas lists `value_counts` by descending count; the model lists it in
  order of first appearance. Only the largest and smallest counts are used,
  so the result does not depend on this order. `idxmax`/`idxmin` return a
  label in pandas and a position here. Labels are unique, so the count read
  back is the same.
- Categorical dtypes: `value_counts` also lists unused categories with count
  0, so the balance can be 0 and an all-null column does not fail; the model
  counts only the values that occur.
- Repeated column labels: pandas allows them, and then `df[column]` is a table,
  so `get_dtype` and `get_distinct_values` raise `AttributeError` while
  `get_nonnull_values` still returns the row count. The model's tables have
  unique column names.
- `columns` and `get_dtype` are plain lookups of stored data. Dtype names are
  opaque strings and are not derived from the cells.
- Distributed (Dask) backends of the same interface, and the schema dataclasses
  under `ludwig/schema/features`: they are declarative, and their option lists
  come from registries that are not part of this model.
