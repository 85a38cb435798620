/**
 The dataframe-backed data source that the AutoML profiler queries to guess
 feature types: the distinct-value summary of a column, the boolean heuristic,
 the string-dtype test and the row counts.

 Every query is a read-only function of the wrapped table, so no query can
 change it. Raised exceptions are `Err` results.
 */
module DataSource {
  import opened Pandas

  /** The exceptions the queries raise. */
  datatype Error =
    | KeyError(column: string)  // `df[column]` on a column the table does not have
    | ArgmaxOfEmpty             // `idxmax()` on an empty `value_counts()` result

  datatype Result<T> = Ok(value: T) | Err(error: Error)

  /** What `get_distinct_values` returns: the distinct count, a sample of the values and the balance. */
  datatype DistinctValues = DistinctValues(count: nat, sample: seq<Value>, balance: real)

  /** One column of the table: its cells and the name of its dtype, which the model does not interpret. */
  datatype Column = Column(values: seq<Value>, dtype: string)

  /** A table: its row count, its column names in order, and its columns by name. */
  datatype Frame = Frame(rows: nat, names: seq<string>, data: map<string, Column>) {
    /** Column names are unique and name exactly the stored columns, each of which has one cell per row. */
    predicate Valid() {
      && NoDups(names)
      && Elements(names) == data.Keys
      && (forall c :: c in data ==> |data[c].values| == rows)
    }
  }

  /** Only well-formed tables exist. */
  type DataFrame = f: Frame | f.Valid() witness Frame(0, [], map[])

  /** Some cell of the column is not null. */
  predicate HasNonNull(col: seq<Value>) {
    DropNa(col) != []
  }

  /** Number of distinct non-null values of a column. */
  function NumDistinct(col: seq<Value>): nat {
    |Unique(DropNa(col))|
  }

  // ---------------------------------------------------------------------------
  // get_distinct_values

  /**
   `get_distinct_values` on the cells of one column: the number of distinct
   non-null values, the first `maxValuesToReturn` of them (a Python slice) and
   the smallest value count over the largest. With no non-null cell the
   `value_counts()` result is empty and `idxmax()` fails.
   */
  function DistinctValuesOf(col: seq<Value>, maxValuesToReturn: int): (r: Result<DistinctValues>)
    ensures r.Err? <==> !HasNonNull(col)
    ensures r.Err? ==> r.error == ArgmaxOfEmpty
  {
    var uniqueValues := Unique(DropNa(col));
    var numUniqueValues := |uniqueValues|;
    var counts := ValueCounts(col);
    if counts == [] then Err(ArgmaxOfEmpty)
    else
      var majority := counts[ArgMax(counts)].count;
      var minority := counts[ArgMin(counts)].count;
      Ok(DistinctValues(numUniqueValues, Head(uniqueValues, maxValuesToReturn),
                        minority as real / majority as real))
  }

  /** The distinct count is the number of distinct non-null values, so at most the row count. */
  lemma DistinctCount(col: seq<Value>, maxValuesToReturn: int)
    requires HasNonNull(col)
    ensures DistinctValuesOf(col, maxValuesToReturn).value.count == |set v | v in col && v != Null|
    ensures DistinctValuesOf(col, maxValuesToReturn).value.count <= |col|
  {
    var u := Unique(DropNa(col));
    NoDupsCardinality(u);
    assert Elements(u) == set v | v in col && v != Null;
  }

  /**
   The sample is a prefix of the distinct non-null values, listed in order of
   first appearance, without nulls or duplicates; for `k >= 0` it has
   `min(k, count)` values, and a negative `k` drops `-k` values from the end.
   */
  lemma DistinctSample(col: seq<Value>, k: int)
    requires HasNonNull(col)
    ensures var dv := DistinctValuesOf(col, k).value;
      && dv.sample <= Unique(DropNa(col))
      && Null !in dv.sample
      && NoDups(dv.sample)
      && (forall v :: v in dv.sample ==> v in col)
      && (0 <= k ==> |dv.sample| == if k < dv.count then k else dv.count)
      && (k < 0 ==> |dv.sample| == if dv.count + k > 0 then dv.count + k else 0)
  {
    var u := Unique(DropNa(col));
    var sample := DistinctValuesOf(col, k).value.sample;
    assert sample == u[..SliceStop(|u|, k)];
    forall v | v in sample
      ensures v in u
    {
      var i :| 0 <= i < |sample| && sample[i] == v;
      assert u[i] == v;
    }
  }

  /** The sample lists its values in order of their first occurrence in the column itself. */
  lemma DistinctSampleOrder(col: seq<Value>, k: int)
    requires HasNonNull(col)
    ensures var sample := DistinctValuesOf(col, k).value.sample;
      forall i, j :: 0 <= i < j < |sample| ==> FirstIndex(col, sample[i]) < FirstIndex(col, sample[j])
  {
    var nn := DropNa(col);
    var u := Unique(nn);
    var sample := DistinctValuesOf(col, k).value.sample;
    assert sample == u[..SliceStop(|u|, k)];
    UniqueFirstAppearance(nn);
    forall i, j | 0 <= i < j < |sample|
      ensures FirstIndex(col, sample[i]) < FirstIndex(col, sample[j])
    {
      assert sample[i] == u[i] && sample[j] == u[j];
      DropNaKeepsOrder(col, u[i], u[j]);
    }
  }

  /** With `k` at least the distinct count, the sample is every distinct non-null value. */
  lemma DistinctSampleComplete(col: seq<Value>, k: int)
    requires HasNonNull(col) && k >= NumDistinct(col)
    ensures DistinctValuesOf(col, k).value.sample == Unique(DropNa(col))
  {
    var u := Unique(DropNa(col));
    assert u[..|u|] == u;
  }

  /**
   The balance is the smallest value count divided by the largest: it lies in
   (0, 1], and it is 1 exactly when every non-null value occurs equally often.
   */
  lemma Balance(col: seq<Value>, k: int)
    requires HasNonNull(col)
    ensures var b := DistinctValuesOf(col, k).value.balance;
      && 0.0 < b <= 1.0
      && (b == 1.0 <==> forall v, w :: v in col && v != Null && w in col && w != Null ==> Count(col, v) == Count(col, w))
  {
    var vc := ValueCounts(col);
    var majority := vc[ArgMax(vc)].count;
    var minority := vc[ArgMin(vc)].count;
    assert DistinctValuesOf(col, k).value.balance == minority as real / majority as real;
    RatioBounds(minority, majority);
    UniformIffExtremesMeet(col);
  }

  /**
   The balance is the count of the least frequent non-null value divided by the
   count of the most frequent one.
   */
  lemma BalanceValue(col: seq<Value>, k: int)
    requires HasNonNull(col)
    ensures exists lo, hi :: BalanceWitnesses(col, DistinctValuesOf(col, k).value.balance, lo, hi)
  {
    var vc := ValueCounts(col);
    var lo := vc[ArgMin(vc)].value;
    var hi := vc[ArgMax(vc)].value;
    assert DistinctValuesOf(col, k).value.balance == Count(col, lo) as real / Count(col, hi) as real;
    forall v | v in col && v != Null
      ensures Count(col, lo) <= Count(col, v) <= Count(col, hi)
    {
      CountWithinExtremes(col, v);
    }
    assert BalanceWitnesses(col, DistinctValuesOf(col, k).value.balance, lo, hi);
  }

  /**
   `lo` and `hi` are non-null values of `col`, the least and the most frequent,
   and `b` is the count of `lo` over the count of `hi`.
   */
  ghost predicate BalanceWitnesses(col: seq<Value>, b: real, lo: Value, hi: Value) {
    && lo in col && lo != Null && hi in col && hi != Null
    && Count(col, hi) > 0
    && b == Count(col, lo) as real / Count(col, hi) as real
    && (forall v :: v in col && v != Null ==> Count(col, lo) <= Count(col, v) <= Count(col, hi))
  }

  /** All non-null values occur equally often exactly when the smallest and the largest count agree. */
  lemma UniformIffExtremesMeet(col: seq<Value>)
    requires HasNonNull(col)
    ensures var vc := ValueCounts(col);
      vc[ArgMin(vc)].count == vc[ArgMax(vc)].count
      <==> forall v, w :: v in col && v != Null && w in col && w != Null ==> Count(col, v) == Count(col, w)
  {
    var vc := ValueCounts(col);
    var majority := vc[ArgMax(vc)].count;
    var minority := vc[ArgMin(vc)].count;
    if minority == majority {
      forall v, w | v in col && v != Null && w in col && w != Null
        ensures Count(col, v) == Count(col, w)
      {
        CountWithinExtremes(col, v);
        CountWithinExtremes(col, w);
      }
    } else {
      var hi := vc[ArgMax(vc)].value;
      var lo := vc[ArgMin(vc)].value;
      assert hi in col && hi != Null && lo in col && lo != Null;
      assert Count(col, hi) != Count(col, lo);
    }
  }

  /** Every non-null value occurs at least as often as the minority and at most as often as the majority. */
  lemma CountWithinExtremes(col: seq<Value>, v: Value)
    requires v in col && v != Null
    ensures var vc := ValueCounts(col);
      |vc| > 0 && vc[ArgMin(vc)].count <= Count(col, v) <= vc[ArgMax(vc)].count
  {
    var vc := ValueCounts(col);
    var i :| 0 <= i < |vc| && vc[i].value == v;
    assert vc[i].count == Count(col, v);
  }

  /** `p / q` for naturals `0 < p <= q` lies in (0, 1] and is 1 exactly when `p == q`. */
  lemma RatioBounds(p: nat, q: nat)
    requires 0 < p <= q
    ensures 0.0 < p as real / q as real <= 1.0
    ensures p as real / q as real == 1.0 <==> p == q
  {
    var r := p as real / q as real;
    assert r * q as real == p as real;
  }

  /** A column with a single distinct non-null value is perfectly balanced. */
  lemma BalanceSingleValue(col: seq<Value>, k: int)
    requires HasNonNull(col) && NumDistinct(col) == 1
    ensures DistinctValuesOf(col, k).value.balance == 1.0
  {
    var vc := ValueCounts(col);
    assert ArgMax(vc) == 0 && ArgMin(vc) == 0;
    RatioBounds(vc[0].count, vc[0].count);
  }

  /** Null cells never change the distinct-value summary. */
  lemma DistinctValuesIgnoreNulls(col: seq<Value>, k: int)
    ensures DistinctValuesOf(col, k) == DistinctValuesOf(DropNa(col), k)
  {
    var nn := DropNa(col);
    DropNaWithoutNulls(nn);
    var vc1, vc2 := ValueCounts(col), ValueCounts(nn);
    assert |vc1| == |vc2|;
    forall i | 0 <= i < |vc1|
      ensures vc1[i] == vc2[i]
    {
      assert vc1[i].value == vc2[i].value == Unique(nn)[i];
      CountDropNa(col, vc1[i].value);
    }
    assert vc1 == vc2;
  }

  // ---------------------------------------------------------------------------
  // check_if_boolean

  /** What one pass of the scan in `check_if_boolean` does with an entry. */
  datatype Step = Continue | ReturnFalse

  /**
   One entry of the scan: a NaN is skipped, a string makes `np.isnan` raise the
   `TypeError` that is caught as `False`, a number that is not NaN is not a
   `bool` and gives `False`, and a `bool` is skipped.
   */
  function EntryStep(v: Value): (r: Step)
    ensures r == Continue <==> v == Null || v.Bool?
  {
    match v
    case Null => Continue
    case Str(_) => ReturnFalse
    case Num(_) => ReturnFalse
    case Bool(_) => Continue
  }

  /**
   The early-exit scan over the sampled entries: it runs to the end, and the
   loop falls through to `return True`, exactly when every non-null entry is a
   boolean.
   */
  function ScanEntries(entries: seq<Value>): (r: bool)
    ensures r <==> forall v :: v in entries && v != Null ==> v.Bool?
  {
    if entries == [] then true
    else
      assert entries == [entries[0]] + entries[1..];
      if EntryStep(entries[0]) == ReturnFalse then false
      else ScanEntries(entries[1..])
  }

  /**
   `check_if_boolean` on the cells of one column: with more than three distinct
   non-null values it answers `true`; otherwise it scans the (at most four)
   sampled values. The failure of `get_distinct_values` is not caught.
   */
  function IsBooleanColumn(col: seq<Value>): (r: Result<bool>)
    ensures r.Err? <==> !HasNonNull(col)
    ensures r.Err? ==> r.error == ArgmaxOfEmpty
  {
    match DistinctValuesOf(col, 4)
    case Err(e) => Err(e)
    case Ok(dv) => Ok(if dv.count <= 3 then ScanEntries(dv.sample) else true)
  }

  /**
   The exact decision of the heuristic: `true` when there are more than three
   distinct non-null values, and otherwise exactly when every non-null cell is
   a boolean.
   */
  lemma IsBooleanColumnDecision(col: seq<Value>)
    requires HasNonNull(col)
    ensures IsBooleanColumn(col) == Ok(NumDistinct(col) > 3 || forall v :: v in col && v != Null ==> v.Bool?)
  {
    var u := Unique(DropNa(col));
    if |u| <= 3 {
      DistinctSampleComplete(col, 4);
    }
  }

  /**
   A column found boolean either took the high-cardinality branch or has at
   most two distinct values: three distinct values are never all booleans.
   */
  lemma IsBooleanColumnAtMostTwo(col: seq<Value>)
    requires HasNonNull(col)
    ensures IsBooleanColumn(col) == Ok(true) ==> NumDistinct(col) > 3 || NumDistinct(col) <= 2
  {
    IsBooleanColumnDecision(col);
    if forall v :: v in col && v != Null ==> v.Bool? {
      DistinctBoolsAtMostTwo(Unique(DropNa(col)));
    }
  }

  /** Null cells never change the outcome of the boolean heuristic. */
  lemma IsBooleanColumnIgnoresNulls(col: seq<Value>, other: seq<Value>)
    requires DropNa(col) == DropNa(other)
    ensures IsBooleanColumn(col) == IsBooleanColumn(other)
  {
    DistinctValuesIgnoreNulls(col, 4);
    DistinctValuesIgnoreNulls(other, 4);
  }

  // ---------------------------------------------------------------------------
  // is_string_type

  /** The dtype names treated as text. */
  const StringDtypes: seq<string> := ["str", "string", "object"]

  /** `is_string_type`: the dtype name is one of the textual dtypes. */
  function IsStringType(dtype: string): (r: bool)
    ensures r <==> dtype == "str" || dtype == "string" || dtype == "object"
  {
    dtype in StringDtypes
  }

  // ---------------------------------------------------------------------------
  // The data source

  /** `DataframeSource(df)`: the data source wraps the table and never updates it. */
  datatype DataframeSource = DataframeSource(df: DataFrame) {

    /** `columns`: the column names, each once, naming exactly the stored columns. */
    function Columns(): (r: seq<string>)
      ensures NoDups(r)
      ensures forall c :: c in r <==> c in df.data
    {
      df.names
    }

    /** `get_dtype`: the stored dtype name, or a `KeyError` for an unknown column. */
    function GetDtype(column: string): (r: Result<string>)
      ensures r.Ok? <==> column in df.data
      ensures r.Ok? ==> r.value == df.data[column].dtype
      ensures r.Err? ==> r.error == KeyError(column)
    {
      if column in df.data then Ok(df.data[column].dtype) else Err(KeyError(column))
    }

    /** `get_distinct_values` on the named column. */
    function GetDistinctValues(column: string, maxValuesToReturn: int): (r: Result<DistinctValues>)
      ensures r.Ok? <==> column in df.data && HasNonNull(df.data[column].values)
      ensures column !in df.data ==> r == Err(KeyError(column))
      ensures column in df.data && !HasNonNull(df.data[column].values) ==> r == Err(ArgmaxOfEmpty)
      ensures r.Ok? ==> r.value.count <= Len()
    {
      if column in df.data then
        var col := df.data[column].values;
        if HasNonNull(col) then DistinctCount(col, maxValuesToReturn); DistinctValuesOf(col, maxValuesToReturn)
        else DistinctValuesOf(col, maxValuesToReturn)
      else Err(KeyError(column))
    }

    /**
     `get_nonnull_values`: the length of the column's `notnull()` mask, which
     is the number of rows, null cells included.
     */
    function GetNonnullValues(column: string): (r: Result<nat>)
      ensures r.Ok? <==> column in df.data
      ensures r.Ok? ==> r.value == Len()
      ensures r.Err? ==> r.error == KeyError(column)
    {
      if column in df.data then Ok(|df.data[column].values|) else Err(KeyError(column))
    }

    /** `check_if_boolean` on the named column. */
    function CheckIfBoolean(column: string): (r: Result<bool>)
      ensures r.Ok? <==> column in df.data && HasNonNull(df.data[column].values)
      ensures column !in df.data ==> r == Err(KeyError(column))
      ensures column in df.data && !HasNonNull(df.data[column].values) ==> r == Err(ArgmaxOfEmpty)
    {
      if column in df.data then IsBooleanColumn(df.data[column].values) else Err(KeyError(column))
    }

    /** `__len__`: the row count of the table, which every column shares. */
    function Len(): (n: nat)
      ensures forall c :: c in df.data ==> n == |df.data[c].values|
    {
      df.rows
    }

    /**
     The `check_if_boolean` delegate is the heuristic on the stored cells, whose
     exact decision `IsBooleanColumnDecision` states.
     */
    lemma CheckIfBooleanDecision(column: string)
      requires column in df.data && HasNonNull(df.data[column].values)
      ensures var col := df.data[column].values;
        CheckIfBoolean(column) == Ok(NumDistinct(col) > 3 || forall v :: v in col && v != Null ==> v.Bool?)
    {
      IsBooleanColumnDecision(df.data[column].values);
    }

    /**
     `get_nonnull_values` counts the null cells too: it is the number of
     non-null cells plus the number of null cells.
     */
    lemma NonnullValuesCountsNulls(column: string)
      requires column in df.data
      ensures var col := df.data[column].values;
        GetNonnullValues(column) == Ok(|DropNa(col)| + Count(col, Null))
    {
      DropNaSplit(df.data[column].values);
    }
  }

  /** Every cell is either kept by `dropna` or is a null. */
  lemma {:induction false} DropNaSplit(col: seq<Value>)
    ensures |DropNa(col)| + Count(col, Null) == |col|
  {
    if col != [] {
      DropNaSplit(col[1..]);
    }
  }

  // ---------------------------------------------------------------------------
  // Examples

  /** The column `[True, False, True, null]`: two distinct values, counts 2 and 1, so balance 1/2. */
  lemma FlagColumnExample()
    ensures DistinctValuesOf([Bool(true), Bool(false), Bool(true), Null], 4)
      == Ok(DistinctValues(2, [Bool(true), Bool(false)], 0.5))
  {
    var col := [Bool(true), Bool(false), Bool(true), Null];
    var u := [Bool(true), Bool(false)];
    FlagDropNa();
    FlagUnique();
    FlagValueCounts();
    var vc := [Counted(Bool(true), 2), Counted(Bool(false), 1)];
    assert ArgMax(vc) == 0 by {
      assert vc[1..] == [Counted(Bool(false), 1)];
    }
    assert ArgMin(vc) == 1 by {
      assert vc[1..] == [Counted(Bool(false), 1)];
    }
    assert Head(u, 4) == u by {
      assert u[..2] == u;
    }
    assert 1 as real / 2 as real == 0.5;
  }

  /** The non-null cells of the flag column. */
  lemma FlagDropNa()
    ensures DropNa([Bool(true), Bool(false), Bool(true), Null]) == [Bool(true), Bool(false), Bool(true)]
  {
    var col := [Bool(true), Bool(false), Bool(true), Null];
    assert col[1..][1..][1..] == [Null];
    assert DropNa([Null]) == [];
  }

  /** The flag column is found boolean. */
  lemma FlagColumnIsBoolean()
    ensures IsBooleanColumn([Bool(true), Bool(false), Bool(true), Null]) == Ok(true)
  {
    FlagColumnExample();
    assert ScanEntries([Bool(true), Bool(false)]);
  }

  /** `value_counts()` of the flag column. */
  lemma FlagValueCounts()
    ensures ValueCounts([Bool(true), Bool(false), Bool(true), Null])
      == [Counted(Bool(true), 2), Counted(Bool(false), 1)]
  {
    var col := [Bool(true), Bool(false), Bool(true), Null];
    FlagDropNa();
    FlagUnique();
    assert Count(col, Bool(true)) == 2 && Count(col, Bool(false)) == 1;
  }

  /** The distinct values of `[True, False, True]`, in order of first appearance. */
  lemma FlagUnique()
    ensures Unique([Bool(true), Bool(false), Bool(true)]) == [Bool(true), Bool(false)]
  {
    UniqueSnoc([], Bool(true));
    UniqueSnoc([Bool(true)], Bool(false));
    UniqueSnoc([Bool(true), Bool(false)], Bool(true));
    assert [Bool(true)] == [] + [Bool(true)];
    assert [Bool(true), Bool(false)] == [Bool(true)] + [Bool(false)];
    assert [Bool(true), Bool(false), Bool(true)] == [Bool(true), Bool(false)] + [Bool(true)];
  }

  /** A string among the values makes the column non-boolean. */
  lemma MixedColumnExample()
    ensures IsBooleanColumn([Bool(true), Bool(false), Str("yes")]) == Ok(false)
  {
    var col := [Bool(true), Bool(false), Str("yes")];
    DropNaWithoutNulls(col);
    IsBooleanColumnDecision(col);
    assert Str("yes") in col;
  }

  /** Four distinct strings take the high-cardinality branch and give `true`. */
  lemma HighCardinalityExample()
    ensures IsBooleanColumn([Str("a"), Str("b"), Str("c"), Str("d")]) == Ok(true)
  {
    var col := [Str("a"), Str("b"), Str("c"), Str("d")];
    assert NoDups(col);
    DropNaWithoutNulls(col);
    UniqueOfDistinct(col);
    IsBooleanColumnDecision(col);
  }

  /** `object` is a string dtype and `int64` is not. */
  lemma StringTypeExample()
    ensures IsStringType("object") && !IsStringType("int64")
  {
  }
}
