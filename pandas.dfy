/**
 The dataframe primitives that the profiling data source relies on, stated over
 an abstract column: a column is a sequence of cell values, and `dropna`,
 `unique`, `value_counts`, `idxmax`/`idxmin` and the slice `[:k]` become
 functions over that sequence.
 */
module Pandas {

  /** One cell of a column. `Null` stands for both a missing value (None) and NaN. */
  datatype Value = Null | Bool(b: bool) | Num(n: int) | Str(s: string)

  /** No element occurs twice. */
  predicate NoDups<T(==)>(s: seq<T>) {
    forall i, j :: 0 <= i < j < |s| ==> s[i] != s[j]
  }

  /** The set of elements of a sequence. */
  function Elements<T>(s: seq<T>): set<T> {
    set x | x in s
  }

  // ---------------------------------------------------------------------------
  // dropna

  /** `Series.dropna()`: the column with every null cell removed, the other cells in their order. */
  function DropNa(s: seq<Value>): (r: seq<Value>)
    ensures |r| <= |s|
    ensures Null !in r
    ensures forall v :: v in r <==> v in s && v != Null
  {
    if s == [] then []
    else if s[0] == Null then DropNa(s[1..])
    else [s[0]] + DropNa(s[1..])
  }

  /** Dropping nulls from a column that has none leaves it as it is. */
  lemma {:induction false} DropNaWithoutNulls(s: seq<Value>)
    requires Null !in s
    ensures DropNa(s) == s
  {
    if s != [] {
      DropNaWithoutNulls(s[1..]);
    }
  }

  /** `dropna` works cell by cell: dropping nulls from two joined pieces joins the pieces' results. */
  lemma {:induction false} DropNaAppend(s: seq<Value>, t: seq<Value>)
    ensures DropNa(s + t) == DropNa(s) + DropNa(t)
  {
    if s != [] {
      DropNaAppend(s[1..], t);
      assert (s + t)[1..] == s[1..] + t;
    } else {
      assert s + t == t;
    }
  }

  // ---------------------------------------------------------------------------
  // counting

  /** Number of cells of `s` equal to `v`. */
  function Count<T(==)>(s: seq<T>, v: T): (n: nat)
    ensures n <= |s|
    ensures n > 0 <==> v in s
  {
    if s == [] then 0
    else (if s[0] == v then 1 else 0) + Count(s[1..], v)
  }

  /** Dropping nulls does not change how often a non-null value occurs. */
  lemma {:induction false} CountDropNa(s: seq<Value>, v: Value)
    requires v != Null
    ensures Count(DropNa(s), v) == Count(s, v)
  {
    if s != [] {
      CountDropNa(s[1..], v);
      if s[0] != Null {
        assert ([s[0]] + DropNa(s[1..]))[1..] == DropNa(s[1..]);
      }
    }
  }

  // ---------------------------------------------------------------------------
  // unique

  /**
   `Series.unique()`: the distinct values of `s` in order of first appearance.
   Defined on the last element, so that the result of a prefix is a prefix of
   the result.
   */
  function Unique(s: seq<Value>): (r: seq<Value>)
    ensures NoDups(r)
    ensures forall v :: v in r <==> v in s
    ensures |r| <= |s|
    decreases |s|
  {
    if s == [] then []
    else
      var init := s[..|s| - 1];
      var x := s[|s| - 1];
      assert s == init + [x];
      var u := Unique(init);
      if x in u then u else u + [x]
  }

  /** Appending a cell adds its value at the end of `Unique` unless it was already seen. */
  lemma UniqueSnoc(s: seq<Value>, x: Value)
    ensures Unique(s + [x]) == if x in Unique(s) then Unique(s) else Unique(s) + [x]
  {
    assert (s + [x])[..|s|] == s;
  }

  /** A column without repeated values is its own `Unique`. */
  lemma {:induction false} UniqueOfDistinct(s: seq<Value>)
    requires NoDups(s)
    ensures Unique(s) == s
  {
    if s != [] {
      var init := s[..|s| - 1];
      assert NoDups(init) by {
        forall i, j | 0 <= i < j < |init|
          ensures init[i] != init[j]
        {
          assert init[i] == s[i] && init[j] == s[j];
        }
      }
      UniqueOfDistinct(init);
      assert forall i :: 0 <= i < |init| ==> init[i] == s[i] != s[|s| - 1];
      assert s == init + [s[|s| - 1]];
    }
  }

  /** Position of the first occurrence of `v` in `s`. */
  function FirstIndex<T(==)>(s: seq<T>, v: T): (k: nat)
    requires v in s
    ensures k < |s| && s[k] == v && v !in s[..k]
  {
    if s[0] == v then 0
    else
      var k := FirstIndex(s[1..], v);
      assert s[..k + 1] == [s[0]] + s[1..][..k];
      k + 1
  }

  /** The first occurrence is the only position `k` with `s[k] == v` and no `v` before it. */
  lemma FirstIndexUnique<T>(s: seq<T>, v: T, k: nat)
    requires k < |s| && s[k] == v && v !in s[..k]
    ensures FirstIndex(s, v) == k
  {
    var f := FirstIndex(s, v);
    assert forall i :: 0 <= i < k ==> s[..k][i] == s[i];
    assert forall i :: 0 <= i < f ==> s[..f][i] == s[i];
  }

  /** Appending cells does not move the first occurrence of a value already present. */
  lemma FirstIndexAppend<T>(s: seq<T>, x: T, v: T)
    requires v in s
    ensures FirstIndex(s + [x], v) == FirstIndex(s, v)
  {
    var k := FirstIndex(s, v);
    assert (s + [x])[..k] == s[..k];
    FirstIndexUnique(s + [x], v, k);
  }

  /**
   `dropna` keeps the order of the cells: of two non-null values, the one that
   first occurs earlier after dropping nulls also first occurs earlier before.
   */
  lemma {:induction false} DropNaKeepsOrder(s: seq<Value>, v: Value, w: Value)
    requires v in DropNa(s) && w in DropNa(s)
    requires FirstIndex(DropNa(s), v) < FirstIndex(DropNa(s), w)
    ensures FirstIndex(s, v) < FirstIndex(s, w)
  {
    var t := s[1..];
    if s[0] == Null {
      DropNaKeepsOrder(t, v, w);
    } else if s[0] != v {
      var d := DropNa(s);
      assert d == [s[0]] + DropNa(t);
      assert d[1..] == DropNa(t);
      assert s[0] != w;
      assert v in DropNa(t) && w in DropNa(t);
      DropNaKeepsOrder(t, v, w);
    }
  }

  /**
   `Unique` lists the values in order of first appearance: a value listed
   earlier first occurs earlier in `s`.
   */
  lemma {:induction false} UniqueFirstAppearance(s: seq<Value>)
    ensures forall i, j :: 0 <= i < j < |Unique(s)| ==>
      FirstIndex(s, Unique(s)[i]) < FirstIndex(s, Unique(s)[j])
  {
    if s != [] {
      var init := s[..|s| - 1];
      var x := s[|s| - 1];
      assert s == init + [x];
      UniqueFirstAppearance(init);
      var u := Unique(init);
      forall v | v in u
        ensures FirstIndex(s, v) == FirstIndex(init, v) < |init|
      {
        FirstIndexAppend(init, x, v);
      }
      if x !in u {
        assert x !in init;
        assert s[..|init|] == init;
        FirstIndexUnique(s, x, |init|);
        var r := u + [x];
        forall i, j | 0 <= i < j < |r|
          ensures FirstIndex(s, r[i]) < FirstIndex(s, r[j])
        {
          assert r[i] in u;
          if j < |u| {
            assert r[j] in u;
          }
        }
      } else {
        forall i, j | 0 <= i < j < |u|
          ensures FirstIndex(s, u[i]) < FirstIndex(s, u[j])
        {
          assert u[i] in u && u[j] in u;
        }
      }
    }
  }

  /** A sequence without duplicates has as many elements as its set of elements. */
  lemma {:induction false} NoDupsCardinality<T>(s: seq<T>)
    requires NoDups(s)
    ensures |Elements(s)| == |s|
  {
    if s != [] {
      var t := s[1..];
      assert NoDups(t) by {
        forall i, j | 0 <= i < j < |t|
          ensures t[i] != t[j]
        {
          assert t[i] == s[i + 1] && t[j] == s[j + 1];
        }
      }
      NoDupsCardinality(t);
      assert forall k :: 0 <= k < |t| ==> t[k] == s[k + 1] != s[0];
      assert Elements(s) == {s[0]} + Elements(t);
    }
  }

  /** Distinct boolean cells number at most two. */
  lemma DistinctBoolsAtMostTwo(u: seq<Value>)
    requires NoDups(u) && forall v :: v in u ==> v.Bool?
    ensures |u| <= 2
  {
    NoDupsCardinality(u);
    var both := {Bool(true), Bool(false)};
    assert Elements(u) <= both;
    assert |both| == 2;
    assert |Elements(u)| <= |both| by {
      assert both == Elements(u) + (both - Elements(u));
    }
  }

  // ---------------------------------------------------------------------------
  // value_counts

  /** One entry of `value_counts()`: a label and how often it occurs. */
  datatype Counted = Counted(value: Value, count: nat)

  /**
   `Series.value_counts()` with its default `dropna=True`: one entry per distinct
   non-null value with its number of occurrences. The entries are listed in
   order of first appearance.
   */
  function ValueCounts(s: seq<Value>): (vc: seq<Counted>)
    ensures |vc| == |Unique(DropNa(s))|
    ensures forall i :: 0 <= i < |vc| ==> vc[i].value != Null && vc[i].count == Count(s, vc[i].value) > 0
    ensures forall v :: v in s && v != Null <==> exists i :: 0 <= i < |vc| && vc[i].value == v
    ensures forall i, j :: 0 <= i < j < |vc| ==> vc[i].value != vc[j].value
  {
    var u := Unique(DropNa(s));
    var vc := seq(|u|, i requires 0 <= i < |u| => Counted(u[i], Count(s, u[i])));
    assert forall i :: 0 <= i < |vc| ==> vc[i].value == u[i];
    assert forall v :: v in s && v != Null ==> v in u;
    vc
  }

  /** Sum of the counts of a `value_counts()` result. */
  function TotalCount(vc: seq<Counted>): nat {
    if vc == [] then 0 else vc[0].count + TotalCount(vc[1..])
  }

  /** Number of cells of `t` whose value is one of `labels`. */
  function CountAmong<T(==)>(t: seq<T>, labels: seq<T>): (n: nat)
    ensures n <= |t|
  {
    if t == [] then 0
    else (if t[0] in labels then 1 else 0) + CountAmong(t[1..], labels)
  }

  /** Counting the cells among `[a] + rest` splits into the cells equal to `a` and the rest. */
  lemma {:induction false} CountAmongCons<T>(t: seq<T>, a: T, rest: seq<T>)
    requires a !in rest
    ensures CountAmong(t, [a] + rest) == Count(t, a) + CountAmong(t, rest)
  {
    if t != [] {
      CountAmongCons(t[1..], a, rest);
    }
  }

  /** When every cell is among the labels, all cells are counted. */
  lemma {:induction false} CountAmongAll<T>(t: seq<T>, labels: seq<T>)
    requires forall x :: x in t ==> x in labels
    ensures CountAmong(t, labels) == |t|
  {
    if t != [] {
      CountAmongAll(t[1..], labels);
    }
  }

  /** The counts of the distinct labels `u[k..]` over the non-null cells, added up. */
  lemma {:induction false} TotalCountSuffix(s: seq<Value>, vc: seq<Counted>, u: seq<Value>, k: nat)
    requires |vc| == |u| && k <= |u| && NoDups(u)
    requires forall i :: 0 <= i < |vc| ==> vc[i].value == u[i] && vc[i].count == Count(s, u[i])
    requires Null !in u
    ensures TotalCount(vc[k..]) == CountAmong(DropNa(s), u[k..])
    decreases |u| - k
  {
    if k == |u| {
      assert vc[k..] == [];
      assert u[k..] == [];
      CountAmongNone(DropNa(s));
    } else {
      TotalCountSuffix(s, vc, u, k + 1);
      assert vc[k..][1..] == vc[k + 1..];
      assert u[k..] == [u[k]] + u[k + 1..];
      var rest := u[k + 1..];
      assert forall j :: 0 <= j < |rest| ==> rest[j] == u[k + 1 + j] != u[k];
      CountAmongCons(DropNa(s), u[k], u[k + 1..]);
      CountDropNa(s, u[k]);
    }
  }

  /** No cell is among an empty list of labels. */
  lemma {:induction false} CountAmongNone<T>(t: seq<T>)
    ensures CountAmong(t, []) == 0
  {
    if t != [] {
      CountAmongNone(t[1..]);
    }
  }

  /** The counts of `value_counts()` add up to the number of non-null cells. */
  lemma ValueCountsTotal(s: seq<Value>)
    ensures TotalCount(ValueCounts(s)) == |DropNa(s)|
  {
    var vc := ValueCounts(s);
    var u := Unique(DropNa(s));
    forall i | 0 <= i < |vc|
      ensures vc[i].value == u[i]
    {
      // Both lists are in order of first appearance over the same labels.
      assert vc[i].value == Unique(DropNa(s))[i];
    }
    TotalCountSuffix(s, vc, u, 0);
    assert vc[0..] == vc && u[0..] == u;
    CountAmongAll(DropNa(s), u);
  }

  // ---------------------------------------------------------------------------
  // idxmax / idxmin

  /** `value_counts().idxmax()` as a position: the first entry with the largest count. */
  function ArgMax(vc: seq<Counted>): (i: nat)
    requires |vc| > 0
    ensures i < |vc|
    ensures forall j :: 0 <= j < |vc| ==> vc[j].count <= vc[i].count
    ensures forall j :: 0 <= j < i ==> vc[j].count < vc[i].count
  {
    if |vc| == 1 then 0
    else
      var k := ArgMax(vc[1..]);
      if vc[0].count >= vc[k + 1].count then 0 else k + 1
  }

  /** `value_counts().idxmin()` as a position: the first entry with the smallest count. */
  function ArgMin(vc: seq<Counted>): (i: nat)
    requires |vc| > 0
    ensures i < |vc|
    ensures forall j :: 0 <= j < |vc| ==> vc[i].count <= vc[j].count
    ensures forall j :: 0 <= j < i ==> vc[j].count > vc[i].count
  {
    if |vc| == 1 then 0
    else
      var k := ArgMin(vc[1..]);
      if vc[0].count <= vc[k + 1].count then 0 else k + 1
  }

  // ---------------------------------------------------------------------------
  // slicing

  /**
   The stop index Python uses for the slice `[:k]` of a sequence of length `n`:
   `min(k, n)` for `k >= 0`, and `max(n + k, 0)` for a negative `k`, which counts
   from the end.
   */
  function SliceStop(n: nat, k: int): (m: nat)
    ensures m <= n
  {
    if k >= 0 then (if k < n then k else n)
    else (if n + k > 0 then n + k else 0)
  }

  /** The Python slice `s[:k]`; a negative `k` counts from the end. */
  function Head<T>(s: seq<T>, k: int): (r: seq<T>)
    ensures r <= s
    ensures |r| == SliceStop(|s|, k)
  {
    s[..SliceStop(|s|, k)]
  }
}
