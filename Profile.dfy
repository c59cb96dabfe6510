/** The integer part of the column profiler (`summarize_df`) and of
    `value_counts_with_percentage`: missing cells per column, distinct
    present values per column, and per-value counts with the missing cells
    as a bucket of their own. */
module Profile {
  import opened Wrappers
  import Frame


  /** The integer fields of one row of the summary table. */
  datatype ColumnProfile = ColumnProfile(uniqueCount: nat, missingCount: nat)

  /** One row of the value-counts table: a value (`None` for the missing
      bucket) and how many cells hold it. */
  datatype ValueCount = ValueCount(value: Option<Frame.Value>, count: nat)

  /** `col.isnull().sum()`. */
  function MissingCount(col: Frame.Column): nat {
    if col == [] then 0
    else MissingCount(col[..|col| - 1]) + (if col[|col| - 1].None? then 1 else 0)
  }

  /** The present values of `col`, in order. */
  function Present(col: Frame.Column): (vs: seq<Frame.Value>)
    ensures |vs| + MissingCount(col) == |col|
    ensures forall v :: v in vs <==> Some(v) in col
  {
    if col == [] then []
    else
      var p := col[..|col| - 1];
      assert col == p + [col[|col| - 1]];
      Present(p) + (if col[|col| - 1].Some? then [col[|col| - 1].value] else [])
  }

  /** The values of `s` without repetition, in order of first appearance. */
  function Uniques<T(==,!new)>(s: seq<T>): (u: seq<T>)
    ensures |u| <= |s|
    ensures forall x :: x in u <==> x in s
    ensures forall i, j :: 0 <= i < j < |u| ==> u[i] != u[j]
  {
    if s == [] then []
    else
      var p := s[..|s| - 1];
      var x := s[|s| - 1];
      assert s == p + [x];
      var u := Uniques(p);
      if x in u then u else u + [x]
  }

  /** `col.nunique()`: the number of distinct present values (missing cells
      are not counted). It is at most the number of present cells. */
  function DistinctCount(col: Frame.Column): (n: nat)
    ensures n + MissingCount(col) <= |col|
  {
    |Uniques(Present(col))|
  }

  /** The summary row of one column. */
  function Summarize(col: Frame.Column): (p: ColumnProfile)
    ensures p.missingCount <= |col|
    ensures p.uniqueCount <= |col| - p.missingCount
    ensures p.uniqueCount == 0 <==> p.missingCount == |col|
  {
    var u := Uniques(Present(col));
    assert u == [] <==> Present(col) == [] by {
      if Present(col) != [] { assert Present(col)[0] in Present(col); }
    }
    ColumnProfile(DistinctCount(col), MissingCount(col))
  }

  /** `summarize_df(df)`, integer fields: one row per column, each computed
      from its own column alone. */
  function SummarizeAll(cols: seq<Frame.Column>): (ps: seq<ColumnProfile>)
    ensures |ps| == |cols|
    ensures forall i :: 0 <= i < |cols| ==> ps[i] == Summarize(cols[i])
    ensures forall i :: 0 <= i < |cols| ==>
      ps[i].missingCount <= |cols[i]| && ps[i].uniqueCount <= |cols[i]| - ps[i].missingCount
  {
    if cols == [] then [] else [Summarize(cols[0])] + SummarizeAll(cols[1..])
  }

  /** The summary of a frame, in column order: row i is the summary of the
      column named `df.names[i]`. */
  function SummarizeFrame(df: Frame.DataFrame): (ps: seq<ColumnProfile>)
    reads df
    requires df.Valid()
    ensures |ps| == |df.names|
    ensures forall i :: 0 <= i < |ps| ==> df.names[i] in df.columns && ps[i] == Summarize(df.columns[df.names[i]])
    ensures forall i :: 0 <= i < |ps| ==> ps[i].missingCount + ps[i].uniqueCount <= df.rows
  {
    SummarizeAll(df.OrderedColumns())
  }

  /** The distinct present values of `col` are exactly the values some cell
      holds, each once, so their number is the size of that set. */
  lemma DistinctCountIsSetSize(col: Frame.Column)
    ensures DistinctCount(col) == |set i | 0 <= i < |col| && col[i].Some? :: col[i].value|
  {
    var u := Uniques(Present(col));
    var vs := set i | 0 <= i < |col| && col[i].Some? :: col[i].value;
    forall v ensures v in u <==> v in vs {
      if Some(v) in col {
        var i :| 0 <= i < |col| && col[i] == Some(v);
        assert col[i].value in vs;
      }
    }
    DistinctSize(u, vs);
  }

  lemma {:induction false} DistinctSize<T>(u: seq<T>, vs: set<T>)
    requires forall i, j :: 0 <= i < j < |u| ==> u[i] != u[j]
    requires forall v :: v in u <==> v in vs
    ensures |u| == |vs|
  {
    if u != [] {
      var x := u[|u| - 1];
      var p := u[..|u| - 1];
      assert u == p + [x];
      assert x !in p;
      forall v ensures v in p <==> v in vs - {x} {
        if v in p { assert v in u; }
      }
      DistinctSize(p, vs - {x});
    } else {
      assert forall v :: v !in vs;
      assert vs == {};
    }
  }

  /** Every value of `col` paired with the number of cells holding it, in the
      order of `u`. */
  function Tally(u: Frame.Column, col: Frame.Column): (vc: seq<ValueCount>)
    ensures |vc| == |u|
    ensures forall i :: 0 <= i < |u| ==> vc[i] == ValueCount(u[i], multiset(col)[u[i]])
  {
    if u == [] then [] else [ValueCount(u[0], multiset(col)[u[0]])] + Tally(u[1..], col)
  }

  function TotalCount(vc: seq<ValueCount>): nat {
    if vc == [] then 0 else vc[0].count + TotalCount(vc[1..])
  }

  /** Counts do not increase along `vc`. */
  predicate ByCountDescending(vc: seq<ValueCount>) {
    forall i, j :: 0 <= i < j < |vc| ==> vc[i].count >= vc[j].count
  }

  /** Put `e` before the first entry whose count is not larger than its own. */
  function InsertByCount(e: ValueCount, vc: seq<ValueCount>): (r: seq<ValueCount>)
    ensures |r| == |vc| + 1
    ensures r[0] == e || (vc != [] && r[0] == vc[0])
  {
    if vc == [] || vc[0].count <= e.count then [e] + vc
    else [vc[0]] + InsertByCount(e, vc[1..])
  }

  lemma ConsByCount(e: ValueCount, vc: seq<ValueCount>)
    requires ByCountDescending(vc)
    requires vc == [] || vc[0].count <= e.count
    ensures ByCountDescending([e] + vc)
  {
    var r := [e] + vc;
    forall i, j | 0 <= i < j < |r| ensures r[i].count >= r[j].count {
      if i == 0 {
        assert r[j] == vc[j - 1];
        assert vc[0].count >= vc[j - 1].count;
      } else {
        assert r[i] == vc[i - 1] && r[j] == vc[j - 1];
      }
    }
  }

  /** Inserting into a list ordered by count keeps it ordered. */
  lemma {:induction false} InsertByCountOrdered(e: ValueCount, vc: seq<ValueCount>)
    requires ByCountDescending(vc)
    ensures ByCountDescending(InsertByCount(e, vc))
  {
    if vc == [] || vc[0].count <= e.count {
      ConsByCount(e, vc);
    } else {
      var tail := vc[1..];
      assert ByCountDescending(tail) by {
        forall i, j | 0 <= i < j < |tail| ensures tail[i].count >= tail[j].count {
          assert tail[i] == vc[i + 1] && tail[j] == vc[j + 1];
        }
      }
      InsertByCountOrdered(e, tail);
      var rest := InsertByCount(e, tail);
      assert rest[0].count <= vc[0].count by {
        if rest[0] != e { assert rest[0] == vc[1]; }
      }
      ConsByCount(vc[0], rest);
    }
  }

  /** Inserting adds `e` and loses nothing. */
  lemma {:induction false} InsertByCountPermutes(e: ValueCount, vc: seq<ValueCount>)
    ensures multiset(InsertByCount(e, vc)) == multiset(vc) + multiset{e}
    ensures TotalCount(InsertByCount(e, vc)) == e.count + TotalCount(vc)
  {
    if vc == [] || vc[0].count <= e.count {
      assert InsertByCount(e, vc) == [e] + vc;
      assert ([e] + vc)[1..] == vc;
    } else {
      InsertByCountPermutes(e, vc[1..]);
      var rest := InsertByCount(e, vc[1..]);
      assert InsertByCount(e, vc) == [vc[0]] + rest;
      assert ([vc[0]] + rest)[1..] == rest;
      assert vc == [vc[0]] + vc[1..];
    }
  }

  /** Order a tally by count, largest first; entries with equal counts keep
      their order. */
  function SortByCount(vc: seq<ValueCount>): (r: seq<ValueCount>)
    ensures ByCountDescending(r)
    ensures multiset(r) == multiset(vc)
    ensures TotalCount(r) == TotalCount(vc)
  {
    if vc == [] then []
    else
      var rest := SortByCount(vc[1..]);
      InsertByCountOrdered(vc[0], rest);
      InsertByCountPermutes(vc[0], rest);
      SplitFirst(vc);
      InsertByCount(vc[0], rest)
  }

  lemma SplitFirst(vc: seq<ValueCount>)
    requires vc != []
    ensures multiset(vc) == multiset(vc[1..]) + multiset{vc[0]}
    ensures TotalCount(vc) == vc[0].count + TotalCount(vc[1..])
  {
    assert vc == [vc[0]] + vc[1..];
  }

  /** `df[column].value_counts(dropna=False)`: one entry per distinct value,
      missing included, largest count first; the counts add up to the number
      of rows. */
  function ValueCounts(col: Frame.Column): (vc: seq<ValueCount>)
    ensures ByCountDescending(vc)
    ensures TotalCount(vc) == |col|
  {
    TallyCoversColumn(col);
    SortByCount(Tally(Uniques(col), col))
  }

  lemma {:induction false} TallySnoc(u: Frame.Column, p: Frame.Column, x: Option<Frame.Value>)
    requires forall i, j :: 0 <= i < j < |u| ==> u[i] != u[j]
    ensures TotalCount(Tally(u, p + [x])) == TotalCount(Tally(u, p)) + (if x in u then 1 else 0)
  {
    if u != [] {
      TallySnoc(u[1..], p, x);
      assert Tally(u, p + [x])[1..] == Tally(u[1..], p + [x]);
      assert Tally(u, p)[1..] == Tally(u[1..], p);
      assert x in u <==> x == u[0] || x in u[1..];
      assert u[0] !in u[1..];
    }
  }

  lemma {:induction false} TallyAppend(u: Frame.Column, x: Option<Frame.Value>, col: Frame.Column)
    ensures TotalCount(Tally(u + [x], col)) == TotalCount(Tally(u, col)) + multiset(col)[x]
  {
    if u != [] {
      assert (u + [x])[1..] == u[1..] + [x];
      TallyAppend(u[1..], x, col);
      assert Tally(u + [x], col)[1..] == Tally(u[1..] + [x], col);
      assert Tally(u, col)[1..] == Tally(u[1..], col);
    } else {
      assert Tally([x], col)[1..] == [];
    }
  }

  /** Each cell is counted exactly once across the distinct values. */
  lemma {:induction false} TallyCoversColumn(col: Frame.Column)
    ensures TotalCount(Tally(Uniques(col), col)) == |col|
  {
    if col != [] {
      var p := col[..|col| - 1];
      var x := col[|col| - 1];
      assert col == p + [x];
      TallyCoversColumn(p);
      var u := Uniques(p);
      TallySnoc(u, p, x);
      if x !in u {
        TallyAppend(u, x, col);
        assert multiset(col)[x] == 1;
      }
    }
  }

  /** The values listed are exactly the values of the column, the missing
      bucket included when a cell is missing. */
  lemma ValueCountsValues(col: Frame.Column)
    ensures var vc := ValueCounts(col);
      forall v :: v in col <==> exists i :: 0 <= i < |vc| && vc[i].value == v
  {
    var u := Uniques(col);
    var t := Tally(u, col);
    var vc := ValueCounts(col);
    assert multiset(vc) == multiset(t);
    forall v | v in col
      ensures exists i :: 0 <= i < |vc| && vc[i].value == v
    {
      var k :| 0 <= k < |u| && u[k] == v;
      assert t[k] in multiset(t);
      assert t[k] in vc;
    }
    forall i | 0 <= i < |vc|
      ensures vc[i].value in col
    {
      assert vc[i] in multiset(t);
    }
  }

  /** Each value is listed with the number of cells holding it, which is
      never zero. */
  lemma ValueCountsCounts(col: Frame.Column)
    ensures var vc := ValueCounts(col);
      forall i :: 0 <= i < |vc| ==> vc[i].count == multiset(col)[vc[i].value] > 0
  {
    var u := Uniques(col);
    var t := Tally(u, col);
    var vc := ValueCounts(col);
    assert multiset(vc) == multiset(t);
    forall i | 0 <= i < |vc|
      ensures vc[i].count == multiset(col)[vc[i].value] > 0
    {
      assert vc[i] in multiset(t);
      var k :| 0 <= k < |t| && t[k] == vc[i];
      assert u[k] in u;
    }
  }

  /** No value is listed twice. */
  lemma ValueCountsDistinct(col: Frame.Column)
    ensures var vc := ValueCounts(col);
      forall i, j :: 0 <= i < j < |vc| ==> vc[i].value != vc[j].value
  {
    var u := Uniques(col);
    var t := Tally(u, col);
    var vc := ValueCounts(col);
    assert multiset(vc) == multiset(t);
    ValueCountsCounts(col);
    forall i, j | 0 <= i < j < |vc|
      ensures vc[i].value != vc[j].value
    {
      if vc[i].value == vc[j].value {
        assert vc[i] == vc[j];
        RepeatedInMultiset(vc, i, j);
        TallyDistinct(u, col, vc[i]);
      }
    }
  }

  /** `isnull().sum()` counts the occurrences of the missing cell. */
  lemma {:induction false} MissingCountIsMultiplicity(col: Frame.Column)
    ensures MissingCount(col) == multiset(col)[None]
  {
    if col != [] {
      var p := col[..|col| - 1];
      assert col == p + [col[|col| - 1]];
      MissingCountIsMultiplicity(p);
    }
  }

  /** The summary's missing count is the count of the missing bucket of the
      value counts, and that bucket is listed exactly when a cell is missing. */
  lemma ValueCountsMissingBucket(col: Frame.Column)
    ensures var vc := ValueCounts(col);
      (MissingCount(col) > 0 <==> exists i :: 0 <= i < |vc| && vc[i] == ValueCount(None, MissingCount(col)))
  {
    var vc := ValueCounts(col);
    MissingCountIsMultiplicity(col);
    ValueCountsValues(col);
    ValueCountsCounts(col);
    var missing: Option<Frame.Value> := None;
    if MissingCount(col) > 0 {
      assert missing in multiset(col);
      assert missing in col;
      var i :| 0 <= i < |vc| && vc[i].value == missing;
      assert vc[i] == ValueCount(None, MissingCount(col));
    }
  }

  /** An entry that stands at two positions is counted twice. */
  lemma RepeatedInMultiset<T>(s: seq<T>, i: nat, j: nat)
    requires i < j < |s| && s[i] == s[j]
    ensures multiset(s)[s[i]] >= 2
  {
    assert s == s[..j] + [s[j]] + s[j + 1..];
    assert s[..j][i] == s[i];
    assert multiset(s[..j])[s[i]] >= 1;
  }

  /** A tally over distinct values holds each entry at most once. */
  lemma {:induction false} TallyDistinct(u: Frame.Column, col: Frame.Column, e: ValueCount)
    requires forall i, j :: 0 <= i < j < |u| ==> u[i] != u[j]
    ensures multiset(Tally(u, col))[e] <= 1
  {
    if u != [] {
      TallyDistinct(u[1..], col, e);
      var t := Tally(u, col);
      assert t == [t[0]] + Tally(u[1..], col);
      if e == t[0] {
        assert e !in Tally(u[1..], col);
      }
    }
  }
}
