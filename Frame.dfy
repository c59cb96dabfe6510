/** The data frame the script works on, and the one in-place column rewrite
    it performs: turning the target column into 1 for 'yes' and 0 otherwise. */
module Frame {
  import opened Wrappers

  /** A cell as the frame holds it: text read from the file, or a whole number
      written back by the script. */
  datatype Value = Text(s: string) | Num(n: int)

  /** One column, one cell per row; `None` is a missing (NaN) cell. */
  type Column = seq<Option<Value>>

  /** The per-cell rule `1 if x == 'yes' else 0` on a present cell: only the
      exact text 'yes' compares equal; a number never does. */
  function YesToOne(v: Value): int {
    if v == Text("yes") then 1 else 0
  }

  /** `df[target].apply(lambda x: ...)` on a column of the `category` dtype
      (every column is converted to it before the target is binarised):
      pandas maps the categories only, so a missing cell stays missing. */
  function ApplyYes(col: Column): (r: Column)
    ensures |r| == |col|
    ensures forall i :: 0 <= i < |col| ==> (r[i].None? <==> col[i].None?)
    ensures forall i :: 0 <= i < |col| && col[i].Some? ==> r[i] == Some(Num(YesToOne(col[i].value)))
    ensures forall i :: 0 <= i < |col| ==> r[i] in {None, Some(Num(0)), Some(Num(1))}
  {
    if col == [] then []
    else [if col[0].None? then None else Some(Num(YesToOne(col[0].value)))] + ApplyYes(col[1..])
  }

  /** The first missing cell of `col` from index `k` on. */
  function FirstMissing(col: Column, k: nat): (r: Option<nat>)
    requires k <= |col|
    ensures r.Some? ==>
      && k <= r.value < |col| && col[r.value].None?
      && forall i :: k <= i < r.value ==> col[i].Some?
    ensures r.None? ==> forall i :: k <= i < |col| ==> col[i].Some?
    decreases |col| - k
  {
    if k == |col| then None
    else if col[k].None? then Some(k)
    else FirstMissing(col, k + 1)
  }

  /** `.astype('int')` on a column whose present cells are numbers: a missing
      cell cannot become an integer and raises ValueError (reported here at
      the first missing row); otherwise the column is unchanged. */
  function AsInt(col: Column): (r: Result<Column, nat>)
    ensures r.Err? <==> exists i :: 0 <= i < |col| && col[i].None?
    ensures r.Err? ==>
      && r.error < |col| && col[r.error].None?
      && forall i :: 0 <= i < r.error ==> col[i].Some?
    ensures r.Ok? ==> r.value == col
  {
    match FirstMissing(col, 0)
    case Some(i) => Err(i)
    case None => Ok(col)
  }

  /** `df[target].apply(lambda x: 1 if x == 'yes' else 0).astype('int')`:
      fails exactly when the column has a missing cell, at the first one;
      otherwise cell i becomes 1 when it is the text 'yes' and 0 when it is
      anything else. */
  function Binarize(col: Column): (r: Result<Column, nat>)
    ensures r.Err? <==> exists i :: 0 <= i < |col| && col[i].None?
    ensures r.Err? ==>
      && r.error < |col| && col[r.error].None?
      && forall i :: 0 <= i < r.error ==> col[i].Some?
    ensures r.Ok? ==>
      && |r.value| == |col|
      && forall i :: 0 <= i < |col| ==> r.value[i] == Some(Num(if col[i] == Some(Text("yes")) then 1 else 0))
  {
    AsInt(ApplyYes(col))
  }

  /** The mapped column has as many 1s as the column has 'yes' cells, as
      many missing cells as before, and 0 for all the other cells. */
  lemma ApplyYesCounts(col: Column)
    ensures multiset(ApplyYes(col))[Some(Num(1))] == multiset(col)[Some(Text("yes"))]
    ensures multiset(ApplyYes(col))[None] == multiset(col)[None]
    ensures multiset(ApplyYes(col))[Some(Num(0))] == |col| - multiset(col)[Some(Text("yes"))] - multiset(col)[None]
  {
    ApplyYesOnes(col);
    ApplyYesMissing(col);
    ApplyYesZeros(col);
  }

  /** Each 'yes' cell becomes one 1, and nothing else does. */
  lemma {:induction false} ApplyYesOnes(col: Column)
    ensures multiset(ApplyYes(col))[Some(Num(1))] == multiset(col)[Some(Text("yes"))]
  {
    if col != [] {
      ApplyYesOnes(col[1..]);
      assert ApplyYes(col)[1..] == ApplyYes(col[1..]);
      MultisetHead(col, Some(Text("yes")));
      MultisetHead(ApplyYes(col), Some(Num(1)));
    }
  }

  /** `apply` neither fills nor creates missing cells. */
  lemma {:induction false} ApplyYesMissing(col: Column)
    ensures multiset(ApplyYes(col))[None] == multiset(col)[None]
  {
    if col != [] {
      ApplyYesMissing(col[1..]);
      assert ApplyYes(col)[1..] == ApplyYes(col[1..]);
      MultisetHead(col, None);
      MultisetHead(ApplyYes(col), None);
    }
  }

  /** Every present cell that is not 'yes' becomes a 0. */
  lemma {:induction false} ApplyYesZeros(col: Column)
    ensures multiset(ApplyYes(col))[Some(Num(0))] + multiset(col)[Some(Text("yes"))] + multiset(col)[None] == |col|
  {
    if col != [] {
      ApplyYesZeros(col[1..]);
      assert ApplyYes(col)[1..] == ApplyYes(col[1..]);
      MultisetHead(col, Some(Text("yes")));
      MultisetHead(col, None);
      MultisetHead(ApplyYes(col), Some(Num(0)));
      if col[0] == None {
        assert ApplyYes(col)[0] == None;
      } else if col[0] == Some(Text("yes")) {
        assert ApplyYes(col)[0] == Some(Num(1));
      } else {
        assert ApplyYes(col)[0] == Some(Num(0));
      }
    }
  }

  /** How often `k` occurs in `s` is how often it occurs after the head, plus
      one when the head is `k`. */
  lemma MultisetHead<T>(s: seq<T>, k: T)
    requires s != []
    ensures multiset(s)[k] == multiset(s[1..])[k] + (if s[0] == k then 1 else 0)
  {
    assert s == [s[0]] + s[1..];
  }

  /** Binarising an already binarised column succeeds and turns every cell
      into 0: the cells now hold numbers, and no number equals 'yes'. */
  lemma BinarizeTwiceIsAllZero(col: Column)
    requires Binarize(col).Ok?
    ensures Binarize(Binarize(col).value).Ok?
    ensures forall i :: 0 <= i < |col| ==> Binarize(Binarize(col).value).value[i] == Some(Num(0))
  {
  }

  /** Why the target column could not be binarised: the frame has no such
      column, or a cell at `row` is missing and cannot be cast to an integer. */
  datatype BinarizeError = KeyError(column: string) | NaNToInt(row: nat)

  /** The columns that `names` pick out of `columns`, in the order of `names`. */
  function Select(columns: map<string, Column>, names: seq<string>): (cols: seq<Column>)
    requires forall i :: 0 <= i < |names| ==> names[i] in columns
    ensures |cols| == |names|
    ensures forall i :: 0 <= i < |names| ==> cols[i] == columns[names[i]]
  {
    if names == [] then [] else [columns[names[0]]] + Select(columns, names[1..])
  }

  /** A frame: ordered column names and the column each name holds, all of
      one length. */
  class DataFrame {
    var names: seq<string>
    var columns: map<string, Column>
    var rows: nat

    ghost predicate Valid()
      reads this
    {
      && (forall i, j :: 0 <= i < j < |names| ==> names[i] != names[j])
      && (forall n :: n in columns <==> n in names)
      && (forall n :: n in columns ==> |columns[n]| == rows)
    }

    constructor (names: seq<string>, columns: map<string, Column>, rows: nat)
      requires forall i, j :: 0 <= i < j < |names| ==> names[i] != names[j]
      requires forall n :: n in columns <==> n in names
      requires forall n :: n in columns ==> |columns[n]| == rows
      ensures Valid()
      ensures this.names == names && this.columns == columns && this.rows == rows
    {
      this.names := names;
      this.columns := columns;
      this.rows := rows;
    }

    /** The columns in frame order. */
    function OrderedColumns(): (cols: seq<Column>)
      reads this
      requires Valid()
      ensures |cols| == |names|
      ensures forall i :: 0 <= i < |names| ==> cols[i] == columns[names[i]] && |cols[i]| == rows
    {
      assert forall i :: 0 <= i < |names| ==> names[i] in columns;
      Select(columns, names)
    }

    /** `df[target] = df[target].apply(...).astype('int')`: overwrite the
        target column with its binarised form. A name the frame does not
        hold raises KeyError, and a missing cell in the column raises
        ValueError in the cast; either way the frame is left as it was. */
    method BinarizeColumn(target: string) returns (err: Option<BinarizeError>)
      requires Valid()
      modifies this
      ensures Valid()
      ensures names == old(names) && rows == old(rows)
      ensures target !in old(columns) ==> err == Some(KeyError(target)) && columns == old(columns)
      ensures target in old(columns) && Binarize(old(columns)[target]).Ok? ==>
        err.None? && columns == old(columns)[target := Binarize(old(columns)[target]).value]
      ensures target in old(columns) && Binarize(old(columns)[target]).Err? ==>
        err == Some(NaNToInt(Binarize(old(columns)[target]).error)) && columns == old(columns)
    {
      if target !in columns {
        return Some(KeyError(target));
      }
      var r := Binarize(columns[target]);
      if r.Err? {
        return Some(NaNToInt(r.error));
      }
      columns := columns[target := r.value];
      err := None;
    }
  }
}
