/** The label layout of `plot_horizontal_stacked_bar`: for each categorical
    column, one chart whose rows are the rows of the column's cross-tab
    against the target, and the count texts written beside each bar. The
    cross-tab is an input (one row per category, one count per target
    value); drawing and number formatting are not modelled. */
module StackedBar {
  import opened Wrappers

  /** A cross-tab: row i holds the counts of category i, one per target value. */
  type CrossTab = seq<seq<nat>>

  /** What a text beside a bar reports. */
  datatype Caption =
    | RowTotal(total: nat)            // the target's own chart: the row total
    | NoCount(no: nat)                // "No(...)": the count in target column 0
    | YesCount(yes: nat)              // "yes(...)": the count in target column 1
    | NoYesPair(no: nat, yes: nat)    // "No(...), yes(...)" on one line

  /** A text at data coordinates: `x` along the count axis, `y` the row
      position in hundredths of a row. */
  datatype Text = Text(caption: Caption, x: nat, y: int)

  /** `crosstab.iloc[i, 1]` (or `[i, 0]`) on a row that lacks that target
      column raises IndexError; this names the chart and the row. */
  datatype LayoutError = MissingTargetColumn(column: string, row: nat)

  /** Gap between a bar's end and its text, in counts. */
  const LabelGap: nat := 5000

  /** Fewest rows for which the No/yes pair is written on one line. */
  const ManyCategories: nat := 6

  /** Vertical offset of the split No/yes texts, in hundredths of a row. */
  const SplitOffset: int := 15

  function Sum(row: seq<nat>): nat {
    if row == [] then 0 else row[0] + Sum(row[1..])
  }

  /** The texts written for row `i` of a chart. */
  function RowTexts(isTarget: bool, many: bool, i: nat, row: seq<nat>): seq<Text>
    requires isTarget || |row| >= 2
  {
    var x := Sum(row) + LabelGap;
    if isTarget then [Text(RowTotal(Sum(row)), x, 100 * i)]
    else if many then [Text(NoYesPair(row[0], row[1]), x, 100 * i)]
    else [Text(NoCount(row[0]), x, 100 * i + SplitOffset), Text(YesCount(row[1]), x, 100 * i - SplitOffset)]
  }

  /** The texts of rows 0 .. n-1, in the order they are written. */
  function TextsOfRows(isTarget: bool, many: bool, tab: CrossTab, n: nat): seq<Text>
    requires n <= |tab|
    requires isTarget || forall i :: 0 <= i < n ==> |tab[i]| >= 2
  {
    if n == 0 then [] else TextsOfRows(isTarget, many, tab, n - 1) + RowTexts(isTarget, many, n - 1, tab[n - 1])
  }

  /** The first row, from `k` on, that has fewer than two target columns. */
  function FirstNarrowRow(tab: CrossTab, k: nat): (r: Option<nat>)
    requires k <= |tab|
    ensures r.Some? ==>
      && k <= r.value < |tab| && |tab[r.value]| < 2
      && forall i :: k <= i < r.value ==> |tab[i]| >= 2
    ensures r.None? ==> forall i :: k <= i < |tab| ==> |tab[i]| >= 2
    decreases |tab| - k
  {
    if k == |tab| then None
    else if |tab[k]| < 2 then Some(k)
    else FirstNarrowRow(tab, k + 1)
  }

  /** Texts per row: one on the target's own chart, one when the pair fits
      on a line, two otherwise. */
  function TextsPerRow(isTarget: bool, rows: nat): nat {
    if isTarget || rows >= ManyCategories then 1 else 2
  }

  /** The texts of one chart: all rows' texts, or the row where a non-target
      chart fails because a target column is missing. */
  function ChartTexts(column: string, isTarget: bool, tab: CrossTab): (r: Result<seq<Text>, LayoutError>)
    ensures r.Err? <==> !isTarget && exists i :: 0 <= i < |tab| && |tab[i]| < 2
    ensures r.Err? ==>
      && r.error.column == column && r.error.row < |tab| && |tab[r.error.row]| < 2
      && forall i :: 0 <= i < r.error.row ==> |tab[i]| >= 2
  {
    var many := |tab| >= ManyCategories;
    if isTarget then Ok(TextsOfRows(true, many, tab, |tab|))
    else match FirstNarrowRow(tab, 0)
      case Some(i) => Err(MissingTargetColumn(column, i))
      case None => Ok(TextsOfRows(false, many, tab, |tab|))
  }

  /** The inner loop of `plot_horizontal_stacked_bar` for one column: walk the
      cross-tab's rows and write each row's texts. */
  method LayoutChart(column: string, isTarget: bool, tab: CrossTab) returns (r: Result<seq<Text>, LayoutError>)
    ensures r == ChartTexts(column, isTarget, tab)
  {
    var many := |tab| >= ManyCategories;
    var texts: seq<Text> := [];
    for i := 0 to |tab|
      invariant isTarget || forall k :: 0 <= k < i ==> |tab[k]| >= 2
      invariant texts == TextsOfRows(isTarget, many, tab, i)
    {
      var total := Sum(tab[i]);
      var x := total + LabelGap;
      if isTarget {
        texts := texts + [Text(RowTotal(total), x, 100 * i)];
      } else {
        if |tab[i]| < 2 {
          assert FirstNarrowRow(tab, 0) == Some(i);
          return Err(MissingTargetColumn(column, i));
        }
        if many {
          texts := texts + [Text(NoYesPair(tab[i][0], tab[i][1]), x, 100 * i)];
        } else {
          texts := texts + [Text(NoCount(tab[i][0]), x, 100 * i + SplitOffset),
                            Text(YesCount(tab[i][1]), x, 100 * i - SplitOffset)];
        }
      }
    }
    return Ok(texts);
  }

  /** What text `j` of a chart with `rows` rows must be: it belongs to row
      `j / TextsPerRow`, is anchored at that row's total plus the gap, and
      on a non-target chart reports column 0 as "No" and column 1 as "yes". */
  predicate PlacedAt(isTarget: bool, tab: CrossTab, texts: seq<Text>, j: nat)
    requires j < |texts|
  {
    var per := TextsPerRow(isTarget, |tab|);
    var i := j / per;
    && i < |tab|
    && texts[j].x == Sum(tab[i]) + LabelGap
    && (isTarget ==> texts[j] == Text(RowTotal(Sum(tab[i])), texts[j].x, 100 * i))
    && (!isTarget ==> |tab[i]| >= 2)
    && (!isTarget && per == 1 ==> texts[j] == Text(NoYesPair(tab[i][0], tab[i][1]), texts[j].x, 100 * i))
    && (!isTarget && per == 2 && j % 2 == 0 ==> texts[j] == Text(NoCount(tab[i][0]), texts[j].x, 100 * i + SplitOffset))
    && (!isTarget && per == 2 && j % 2 == 1 ==> texts[j] == Text(YesCount(tab[i][1]), texts[j].x, 100 * i - SplitOffset))
  }

  lemma {:induction false} TextsOfRowsLayout(isTarget: bool, tab: CrossTab, n: nat)
    requires n <= |tab|
    requires isTarget || forall i :: 0 <= i < n ==> |tab[i]| >= 2
    ensures var texts := TextsOfRows(isTarget, |tab| >= ManyCategories, tab, n);
      && |texts| == n * TextsPerRow(isTarget, |tab|)
      && forall j :: 0 <= j < |texts| ==> PlacedAt(isTarget, tab, texts, j)
  {
    if n > 0 {
      var many := |tab| >= ManyCategories;
      var per := TextsPerRow(isTarget, |tab|);
      TextsOfRowsLayout(isTarget, tab, n - 1);
      var before := TextsOfRows(isTarget, many, tab, n - 1);
      var row := RowTexts(isTarget, many, n - 1, tab[n - 1]);
      var texts := before + row;
      assert |row| == per;
      forall j | 0 <= j < |texts|
        ensures PlacedAt(isTarget, tab, texts, j)
      {
        if j < |before| {
          assert texts[j] == before[j];
          assert PlacedAt(isTarget, tab, before, j);
        } else {
          assert texts[j] == row[j - |before|];
          assert j / per == n - 1 by {
            assert (n - 1) * per <= j < n * per;
          }
          assert per == 2 ==> (j % 2 == 0 <==> j == |before|);
        }
      }
    }
  }

  /** A successful chart has one text per row on the target's own chart,
      one per row when it has at least six rows, two per row otherwise; every
      text sits at its row's total plus 5000, and the No and yes counts come
      from target columns 0 and 1. A cross-tab with no rows gives no texts. */
  lemma ChartLayout(column: string, isTarget: bool, tab: CrossTab)
    requires ChartTexts(column, isTarget, tab).Ok?
    ensures var texts := ChartTexts(column, isTarget, tab).value;
      && |texts| == |tab| * TextsPerRow(isTarget, |tab|)
      && forall j :: 0 <= j < |texts| ==> PlacedAt(isTarget, tab, texts, j)
  {
    TextsOfRowsLayout(isTarget, tab, |tab|);
  }

  /** On a feature's chart, the one-line No/yes layout is used exactly when
      the cross-tab has at least six rows. */
  lemma SingleLineIffMany(column: string, tab: CrossTab)
    requires ChartTexts(column, false, tab).Ok?
    ensures var texts := ChartTexts(column, false, tab).value;
      (exists j :: 0 <= j < |texts| && texts[j].caption.NoYesPair?) <==> |tab| >= ManyCategories
  {
    var texts := ChartTexts(column, false, tab).value;
    ChartLayout(column, false, tab);
    if |tab| >= ManyCategories {
      assert PlacedAt(false, tab, texts, 0);
    } else {
      forall j | 0 <= j < |texts| ensures !texts[j].caption.NoYesPair? {
        assert PlacedAt(false, tab, texts, j);
      }
    }
  }

  /** On a cross-tab whose rows all have the same width, a feature's chart
      fails exactly when it has rows and fewer than two target columns, and
      then at its first row. */
  lemma RectangularFailure(column: string, tab: CrossTab, width: nat)
    requires forall i :: 0 <= i < |tab| ==> |tab[i]| == width
    ensures ChartTexts(column, false, tab).Err? <==> |tab| > 0 && width < 2
    ensures ChartTexts(column, false, tab).Err? ==> ChartTexts(column, false, tab).error.row == 0
  {
  }

  /** `plot_horizontal_stacked_bar(df, categorical_cols, target)`: lay out one
      chart per column in order; the column equal to the target gets the
      totals-only chart. An IndexError stops the loop, after the charts
      already drawn. */
  method LayoutAllCharts(columns: seq<string>, target: string, tabs: seq<CrossTab>)
    returns (charts: seq<seq<Text>>, failure: Option<LayoutError>)
    requires |tabs| == |columns|
    ensures |charts| <= |columns|
    ensures forall k :: 0 <= k < |charts| ==> ChartTexts(columns[k], columns[k] == target, tabs[k]) == Ok(charts[k])
    ensures failure.None? ==> |charts| == |columns|
    ensures failure.Some? ==>
      && |charts| < |columns|
      && ChartTexts(columns[|charts|], columns[|charts|] == target, tabs[|charts|]) == Err(failure.value)
  {
    charts := [];
    for k := 0 to |columns|
      invariant |charts| == k
      invariant forall m :: 0 <= m < k ==> ChartTexts(columns[m], columns[m] == target, tabs[m]) == Ok(charts[m])
    {
      var r := LayoutChart(columns[k], columns[k] == target, tabs[k]);
      if r.Err? {
        return charts, Some(r.error);
      }
      charts := charts + [r.value];
    }
    failure := None;
  }
}
