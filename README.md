# Heart-disease exploratory analysis: the modellable core

This project models in Dafny the parts of the exploratory-analysis script for
the heart-disease risk dataset that are logic of the script's own rather than
calls into pandas, scikit-learn or matplotlib:

- **`clean_label`** (module `Labels`): the two regular-expression
  substitutions that turn a free-text label into an identifier-like name —
  delete every character outside `[a-zA-Z0-9\s]`, then replace each maximal
  whitespace run by one `_`. `\s` is Python's, so whitespace is every
  character for which `str.isspace()` holds (tab, LF, VT, FF, CR, the
  information separators U+001C–U+001F, space, NEL, no-break space, the
  Unicode space separators, and the line and paragraph separators U+2028
  and U+2029).
- **Target binarisation** (module `Frame`): the frame is a class whose
  `columns` map is updated in place; `BinarizeColumn` overwrites the target
  column with 1 where the cell is exactly the text `'yes'` and 0 where it
  is any other value. By then every column has the `category` dtype (line
  314), and `apply` on a categorical column maps the categories only, so a
  missing cell stays missing and the `astype('int')` cast raises
  ValueError; the model returns that error (and KeyError for an absent
  column) and leaves the frame unchanged.
- **The integer part of `summarize_df` and `value_counts_with_percentage`**
  (module `Profile`): per column, the number of missing cells, the number
  of distinct present values (`nunique` drops missing cells), and the
  per-value counts with the missing cells as a bucket of their own
  (`dropna=False`), largest count first.
- **The label layout of `plot_horizontal_stacked_bar`** (module
  `StackedBar`): the cross-tab of each column against the target is an
  input (one row per category, one count per target value). For each row the
  loop writes, at x = row total + 5000, either the total (the target's own
  chart) or the target-0 ("No") and target-1 ("yes") counts — on one line
  when the cross-tab has at least six rows, otherwise as two texts at
  +0.15 and −0.15 of a row. Positions along the row axis are kept in
  hundredths of a row. A non-target row without a second target column is
  pandas' IndexError, modelled as an error value that stops the loop.

The script defines `plot_horizontal_stacked_bar` twice with identical bodies
(lines 177-222 and 329-374); the model cites the second, which is the one
called.

The unique count of the profile comes from `nunique()`, which does not
count missing cells; the model follows that.

## Model

| member | source | states |
|---|---|---|
| Labels.StripDisallowed | Notebooks/Exploratory_Data_Analysis/Exploratory_data_analysis_script.py:155 | the first substitution keeps only ASCII letters, digits and whitespace and never lengthens the text |
| Labels.StripDisallowedCounts | Notebooks/Exploratory_Data_Analysis/Exploratory_data_analysis_script.py:155 | every ASCII letter, digit and whitespace character occurs in the result as often as in the input; every other character not at all |
| Labels.StripDisallowedAppend | Notebooks/Exploratory_Data_Analysis/Exploratory_data_analysis_script.py:155 | the first substitution acts character by character: on a concatenation it is the concatenation of its results, so what it keeps stays in order |
| Labels.CollapseSpaces | Notebooks/Exploratory_Data_Analysis/Exploratory_data_analysis_script.py:157 | the second substitution never lengthens the text, and its result starts with `_` when the text starts with whitespace, and otherwise with the text's own first character |
| Labels.CollapseSpacesSplit | Notebooks/Exploratory_Data_Analysis/Exploratory_data_analysis_script.py:157 | a character that is not whitespace ends every run before it and starts none after it: the text on either side of it is collapsed separately |
| Labels.CleanLabel | Notebooks/Exploratory_Data_Analysis/Exploratory_data_analysis_script.py:153-158 | the result holds only ASCII letters, ASCII digits and `_`, and is no longer than the input |
| Labels.CleanLabelSplit | Notebooks/Exploratory_Data_Analysis/Exploratory_data_analysis_script.py:155-157 | an ASCII letter or digit of the input stands in the result, unchanged, between the cleaned text before it and the cleaned text after it |
| Labels.CleanLabelGap | Notebooks/Exploratory_Data_Analysis/Exploratory_data_analysis_script.py:155-157 | a stretch of input with no ASCII letter or digit becomes one `_` when it holds whitespace and nothing otherwise; with `CleanLabelSplit` this fixes the result for every input |
| Labels.CleanLabelKeepsAlnum | Notebooks/Exploratory_Data_Analysis/Exploratory_data_analysis_script.py:155-157 | removing `_` from the result gives exactly the input's ASCII letters and digits, in order; no underscore of the input survives |
| Labels.CleanLabelUnderscores | Notebooks/Exploratory_Data_Analysis/Exploratory_data_analysis_script.py:155-157 | the number of `_` in the result equals the number of maximal whitespace runs left after the first substitution |
| Labels.CleanLabelNoDoubleUnderscore | Notebooks/Exploratory_Data_Analysis/Exploratory_data_analysis_script.py:157 | the result never has two adjacent `_` |
| Labels.CleanLabelEdges | Notebooks/Exploratory_Data_Analysis/Exploratory_data_analysis_script.py:155-157 | no trimming: the result is empty iff the stripped input is, and starts (ends) with `_` iff the stripped input starts (ends) with whitespace |
| Labels.CleanLabelTwice | Notebooks/Exploratory_Data_Analysis/Exploratory_data_analysis_script.py:155-157 | applying `clean_label` twice gives the input filtered to ASCII letters and digits |
| Labels.CleanLabelAround | Notebooks/Exploratory_Data_Analysis/Exploratory_data_analysis_script.py:155-157 | between two letters or digits a space becomes `_` and an underscore disappears |
| Labels.CleanLabelNotIdempotent | Notebooks/Exploratory_Data_Analysis/Exploratory_data_analysis_script.py:155-157 | not idempotent: for any letters or digits a and b, `"a b"` cleans to `"a_b"`, which cleans to `"ab"` |
| Frame.ApplyYes | Notebooks/Exploratory_Data_Analysis/Exploratory_data_analysis_script.py:650 | `apply` on the categorical target keeps the length and the missing cells, and maps a present cell to 1 when it is the text `'yes'` and to 0 otherwise, so every cell afterwards is 0, 1 or missing |
| Frame.ApplyYesCounts | Notebooks/Exploratory_Data_Analysis/Exploratory_data_analysis_script.py:650 | after `apply` there are as many 1s as `'yes'` cells, as many missing cells as before, and 0s for all the remaining cells |
| Frame.ApplyYesOnes | Notebooks/Exploratory_Data_Analysis/Exploratory_data_analysis_script.py:650 | the number of 1s after `apply` equals the number of `'yes'` cells before it |
| Frame.ApplyYesMissing | Notebooks/Exploratory_Data_Analysis/Exploratory_data_analysis_script.py:650 | `apply` leaves the number of missing cells unchanged |
| Frame.ApplyYesZeros | Notebooks/Exploratory_Data_Analysis/Exploratory_data_analysis_script.py:650 | the 0s after `apply`, the `'yes'` cells and the missing cells together account for every row |
| Frame.AsInt | Notebooks/Exploratory_Data_Analysis/Exploratory_data_analysis_script.py:650 | `astype('int')` fails exactly when a cell is missing, at the first one, and otherwise leaves the column as it is |
| Frame.Binarize | Notebooks/Exploratory_Data_Analysis/Exploratory_data_analysis_script.py:650 | fails exactly when the column has a missing cell, at the first one; otherwise same length, cell i is 1 exactly when it is the text `'yes'` and 0 otherwise |
| Frame.BinarizeTwiceIsAllZero | Notebooks/Exploratory_Data_Analysis/Exploratory_data_analysis_script.py:650 | binarising an already binarised column succeeds and yields all zeros, since no number equals `'yes'` |
| Frame.DataFrame.BinarizeColumn | Notebooks/Exploratory_Data_Analysis/Exploratory_data_analysis_script.py:650 | the target column is replaced by its binarised form, every other column, the names and the row count unchanged; an absent column (KeyError) or a missing cell (ValueError in the cast) is reported and changes nothing |
| Frame.DataFrame.OrderedColumns | Notebooks/Exploratory_Data_Analysis/Exploratory_data_analysis_script.py:138-148 | the frame's columns in `df.columns` order, each of the frame's row count |
| Profile.MissingCountIsMultiplicity | Notebooks/Exploratory_Data_Analysis/Exploratory_data_analysis_script.py:142 | `isnull().sum()` is the number of missing cells of the column |
| Profile.Present | Notebooks/Exploratory_Data_Analysis/Exploratory_data_analysis_script.py:142 | present cells plus missing cells add up to the column length, and the present values are exactly the values of the present cells |
| Profile.DistinctCount | Notebooks/Exploratory_Data_Analysis/Exploratory_data_analysis_script.py:138 | the distinct present values number at most the present cells |
| Profile.DistinctCountIsSetSize | Notebooks/Exploratory_Data_Analysis/Exploratory_data_analysis_script.py:138 | `nunique` equals the size of the set of present values |
| Profile.Summarize | Notebooks/Exploratory_Data_Analysis/Exploratory_data_analysis_script.py:137-148 | 0 ≤ missing_count ≤ rows, unique_count ≤ rows − missing_count, and unique_count is 0 exactly when every cell is missing |
| Profile.SummarizeAll | Notebooks/Exploratory_Data_Analysis/Exploratory_data_analysis_script.py:125-150 | one profile per column, profile i being the summary of column i, each with the bounds of `Summarize` |
| Profile.SummarizeFrame | Notebooks/Exploratory_Data_Analysis/Exploratory_data_analysis_script.py:125-150 | one profile per frame column in `df.columns` order, profile i being the summary of the column named i-th |
| Profile.SortByCount | Notebooks/Exploratory_Data_Analysis/Exploratory_data_analysis_script.py:163 | the value counts are ordered largest count first, are a permutation of the unsorted tally and keep its total |
| Profile.ValueCounts | Notebooks/Exploratory_Data_Analysis/Exploratory_data_analysis_script.py:163 | the value counts come largest count first and add up to the row count |
| Profile.ValueCountsValues | Notebooks/Exploratory_Data_Analysis/Exploratory_data_analysis_script.py:163 | the listed values are exactly the column's values, the missing bucket included when a cell is missing |
| Profile.ValueCountsCounts | Notebooks/Exploratory_Data_Analysis/Exploratory_data_analysis_script.py:163 | each listed count is the number of cells holding that value and is positive |
| Profile.ValueCountsDistinct | Notebooks/Exploratory_Data_Analysis/Exploratory_data_analysis_script.py:163 | no value is listed twice |
| Profile.ValueCountsMissingBucket | Notebooks/Exploratory_Data_Analysis/Exploratory_data_analysis_script.py:163 | the missing bucket is listed exactly when a cell is missing, and its count is the profile's missing count |
| StackedBar.ChartTexts | Notebooks/Exploratory_Data_Analysis/Exploratory_data_analysis_script.py:350-364 | a chart fails exactly when it is not the target's chart and some row lacks a second target column, and then at the first such row |
| StackedBar.LayoutChart | Notebooks/Exploratory_Data_Analysis/Exploratory_data_analysis_script.py:338-364 | the row loop writes exactly the texts of `ChartTexts`, or stops with its error |
| StackedBar.ChartLayout | Notebooks/Exploratory_Data_Analysis/Exploratory_data_analysis_script.py:338-364 | texts per row are 1 for the target's chart, 1 with at least six rows, 2 otherwise (none for an empty cross-tab); each is at its row's total + 5000, at row·100, or +15/−15 when split, with "No" from column 0 and "yes" from column 1 |
| StackedBar.SingleLineIffMany | Notebooks/Exploratory_Data_Analysis/Exploratory_data_analysis_script.py:338-360 | on a feature's chart the one-line No/yes text is used exactly when the cross-tab has at least six rows |
| StackedBar.RectangularFailure | Notebooks/Exploratory_Data_Analysis/Exploratory_data_analysis_script.py:356-357 | for a cross-tab of uniform width, a feature's chart fails exactly when it has rows and fewer than two target columns, at row 0 |
| StackedBar.LayoutAllCharts | Notebooks/Exploratory_Data_Analysis/Exploratory_data_analysis_script.py:333-374 | one chart per column in order, the column equal to the target getting the totals chart; on an error the charts before it are kept and the error is that column's |

## Left out

- Reading the CSV file, `df.head`, `print` and every display call: input and output, not behaviour.
- All drawing: figure size, colours, titles, legend, grid, `set_xlim` (+100000), `tight_layout`, `plt.show`, and the heatmaps; the cross-tab's own bars.
- Building the cross-tab with `pd.crosstab` (a library call; the cross-tab is an input) and the conversion to the `category` dtype itself (line 314): the model keeps cell values as they are and captures the dtype only where it changes behaviour, in the way `apply` leaves missing cells of the target untouched.
- CatBoost encoding, `train_test_split`, `mutual_info_classif` and `.corr()`: library calls with floating-point results and seeded randomness.
- The `/1000` and `:.1f` "K" text formatting, `missing_percentage` and the `Percentage` column: floating-point values.
- The `data_types` column of `summarize_df`: it reports pandas' dtype inference, which is not modelled.
- Profile.SortByCount: pandas does not promise an order among values with equal counts; the model keeps them in first-appearance order.
- Cell values are text, whole numbers or missing; floating-point cells are not modelled.
