# Feature-table cleaning of the pediatric appendicitis trainer

This project models, in Dafny, the data-cleaning core of the appendicitis
training tool: `normalizar` (treinadora.py:39-127) and `normalizar_targets`
(treinadora.py:130-150). It also models the rule that the Severity and
Management models train only on rows whose Diagnosis is `appendicitis`
(treinadora.py:29, 34).

A pandas DataFrame is modelled as a value, `Frames.Frame`: a row count and
an ordered list of named columns. Each cell is missing, a number (`real`) or
a text token. Column labels are kept distinct, and each column holds one
cell per row. A boolean mask becomes the increasing list of positions where
it holds (`Frames.Positions`). Selecting by a mask becomes picking those
positions.

`normalizar` runs eight steps, and each one is modelled by the member named:

1. Split the label columns from the features (`Frames.PresentAmong`,
   `Frames.ColumnsNamed`, `Frames.DropColumns`).
2. Drop sparse feature columns (`Treinadora.Dense`). A column is kept when
   its fraction of missing cells is below 0.5.
3. Map the 13 yes/no columns to 1/0 (`Treinadora.MapBinaryColumns`). The
   source loops over a Python set, so the order is arbitrary. This is
   modelled by choosing any remaining element on each pass.
4. Fill gaps:
   - categorical columns get `mode()[0]` (`Treinadora.ImputeMode`);
   - the other columns get `median()` (`Treinadora.ImputeMedian`), after
     `pd.to_numeric` when they are not numeric.
5. `dropna()`, then restrict the label columns to the same rows
   (`Treinadora.CompleteMask`, `Frames.SelectRows`).
6. Fit and apply MinMaxScaler to the numeric columns
   (`Encoding.MinMaxScale`).
7. One-hot encode with `get_dummies(..., drop_first=True)`
   (`Encoding.GetDummies`).
8. Concatenate the features and the labels column-wise.

The loops of the source are methods with loop invariants. Each is proved
equal to a column-wise specification function. `Treinadora.Normalize`
performs the steps one statement at a time and is proved equal to
`Treinadora.Pipeline`, which is defined over `Treinadora.Stage`, the record
of intermediate frames. The module `NormalizarProperties` states what the
pipeline guarantees in terms of those stages and of the input table.

The model fixes these library conventions:

- **`mode()[0]`:** the most frequent present value, the smallest one among
  ties (`Stats.IsMode`). Numbers order by value, text by code point, and
  numbers before text (`CellOrder.Less`).
- **`median()`:** the middle of the sorted numbers, or the mean of the two
  middle ones for an even count. A column with no number has a NaN median,
  and filling with it changes nothing.
- **`pd.to_numeric`:** numbers and missing cells stay as they are, and the
  empty token becomes missing. A token made of an optional sign, digits, and
  optionally a decimal point followed by more digits becomes its value; the
  digits on either side of the point may be absent but not both, so "5.",
  ".5" and "-2.25" convert and "." does not. Any other token makes the call
  raise, and the source then leaves the column unchanged.
- **`isnull().mean()`:** NaN for a table without rows, so every feature
  column is dropped.
- **dtypes:** a column has a numeric dtype when it holds no text token
  (`Frames.NumericDtype`). `dropna()` keeps every column's dtype, so the
  columns `is_numeric_dtype` picks after it are those that were numeric
  after imputation (`Encoding.NumericMask`, taken into
  `Treinadora.Stages.numeric`), even where dropping rows removed every text
  token of some other column.
- **MinMaxScaler:** `(x - min) / (max - min)`, and 0 for a constant
  column, as sklearn does. It scales exactly the columns flagged numeric.
  Fitting raises on zero rows or zero numeric columns
  (`Treinadora.ScalerFitFailed`).
- **`get_dummies`:** one indicator per observed value in sorted order,
  without the first value. Indicator columns follow the remaining columns,
  in the order of the categorical list. Each indicator is named
  `Indicator(column, value)`, for pandas' `column_value`, and holds 1 or 0.

Behaviours of the code that the model keeps:

- **Mode ties:** `mode()[0]` takes the smallest of the tied values.
- **Unexpected yes/no tokens:** a cell of a yes/no column that is neither
  "yes" nor "no" becomes missing, and the median step may fill it later.
- **Errors:** `normalizar` raises nothing of its own. A failed
  `pd.to_numeric` is printed and leaves the column unchanged. The only
  modelled exception that reaches the caller is the ValueError of
  `MinMaxScaler.fit`, on zero rows or zero numeric columns. Opening
  `./models/modelo_normalizador_num.pkl` for writing (treinadora.py:118) can
  also raise, for instance when `./models` is missing or not writable; that
  I/O error is not modelled.
- **Categorical columns and scaling:** the scaler takes every numeric
  column, so a categorical column that happens to be numeric is scaled
  before it is one-hot encoded.

## Model

| member | source | states |
|---|---|---|
| Frames.Positions | treinadora.py:52 | the kept positions are increasing, each one is a position where the mask holds, and every such position is kept |
| Frames.PresentAmongSpec | treinadora.py:47 | a label is in `[c for c in candidates if c in names]` iff it is a candidate and present; every kept label is present |
| Frames.PresentAmongOrder | treinadora.py:47 | the kept labels are the present candidates in the candidates' order |
| CellOrder.Levels | treinadora.py:121 | the categories of a column are strictly sorted, hold no missing marker, and are exactly its present values |
| Stats.Mode | treinadora.py:85 | there is no mode iff every cell is missing; otherwise the result is a present value that is at least as frequent as every other, and the smallest among the tied ones |
| Stats.ModeUnique | treinadora.py:85 | at most one value meets the specification of `mode()[0]`, so the filled value is determined |
| Stats.SortReals | treinadora.py:97 | sorting for the median gives a sorted permutation of the numbers |
| Stats.MedianInRange | treinadora.py:97 | the median lies between the smallest and the largest number, and is one of them for an odd count |
| Stats.ToNumeric | treinadora.py:101 | `pd.to_numeric` succeeds iff every cell converts, and then each output cell is the conversion of its input cell |
| Stats.ParseShowNat | treinadora.py:101 | a rendered whole number, signed or not, converts back to that number |
| Encoding.MapYesNoValues | treinadora.py:71 | `map({'yes': 1, 'no': 0})` yields a numeric column holding only 0, 1 and gaps; a cell is 1 iff it was "yes" and 0 iff it was "no" |
| Encoding.ScaleSeriesSpec | treinadora.py:115-119 | a scaled complete column keeps its label and length; a numeric one lies in [0, 1], its minimum maps to 0, its maximum to 1 when it is not constant, and a constant column is all 0 |
| Encoding.MinMaxScaleShape | treinadora.py:115-119 | each column flagged numeric is scaled on its own and every other column is unchanged; the fitted state lists exactly the labels of the flagged columns, in order, each with the range (minimum, maximum) of that column's numbers, and each scaled column is its input mapped through that range |
| Encoding.NoNumericColumn | treinadora.py:115-117 | the scaler's column list is empty iff no column has a numeric dtype |
| Encoding.IndicatorsLevels | treinadora.py:121 | a column gets an indicator exactly for each observed value other than the first in sorted order, and the indicators come in sorted order of value |
| Encoding.IndicatorsOneHot | treinadora.py:121 | in each row, an indicator is 1 iff its value is the row's value, at most one indicator is 1, and all are 0 iff the row holds the dropped first value |
| Encoding.DecodeIndicators | treinadora.py:121 | the row's categorical value can be read back from its indicators: drop-first loses nothing |
| Treinadora.MapBinaryColumns | treinadora.py:69-71 | the loop over the unordered set of yes/no names gives the same frame whatever order it visits them in: each present listed column mapped, the rest untouched |
| Treinadora.ModeFilledSpec | treinadora.py:83-91 | only gaps change, each into the column's mode; a column with any present value ends without gaps; a column without gaps, or without a present value, is unchanged |
| Treinadora.ModeFilledIdempotent | treinadora.py:83-91 | mode-filling a filled column changes nothing |
| Treinadora.ImputeMode | treinadora.py:82-91 | the loop over the categorical list fills exactly the listed columns, each as `ModeFilled` describes |
| Treinadora.FillMedianSpec | treinadora.py:95-98 | on a numeric column, present cells stay, and every gap becomes the median of the numbers when there are any; otherwise the column is unchanged |
| Treinadora.MedianFilledSpec | treinadora.py:94-110 | a numeric or convertible column comes out numeric, keeps its numbers, turns number tokens into their values, and fills every gap with the median; a column that does not convert is unchanged |
| Treinadora.MedianFilledIdempotent | treinadora.py:94-110 | median-filling a filled column changes nothing |
| Treinadora.MedianFillColumn | treinadora.py:94-110 | one pass of the loop body: a numeric or convertible column comes out numeric, keeps its numbers, turns number tokens into their values and fills every gap with the median of its numbers when it has any; a column `pd.to_numeric` rejects is returned unchanged |
| Treinadora.ImputeMedian | treinadora.py:93-110 | the loop over the non-categorical columns fills exactly those columns, each as `MedianFilled` describes |
| Treinadora.Stage | treinadora.py:46-115 | every intermediate frame is well formed; the steps up to the row drop keep the row count; features and labels end up with as many rows as were kept, and every kept position is an input row; the numeric flags are those of the imputed features, and every flagged column is still numeric after the row drop |
| Treinadora.Normalize | treinadora.py:39-127 | the staged statements compute `Pipeline(df)`: the concatenated table with the fitted scaler, or the MinMaxScaler failure |
| Treinadora.NormalizeTargets | treinadora.py:130-150 | the label columns are mode-filled in the order Diagnosis, Management, Severity; the row count and the labels are unchanged |
| NormalizarProperties.SplitSpec | treinadora.py:46-49 | the label part holds exactly the present labels among Diagnosis, Severity, Management, in that order, each with its input column; the feature part is every other column, in input order |
| NormalizarProperties.DenseColumns | treinadora.py:52 | a column survives the sparse drop iff fewer than half of its cells are missing |
| NormalizarProperties.SparseDropSpec | treinadora.py:51-52 | the surviving features are the dense ones, judged on the raw table before any mapping or filling, in their original order |
| NormalizarProperties.BinaryMappedSpec | treinadora.py:54-71 | in each present yes/no column, "yes" becomes 1, "no" becomes 0 and anything else a gap, with no error; other columns, the labels and the row count are unchanged |
| NormalizarProperties.ModeImputedSpec | treinadora.py:81-91 | only gaps change, each into the mode of its column; unlisted columns, the labels and the row count stay; a listed column with any present value ends without gaps |
| NormalizarProperties.MedianImputedSpec | treinadora.py:93-110 | categorical columns, and columns that neither are numeric nor convert, are unchanged; numbers are kept everywhere; every other column comes out numeric and keeps a gap only if it has no number at all |
| NormalizarProperties.MedianGapsOnlyWithoutNumbers | treinadora.py:96-104 | after median filling, a gap remains only in a column with no number |
| NormalizarProperties.NormalizeTargetsSpec | treinadora.py:139-150 | `normalizar_targets` keeps the row count and the labels, changes no present cell and no other column, fills a gap only with its column's mode, and leaves no gap in a label column that holds any value |
| NormalizarProperties.RowDropSpec | treinadora.py:112-113 | the kept rows are exactly the rows with no gap left, in input order; the remaining features have no gap, and row k of the features and of the labels is input row `kept[k]` |
| NormalizarProperties.NormalizeFailureSpec | treinadora.py:112-117 | the scaler fit fails iff no row is left or no feature column has a numeric dtype after imputation, which `dropna()` keeps |
| NormalizarProperties.EmptyTableFails | treinadora.py:52 | a table without rows always ends in the no-samples failure |
| NormalizarProperties.DummyBlockSpec | treinadora.py:121 | every indicator column belongs to a categorical column, is for one of its observed values other than the first, and holds only 0/1 with one cell per row |
| NormalizarProperties.DummyBlockComplete | treinadora.py:121 | every categorical column gets an indicator for each observed value except the first in sorted order |
| NormalizarProperties.ScaledDummiesBounds | treinadora.py:115-121 | scaling and then one-hot encoding a complete frame leaves only columns with one cell per row and no gap, holding only numbers in [0, 1] when the scaler lists them |
| NormalizarProperties.ScaledDummiesOrder | treinadora.py:121 | after one-hot encoding, the non-categorical columns come first in their order, and every column after them is an indicator of a categorical column |
| NormalizarProperties.NormalizedLabels | treinadora.py:112-126 | the output ends with the present label columns in order, and output row k holds the labels of input row `kept[k]` |
| NormalizarProperties.NormalizedFeatures | treinadora.py:115-126 | every output feature column has one cell per kept row and no gap, and holds only numbers in [0, 1] when the fitted scaler lists it |
| NormalizarProperties.DummyBlockDistinct | treinadora.py:121 | the indicator labels are distinct, and each is based on one of the categorical columns |
| NormalizarProperties.GetDummiesWellFormed | treinadora.py:121 | on plainly labelled columns, `get_dummies` gives a well-formed frame whose plain labels are input labels |
| NormalizarProperties.FeatureNames | treinadora.py:46-52 | every feature label left after the row drop is an input label and not a target label |
| NormalizarProperties.NormalizedWellFormed | treinadora.py:112-126 | a successful run on a plainly labelled table gives a well-formed table: every column has one cell per kept row and no label occurs twice |
| NormalizarProperties.NormalizedColumnOrder | treinadora.py:121-126 | the output features are the surviving non-categorical features in input order, then indicators of surviving categorical features, then the labels |
| NormalizarProperties.AppendicitisSubsetSpec | treinadora.py:29 | the Severity and Management training table keeps every column and exactly the rows whose Diagnosis is "appendicitis", in order; it fails only without a Diagnosis column |

## Left out

- Fetching the dataset with `fetch_ucirepo` (treinadora.py:11-14) is left out: it is a network call into a foreign library, so the model starts from the combined table.
- Writing `df_normalizado.csv` (treinadora.py:17) is file I/O and is not modelled.
- Pickling the scaler to `./models/` (treinadora.py:118) is not modelled either. The fitted state is returned in `Treinadora.Normalized` instead. The error that opening the file raises when `./models` is missing or not writable, in training and at inference alike, is not modelled: every modelled run that gets past the scaler fit succeeds.
- SMOTE balancing, the random forest, the hyper-parameter search, the train/test split and cross-validation (treinadora.py:153-225) are left out: they are opaque library calls that involve randomness.
- The printed diagnostics of failed imputations (treinadora.py:88-91, 106-110, 146-149) are console output. Only their effect, an unchanged column, is modelled.
- All console prompting and all prediction in inferencia.py are left out. The rule that Severity and Management are predicted only for an appendicitis diagnosis (inferencia.py:62-69) is left out too.
- The menus in menu.py and main.py are left out: they are a terminal loop.
- The scaler is refitted on every call, including at inference (inferencia.py:46-48). The model has this behaviour because each `Normalize` fits afresh, but no property compares training with inference.
- IEEE floating point is not modelled. Numbers are `real`, so medians and scaled values are exact, and there is no NaN other than the missing marker.
- Duplicate column labels are excluded by `Frames.WellFormed`. Row labels (the pandas index) are replaced by positions, which is exact for a table with a default index.
- NormalizarProperties.NormalizedWellFormed: indicator labels are the separate constructor `Indicator(base, level)`, while pandas labels an indicator with the string `base + "_" + str(level)`. An input feature whose label already has that form, such as a numeric `Sex_male` next to a `Sex` column holding `male`, gives two output columns named `Sex_male` in pandas (`pd.concat` accepts duplicate labels); the model keeps them apart, so its proof that no label occurs twice does not cover such collisions.
- `df[df['Diagnosis'] == 'appendicitis']` (treinadora.py:29, 34) keeps the original row labels, so its index is not 0..n-1. `Frames.SelectRows` renumbers the rows by position. The rows kept and their order are the same, and nothing modelled reads the labels.
- `normalizar_targets` writes into the caller's frame and returns it. The model returns the updated frame and does not model the aliasing.
- dtypes are reduced to numeric or not, read from a column's cells after imputation, and indicator columns hold 1.0/0.0 rather than booleans.
- Encoding.GetDummies: the levels of a categorical column are sorted with numbers before text. For a column that mixes numbers and text, pandas cannot sort the levels and keeps them in order of first appearance, so the model's order of indicator columns, and the dropped first level, can differ there.
- Treinadora.ImputeMode: for a column that mixes numbers and text, pandas cannot sort the tied modes, but the model breaks such ties by putting numbers before text.
- Stats.ParseNumber: only an optional sign followed by digits with at most one decimal point, and at least one digit, is accepted. Exponents, surrounding whitespace, "inf" and "nan" tokens are rejected, where pandas would accept them.
