/** The cleaning of the appendicitis table before training: `normalizar`
    (features) and `normalizar_targets` (labels) of treinadora.py, and the
    training subset of the Severity and Management models. */
module Treinadora {
  import opened Frames
  import opened CellOrder
  import opened Stats
  import opened Encoding

  /** The label columns, in the order `normalizar` splits them off. */
  const TARGETS: seq<Name> := [Plain("Diagnosis"), Plain("Severity"), Plain("Management")]

  /** The label columns, in the order `normalizar_targets` fills them. */
  const TARGET_FILL_ORDER: seq<Name> := [Plain("Diagnosis"), Plain("Management"), Plain("Severity")]

  /** The yes/no columns mapped to 1/0 (a Python set: visited in no fixed order). */
  const BINARY_COLUMNS: set<Name> := {
    Plain("Appendix_on_US"), Plain("Migratory_Pain"), Plain("Lower_Right_Abd_Pain"),
    Plain("Contralateral_Rebound_Tenderness"), Plain("Coughing_Pain"), Plain("Nausea"),
    Plain("Loss_of_Appetite"), Plain("Neutrophilia"), Plain("Dysuria"), Plain("Psoas_Sign"),
    Plain("Ipsilateral_Rebound_Tenderness"), Plain("US_Performed"), Plain("Free_Fluids")
  }

  /** The columns filled with their mode and one-hot encoded. */
  const CATEGORICAL: seq<Name> := [
    Plain("Sex"), Plain("Ketones_in_Urine"), Plain("RBC_in_Urine"),
    Plain("WBC_in_Urine"), Plain("Stool"), Plain("Peritonitis")
  ]

  // ---------------------------------------------------------------------
  // Step 2: dropping sparse columns

  /** `isnull().mean() < 0.5`; with no rows the mean is NaN and the test fails. */
  predicate Dense(rows: nat, cells: seq<Cell>)
  {
    rows > 0 && (Count(cells, Missing) as real) / (rows as real) < 0.5
  }

  function DenseMask(f: Frame): seq<bool>
  {
    seq(|f.columns|, j requires 0 <= j < |f.columns| => Dense(f.rows, f.columns[j].cells))
  }

  // ---------------------------------------------------------------------
  // Step 3: the yes/no columns

  function MapBinary(s: Series): Series
  {
    if s.name in BINARY_COLUMNS then Series(s.name, MapYesNoCells(s.cells)) else s
  }

  /** The frame after the yes/no loop: each listed column mapped, the rest as they were. */
  function BinaryMapped(f: Frame): (g: Frame)
    ensures g.rows == f.rows && Names(g.columns) == Names(f.columns)
    ensures WellFormed(f) ==> WellFormed(g)
  {
    Frame(f.rows, seq(|f.columns|, j requires 0 <= j < |f.columns| => MapBinary(f.columns[j])))
  }

  /** Lines 69-71: one pass over the (unordered) set of yes/no columns, each
      present one overwritten with its mapped values. */
  method MapBinaryColumns(f: Frame) returns (g: Frame)
    requires WellFormed(f)
    ensures g == BinaryMapped(f)
  {
    var cols := f.columns;
    var todo := BINARY_COLUMNS;
    while todo != {}
      invariant todo <= BINARY_COLUMNS
      invariant |cols| == |f.columns|
      invariant forall j :: 0 <= j < |cols| ==>
        cols[j] == if f.columns[j].name in BINARY_COLUMNS - todo then MapBinary(f.columns[j]) else f.columns[j]
      decreases todo
    {
      var col :| col in todo;
      assert Names(cols) == Names(f.columns);
      if col in Names(cols) {
        var j := Find(cols, col);
        assert cols[j] == f.columns[j];
        assert forall k :: 0 <= k < |cols| && k != j ==> f.columns[k].name != col;
        cols := cols[j := Series(col, MapYesNoCells(cols[j].cells))];
      } else {
        forall k | 0 <= k < |cols| ensures f.columns[k].name != col {
          assert Names(cols)[k] == f.columns[k].name;
        }
      }
      todo := todo - {col};
    }
    g := Frame(f.rows, cols);
  }

  // ---------------------------------------------------------------------
  // Step 4a and normalizar_targets: mode imputation

  /** A column after `if isnull().any(): fillna(mode()[0])`, where a column
      without a mode (nothing present) is left as it is. */
  function ModeFilled(cells: seq<Cell>): seq<Cell>
  {
    if Missing !in cells then cells
    else match Mode(cells)
      case None => cells
      case Some(m) => FillWith(cells, m)
  }

  function ModeFillSeries(s: Series, names: seq<Name>): Series
  {
    if s.name in names then Series(s.name, ModeFilled(s.cells)) else s
  }

  /** The frame after the mode loop over `names`. */
  function ModeImputed(f: Frame, names: seq<Name>): (g: Frame)
    ensures g.rows == f.rows && Names(g.columns) == Names(f.columns)
  {
    Frame(f.rows, seq(|f.columns|, j requires 0 <= j < |f.columns| => ModeFillSeries(f.columns[j], names)))
  }

  /** Only missing cells change, each to `mode()[0]` of its column; a column
      with no gap, or with nothing to take a mode of, is left unchanged. */
  lemma ModeFilledSpec(cells: seq<Cell>)
    ensures |ModeFilled(cells)| == |cells|
    ensures forall i :: 0 <= i < |cells| && cells[i] != Missing ==> ModeFilled(cells)[i] == cells[i]
    ensures (exists i :: 0 <= i < |cells| && cells[i] != Missing) ==>
      && Missing !in ModeFilled(cells)
      && forall i :: 0 <= i < |cells| && cells[i] == Missing ==> IsMode(cells, ModeFilled(cells)[i])
    ensures (forall i :: 0 <= i < |cells| ==> cells[i] == Missing) ==> ModeFilled(cells) == cells
    ensures Missing !in cells ==> ModeFilled(cells) == cells
  {
    if Missing in cells && exists i :: 0 <= i < |cells| && cells[i] != Missing {
      var m := Mode(cells).value;
      assert m != Missing;
      assert Missing !in FillWith(cells, m);
    }
  }

  /** Filling twice is filling once. */
  lemma ModeFilledIdempotent(cells: seq<Cell>)
    ensures ModeFilled(ModeFilled(cells)) == ModeFilled(cells)
  {
    ModeFilledSpec(cells);
    if Missing in ModeFilled(cells) {
      assert forall i :: 0 <= i < |cells| ==> cells[i] == Missing;
    }
  }

  /** One pass of the mode loop: filling column `j`, named `names[i]`, extends
      the filled prefix of `names` by one. */
  lemma ModeStep(f: Frame, names: seq<Name>, i: nat, j: nat, before: seq<Series>, after: seq<Series>)
    requires WellFormed(f) && i < |names| && j < |f.columns| && f.columns[j].name == names[i]
    requires |before| == |f.columns|
    requires forall k :: 0 <= k < |before| ==> before[k] == ModeFillSeries(f.columns[k], names[..i])
    requires after == if Missing in before[j].cells && Mode(before[j].cells).Some?
      then before[j := Series(names[i], FillWith(before[j].cells, Mode(before[j].cells).value))]
      else before
    ensures |after| == |f.columns|
    ensures forall k :: 0 <= k < |after| ==> after[k] == ModeFillSeries(f.columns[k], names[..i + 1])
  {
    assert names[..i + 1] == names[..i] + [names[i]];
    ModeFilledIdempotent(f.columns[j].cells);
    forall k | 0 <= k < |after|
      ensures after[k] == ModeFillSeries(f.columns[k], names[..i + 1])
    {
      if k != j {
        assert f.columns[k].name != names[i];
      }
    }
  }

  /** Lines 82-91 and 140-149: the loop that fills the listed columns with
      their mode, skipping a column whose mode pandas cannot produce. */
  method ImputeMode(f: Frame, names: seq<Name>) returns (g: Frame)
    requires WellFormed(f)
    requires forall k :: 0 <= k < |names| ==> names[k] in Names(f.columns)
    ensures g == ModeImputed(f, names)
  {
    var cols := f.columns;
    for i := 0 to |names|
      invariant |cols| == |f.columns|
      invariant forall j :: 0 <= j < |cols| ==> cols[j] == ModeFillSeries(f.columns[j], names[..i])
    {
      assert Names(cols) == Names(f.columns);
      var j := Find(cols, names[i]);
      ghost var before := cols;
      if Missing in cols[j].cells {
        var m := Mode(cols[j].cells);
        if m.Some? {
          cols := cols[j := Series(names[i], FillWith(cols[j].cells, m.value))];
        }
        // otherwise `mode()[0]` raises; the error is printed and the column stays
      }
      ModeStep(f, names, i, j, before, cols);
    }
    assert names[..|names|] == names;
    g := Frame(f.rows, cols);
  }

  // ---------------------------------------------------------------------
  // Step 4b: median imputation

  /** `if isnull().any(): fillna(median())` on a numeric column; the median of
      a column without numbers is NaN and filling with it changes nothing. */
  function FillMedian(cells: seq<Cell>): seq<Cell>
  {
    var vs := Values(cells);
    if Missing in cells && vs != [] then FillWith(cells, Num(Median(vs))) else cells
  }

  /** A non-categorical column after lines 95-110: numeric columns are filled
      directly, other columns are converted by `pd.to_numeric` first, and a
      column that does not convert is left exactly as it was. */
  function MedianFilled(cells: seq<Cell>): seq<Cell>
  {
    if NumericDtype(cells) then FillMedian(cells)
    else match ToNumeric(cells)
      case Some(converted) => FillMedian(converted)
      case None => cells
  }

  function MedianFillSeries(s: Series, cats: seq<Name>): Series
  {
    if s.name !in cats then Series(s.name, MedianFilled(s.cells)) else s
  }

  /** The frame after the median loop over every column not in `cats`. */
  function MedianImputed(f: Frame, cats: seq<Name>): (g: Frame)
    ensures g.rows == f.rows && Names(g.columns) == Names(f.columns)
  {
    Frame(f.rows, seq(|f.columns|, j requires 0 <= j < |f.columns| => MedianFillSeries(f.columns[j], cats)))
  }

  lemma FillMedianSpec(cells: seq<Cell>)
    requires NumericDtype(cells)
    ensures |FillMedian(cells)| == |cells| && NumericDtype(FillMedian(cells))
    ensures forall i :: 0 <= i < |cells| && cells[i] != Missing ==> FillMedian(cells)[i] == cells[i]
    ensures Values(cells) != [] ==>
      && Missing !in FillMedian(cells)
      && forall i :: 0 <= i < |cells| && cells[i] == Missing ==> FillMedian(cells)[i] == Num(Median(Values(cells)))
    ensures Values(cells) == [] ==> FillMedian(cells) == cells
  {
    var out := FillMedian(cells);
    if Missing in cells && Values(cells) != [] {
      assert Missing !in out;
    }
  }

  /** A column that is numeric, or that `pd.to_numeric` accepts, comes out
      numeric: its numbers stay, its number tokens become those numbers, and
      every gap (an empty token included) becomes the median of the column's
      numbers when it has any. A column that does not convert is unchanged. */
  lemma MedianFilledSpec(cells: seq<Cell>)
    ensures |MedianFilled(cells)| == |cells|
    ensures (NumericDtype(cells) || ToNumeric(cells).Some?) ==>
      var converted := if NumericDtype(cells) then cells else ToNumeric(cells).value;
      && NumericDtype(MedianFilled(cells))
      && (forall i :: 0 <= i < |cells| && cells[i].Num? ==> MedianFilled(cells)[i] == cells[i])
      && (forall i :: 0 <= i < |cells| && cells[i].Text? && cells[i].s != "" ==>
            ParseNumber(cells[i].s).Some? && MedianFilled(cells)[i] == Num(ParseNumber(cells[i].s).value))
      && (Values(converted) != [] ==> forall i :: 0 <= i < |cells| && converted[i] == Missing ==>
            MedianFilled(cells)[i] == Num(Median(Values(converted))))
      && (Values(converted) != [] ==> Missing !in MedianFilled(cells))
    ensures !NumericDtype(cells) && ToNumeric(cells).None? ==> MedianFilled(cells) == cells
  {
    if NumericDtype(cells) {
      FillMedianSpec(cells);
    } else if ToNumeric(cells).Some? {
      var converted := ToNumeric(cells).value;
      assert NumericDtype(converted) by {
        forall i | 0 <= i < |converted| ensures !converted[i].Text? {
          assert ConvertCell(cells[i]) == Some(converted[i]);
        }
      }
      FillMedianSpec(converted);
      forall i | 0 <= i < |cells| && cells[i].Text? && cells[i].s != ""
        ensures ParseNumber(cells[i].s).Some? && MedianFilled(cells)[i] == Num(ParseNumber(cells[i].s).value)
      {
        assert ConvertCell(cells[i]) == Some(converted[i]);
      }
      forall i | 0 <= i < |cells| && cells[i].Num?
        ensures MedianFilled(cells)[i] == cells[i]
      {
        assert ConvertCell(cells[i]) == Some(converted[i]);
      }
    }
  }

  /** Filling twice is filling once. */
  lemma MedianFilledIdempotent(cells: seq<Cell>)
    ensures MedianFilled(MedianFilled(cells)) == MedianFilled(cells)
  {
    MedianFilledSpec(cells);
    var once := MedianFilled(cells);
    if NumericDtype(once) {
      FillMedianSpec(once);
      if Missing in once {
        var converted := if NumericDtype(cells) then cells else ToNumeric(cells).value;
        if !NumericDtype(cells) && ToNumeric(cells).None? {
          assert false;
        }
        assert once == FillMedian(converted);
        if NumericDtype(cells) { FillMedianSpec(cells); } else {
          assert NumericDtype(converted) by {
            forall i | 0 <= i < |converted| ensures !converted[i].Text? {
              assert ConvertCell(cells[i]) == Some(converted[i]);
            }
          }
          FillMedianSpec(converted);
        }
        assert Values(converted) == [];
        assert once == converted;
      }
    }
  }

  /** The body of the loop at lines 94-110 for one column: a numeric or
      convertible column comes out numeric, keeps its numbers, turns number
      tokens into their values and fills every gap with the median when it
      has a number; a column `pd.to_numeric` rejects comes back unchanged. */
  method MedianFillColumn(column: seq<Cell>) returns (cells: seq<Cell>)
    ensures cells == MedianFilled(column)
    ensures |cells| == |column|
    ensures (NumericDtype(column) || ToNumeric(column).Some?) ==>
      var converted := if NumericDtype(column) then column else ToNumeric(column).value;
      && NumericDtype(cells)
      && (forall i :: 0 <= i < |column| && column[i].Num? ==> cells[i] == column[i])
      && (forall i :: 0 <= i < |column| && column[i].Text? && column[i].s != "" ==>
            ParseNumber(column[i].s).Some? && cells[i] == Num(ParseNumber(column[i].s).value))
      && (Values(converted) != [] ==> forall i :: 0 <= i < |column| && converted[i] == Missing ==>
            cells[i] == Num(Median(Values(converted))))
      && (Values(converted) != [] ==> Missing !in cells)
    ensures !NumericDtype(column) && ToNumeric(column).None? ==> cells == column
  {
    MedianFilledSpec(column);
    cells := column;
    if NumericDtype(cells) {
      cells := FillMedian(cells);
    } else {
      var converted := ToNumeric(cells);
      if converted.Some? {
        cells := FillMedian(converted.value);
      }
      // otherwise the ValueError is printed and the column is left as it is
    }
  }

  /** One pass of the median loop: filling column `j`, named `candidates[i]`,
      extends the filled prefix of `candidates` by one. */
  lemma MedianStep(f: Frame, cats: seq<Name>, candidates: seq<Name>, i: nat, j: nat, before: seq<Series>, after: seq<Series>)
    requires WellFormed(f) && i < |candidates| && j < |f.columns|
    requires f.columns[j].name == candidates[i] && candidates[i] !in cats
    requires |before| == |f.columns|
    requires forall k :: 0 <= k < |before| ==>
      before[k] == if f.columns[k].name in candidates[..i] then MedianFillSeries(f.columns[k], cats) else f.columns[k]
    requires after == before[j := Series(candidates[i], MedianFilled(before[j].cells))]
    ensures |after| == |f.columns|
    ensures forall k :: 0 <= k < |after| ==>
      after[k] == if f.columns[k].name in candidates[..i + 1] then MedianFillSeries(f.columns[k], cats) else f.columns[k]
  {
    var cells := f.columns[j].cells;
    if f.columns[j].name in candidates[..i] {
      assert before[j].cells == MedianFilled(cells);
      MedianFilledIdempotent(cells);
    } else {
      assert before[j] == f.columns[j];
    }
    var target := seq(|f.columns|, k requires 0 <= k < |f.columns| => MedianFillSeries(f.columns[k], cats));
    assert after[j] == Series(candidates[i], MedianFilled(cells)) == target[j];
    PrefixStep(f.columns, target, candidates, i, j, before, after);
  }

  /** Replacing column `j`, named `labels[i]`, by its target extends the
      prefix of `labels` whose columns hold their targets by one. */
  lemma PrefixStep(orig: seq<Series>, target: seq<Series>, labels: seq<Name>, i: nat, j: nat, before: seq<Series>, after: seq<Series>)
    requires |target| == |before| == |after| == |orig| && i < |labels| && j < |orig|
    requires DistinctNames(orig) && orig[j].name == labels[i]
    requires forall k :: 0 <= k < |before| ==> before[k] == if orig[k].name in labels[..i] then target[k] else orig[k]
    requires after[j] == target[j] && forall k :: 0 <= k < |after| && k != j ==> after[k] == before[k]
    ensures forall k :: 0 <= k < |after| ==> after[k] == if orig[k].name in labels[..i + 1] then target[k] else orig[k]
  {
    assert labels[..i + 1] == labels[..i] + [labels[i]];
    forall k | 0 <= k < |after|
      ensures after[k] == if orig[k].name in labels[..i + 1] then target[k] else orig[k]
    {
      if k == j {
        assert labels[..i + 1][i] == orig[j].name;
      } else {
        assert orig[k].name != labels[i];
      }
    }
  }

  /** Lines 93-110: the loop over the non-categorical columns. */
  method ImputeMedian(f: Frame, cats: seq<Name>) returns (g: Frame)
    requires WellFormed(f)
    ensures g == MedianImputed(f, cats)
  {
    var cols := f.columns;
    var candidates := Pick(Names(cols), Positions(DropMask(f, cats)));
    KeptLabels(f, cats);
    for i := 0 to |candidates|
      invariant |cols| == |f.columns|
      invariant forall j :: 0 <= j < |cols| ==>
        cols[j] == if f.columns[j].name in candidates[..i] then MedianFillSeries(f.columns[j], cats) else f.columns[j]
    {
      assert Names(cols) == Names(f.columns);
      var col := candidates[i];
      var j := Find(cols, col);
      ghost var before := cols;
      var cells := MedianFillColumn(cols[j].cells);
      cols := cols[j := Series(col, cells)];
      MedianStep(f, cats, candidates, i, j, before, cols);
    }
    assert candidates[..|candidates|] == candidates;
    forall j | 0 <= j < |cols| ensures cols[j] == MedianFillSeries(f.columns[j], cats) {
      assert Names(f.columns)[j] == f.columns[j].name;
    }
    g := Frame(f.rows, cols);
  }

  // ---------------------------------------------------------------------
  // Step 5: dropping incomplete rows

  /** `dropna()`'s row mask: a row is kept when none of its cells is missing. */
  function CompleteMask(f: Frame): seq<bool>
  {
    seq(f.rows, i requires 0 <= i < f.rows =>
      forall j :: 0 <= j < |f.columns| ==> i < |f.columns[j].cells| && f.columns[j].cells[i] != Missing)
  }

  // ---------------------------------------------------------------------
  // The whole of `normalizar`

  datatype ScalerError = NoSamples | NoNumericFeatures

  /** What `normalizar` returns, or the ValueError MinMaxScaler.fit raises
      on a table with no row or no numeric column. */
  datatype Outcome = Normalized(frame: Frame, scaler: ScalerState) | ScalerFitFailed(error: ScalerError)

  /** The intermediate frames of `normalizar`, up to the row drop, with the
      numeric-dtype flags of the feature columns, which `dropna()` keeps. */
  datatype Stages = Stages(
    present: seq<Name>, targets: Frame, features: Frame, dense: Frame, mapped: Frame,
    cats: seq<Name>, imputed: Frame, numeric: seq<bool>, kept: seq<nat>, complete: Frame, keptTargets: Frame)

  function Stage(df: Frame): (s: Stages)
    requires WellFormed(df)
    ensures WellFormed(s.targets) && WellFormed(s.features) && WellFormed(s.dense)
    ensures WellFormed(s.mapped) && WellFormed(s.imputed) && WellFormed(s.complete) && WellFormed(s.keptTargets)
    ensures s.targets.rows == s.features.rows == s.dense.rows == s.mapped.rows == s.imputed.rows == df.rows
    ensures s.complete.rows == s.keptTargets.rows == |s.kept|
    ensures forall k :: 0 <= k < |s.kept| ==> s.kept[k] < df.rows
    ensures forall k :: 0 <= k < |s.present| ==> s.present[k] in Names(df.columns)
    ensures Names(s.complete.columns) == Names(s.dense.columns)
    ensures s.cats == PresentAmong(CATEGORICAL, Names(s.dense.columns))
    ensures forall k :: 0 <= k < |s.cats| ==> s.cats[k] in Names(s.complete.columns)
    ensures s.numeric == NumericMask(s.imputed.columns) && |s.numeric| == |s.complete.columns|
    ensures forall j :: 0 <= j < |s.numeric| && s.numeric[j] ==> NumericDtype(s.complete.columns[j].cells)
  {
    var present := PresentAmong(TARGETS, Names(df.columns));
    var targets := ColumnsNamed(df, present);
    var features := DropColumns(df, present);
    var dense := SelectColumns(features, DenseMask(features));
    SplitStage(df);
    var mapped := BinaryMapped(dense);
    var cats := PresentAmong(CATEGORICAL, Names(mapped.columns));
    PresentAmongSpec(CATEGORICAL, Names(mapped.columns));
    var imputed := MedianImputed(ModeImputed(mapped, cats), cats);
    assert WellFormed(imputed) by { ImputedWellFormed(mapped, cats); }
    assert Names(imputed.columns) == Names(dense.columns) by { ImputedNames(mapped, cats); }
    var kept := Positions(CompleteMask(imputed));
    var complete := SelectRows(imputed, kept);
    var keptTargets := SelectRows(targets, kept);
    var numeric := NumericMask(imputed.columns);
    RowDropStage(imputed, targets);
    Stages(present, targets, features, dense, mapped, cats, imputed, numeric, kept, complete, keptTargets)
  }

  /** The outcome of `normalizar`, defined from the stages. */
  function Pipeline(df: Frame): Outcome
    requires WellFormed(df)
  {
    var s := Stage(df);
    if s.complete.rows == 0 then ScalerFitFailed(NoSamples)
    else if Positions(s.numeric) == [] then ScalerFitFailed(NoNumericFeatures)
    else
      var scaled := MinMaxScale(s.complete, s.numeric);
      Normalized(Concat(GetDummies(scaled.frame, s.cats), s.keptTargets), scaled.state)
  }

  /** Lines 46-127, one statement per step of the source. */
  method Normalize(df: Frame) returns (r: Outcome)
    requires WellFormed(df)
    ensures r == Pipeline(df)
  {
    ghost var s := Stage(df);
    var present := PresentAmong(TARGETS, Names(df.columns));
    PresentAmongSpec(TARGETS, Names(df.columns));
    var targets := ColumnsNamed(df, present);
    var features := DropColumns(df, present);
    features := SelectColumns(features, DenseMask(features));
    features := MapBinaryColumns(features);
    var cats := PresentAmong(CATEGORICAL, Names(features.columns));
    PresentAmongSpec(CATEGORICAL, Names(features.columns));
    features := ImputeMode(features, cats);
    ImputedWellFormed(s.mapped, cats);
    features := ImputeMedian(features, cats);
    var numeric := NumericMask(features.columns);
    var kept := Positions(CompleteMask(features));
    features := SelectRows(features, kept);
    targets := SelectRows(targets, kept);
    assert features == s.complete && targets == s.keptTargets;
    if features.rows == 0 {
      return ScalerFitFailed(NoSamples);
    }
    if Positions(numeric) == [] {
      return ScalerFitFailed(NoNumericFeatures);
    }
    var scaled := MinMaxScale(features, numeric);
    features := GetDummies(scaled.frame, cats);
    r := Normalized(Concat(features, targets), scaled.state);
  }

  // ---------------------------------------------------------------------
  // normalizar_targets

  /** Lines 139-150: fills each present label column with its mode. The
      source updates the caller's frame in place and returns it; here the
      updated frame is the result. */
  method NormalizeTargets(df: Frame) returns (g: Frame)
    requires WellFormed(df)
    ensures g == ModeImputed(df, PresentAmong(TARGET_FILL_ORDER, Names(df.columns)))
    ensures g.rows == df.rows && Names(g.columns) == Names(df.columns)
  {
    var present := PresentAmong(TARGET_FILL_ORDER, Names(df.columns));
    PresentAmongSpec(TARGET_FILL_ORDER, Names(df.columns));
    g := ImputeMode(df, present);
  }

  // ---------------------------------------------------------------------
  // Training subset of the Severity and Management models

  /** `df[df['Diagnosis'] == 'appendicitis']`, or None where the column is
      absent and pandas raises KeyError. */
  function AppendicitisSubset(df: Frame): Option<Frame>
    requires WellFormed(df)
  {
    if Plain("Diagnosis") !in Names(df.columns) then None
    else
      Some(SelectRows(df, Positions(AppendicitisMask(df.columns[Find(df.columns, Plain("Diagnosis"))].cells))))
  }

  /** The row mask `df['Diagnosis'] == 'appendicitis'`. */
  function AppendicitisMask(d: seq<Cell>): seq<bool>
  {
    seq(|d|, i requires 0 <= i < |d| => d[i] == Text("appendicitis"))
  }

  // ---------------------------------------------------------------------
  // Well-formedness is kept by each step

  lemma SelectColumnsWellFormed(f: Frame, mask: seq<bool>)
    requires WellFormed(f) && |mask| == |f.columns|
    ensures WellFormed(SelectColumns(f, mask))
  {
    var idx := Positions(mask);
    var g := SelectColumns(f, mask);
    forall a, b | 0 <= a < b < |g.columns|
      ensures g.columns[a].name != g.columns[b].name
    {
      assert idx[a] < idx[b];
    }
  }

  lemma ColumnsNamedWellFormed(f: Frame, present: seq<Name>)
    requires WellFormed(f)
    requires forall k :: 0 <= k < |present| ==> present[k] in Names(f.columns)
    requires forall a, b :: 0 <= a < b < |present| ==> present[a] != present[b]
    ensures WellFormed(ColumnsNamed(f, present))
  {
  }

  lemma SelectRowsWellFormed(f: Frame, idx: seq<nat>)
    requires WellFormed(f) && forall k :: 0 <= k < |idx| ==> idx[k] < f.rows
    ensures WellFormed(SelectRows(f, idx)) && Names(SelectRows(f, idx).columns) == Names(f.columns)
  {
  }

  /** What the split of lines 46-52 leaves: well-formed labels, features and
      dense features over the input rows, with every label present. */
  lemma SplitStage(df: Frame)
    requires WellFormed(df)
    ensures var present := PresentAmong(TARGETS, Names(df.columns));
      var features := DropColumns(df, present);
      && (forall k :: 0 <= k < |present| ==> present[k] in Names(df.columns))
      && WellFormed(ColumnsNamed(df, present)) && ColumnsNamed(df, present).rows == df.rows
      && WellFormed(features) && features.rows == df.rows
      && WellFormed(SelectColumns(features, DenseMask(features)))
  {
    var present := PresentAmong(TARGETS, Names(df.columns));
    PresentAmongSpec(TARGETS, Names(df.columns));
    ColumnsNamedWellFormed(df, present);
    SelectColumnsWellFormed(df, DropMask(df, present));
    var features := DropColumns(df, present);
    SelectColumnsWellFormed(features, DenseMask(features));
  }

  /** The imputation steps keep every column label. */
  lemma ImputedNames(f: Frame, cats: seq<Name>)
    ensures Names(MedianImputed(ModeImputed(f, cats), cats).columns) == Names(f.columns)
  {
  }

  /** What the row drop of lines 112-113 leaves: well-formed features and
      labels cut to the kept rows, with the labels and the numeric flags of
      the features unchanged. */
  lemma RowDropStage(imputed: Frame, targets: Frame)
    requires WellFormed(imputed) && WellFormed(targets) && targets.rows == imputed.rows
    ensures var kept := Positions(CompleteMask(imputed));
      var complete := SelectRows(imputed, kept);
      && (forall k :: 0 <= k < |kept| ==> kept[k] < imputed.rows)
      && WellFormed(complete) && WellFormed(SelectRows(targets, kept))
      && complete.rows == SelectRows(targets, kept).rows == |kept|
      && Names(complete.columns) == Names(imputed.columns)
      && |NumericMask(imputed.columns)| == |complete.columns|
      && forall j :: 0 <= j < |imputed.columns| && NumericMask(imputed.columns)[j] ==> NumericDtype(complete.columns[j].cells)
  {
    var kept := Positions(CompleteMask(imputed));
    SelectRowsWellFormed(imputed, kept);
    SelectRowsWellFormed(targets, kept);
    SelectRowsNumeric(imputed, kept);
  }

  /** Dropping rows keeps a column's numeric dtype. */
  lemma SelectRowsNumeric(f: Frame, idx: seq<nat>)
    requires WellFormed(f) && forall k :: 0 <= k < |idx| ==> idx[k] < f.rows
    ensures forall j :: 0 <= j < |f.columns| && NumericDtype(f.columns[j].cells) ==>
      NumericDtype(SelectRows(f, idx).columns[j].cells)
  {
  }

  lemma ImputedWellFormed(f: Frame, cats: seq<Name>)
    requires WellFormed(f)
    ensures WellFormed(ModeImputed(f, cats))
    ensures WellFormed(MedianImputed(ModeImputed(f, cats), cats))
  {
    var g := ModeImputed(f, cats);
    forall j | 0 <= j < |g.columns| ensures |g.columns[j].cells| == g.rows {
      ModeFilledSpec(f.columns[j].cells);
    }
    forall j | 0 <= j < |g.columns| ensures |MedianImputed(g, cats).columns[j].cells| == g.rows {
      MedianFilledSpec(g.columns[j].cells);
    }
  }
}
