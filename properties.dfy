/** What `normalizar` and its steps guarantee, stated over the stages of the
    model in treinadora.dfy. */
module NormalizarProperties {
  import opened Frames
  import opened CellOrder
  import opened Stats
  import opened Encoding
  import opened Treinadora

  function FeatureMask(df: Frame): seq<bool>
  {
    seq(|df.columns|, j requires 0 <= j < |df.columns| => df.columns[j].name !in TARGETS)
  }

  /** Step 1: the label part holds exactly the present labels, in the order
      Diagnosis, Severity, Management, each with its column; the feature
      part is every other column, in the original order. */
  lemma SplitSpec(df: Frame)
    requires WellFormed(df)
    ensures var s := Stage(df);
      && IsFilter(Names(s.targets.columns), TARGETS, PresentMask(TARGETS, Names(df.columns)))
      && (forall k :: 0 <= k < |s.targets.columns| ==>
            s.targets.columns[k] == df.columns[Find(df.columns, s.targets.columns[k].name)])
      && IsFilter(s.features.columns, df.columns, FeatureMask(df))
  {
    var s := Stage(df);
    var names := Names(df.columns);
    var present := PresentAmong(TARGETS, names);
    PresentAmongSpec(TARGETS, names);
    PickPositions(TARGETS, PresentMask(TARGETS, names));
    assert Names(s.targets.columns) == present;
    var dropMask := DropMask(df, present);
    assert dropMask == FeatureMask(df) by {
      forall j | 0 <= j < |df.columns|
        ensures dropMask[j] == FeatureMask(df)[j]
      {
        assert names[j] == df.columns[j].name;
      }
    }
    PickPositions(df.columns, FeatureMask(df));
  }

  /** A column of `f` survives the sparse-column drop iff it is dense. */
  lemma DenseColumns(f: Frame)
    ensures forall c :: c in SelectColumns(f, DenseMask(f)).columns <==> c in f.columns && Dense(f.rows, c.cells)
  {
    var mask := DenseMask(f);
    var idx := Positions(mask);
    var kept := SelectColumns(f, mask).columns;
    forall c | c in f.columns && Dense(f.rows, c.cells)
      ensures c in kept
    {
      var j :| 0 <= j < |f.columns| && f.columns[j] == c;
      assert mask[j];
      var k :| 0 <= k < |idx| && idx[k] == j;
      assert kept[k] == c;
    }
    forall c | c in kept
      ensures c in f.columns && Dense(f.rows, c.cells)
    {
      var k :| 0 <= k < |kept| && kept[k] == c;
      assert mask[idx[k]];
    }
  }

  /** Step 2: a feature column survives iff fewer than half of its cells are
      missing in the raw table (no column survives a table without rows), and
      the survivors keep their order. */
  lemma SparseDropSpec(df: Frame)
    requires WellFormed(df)
    ensures var s := Stage(df);
      && IsFilter(s.dense.columns, s.features.columns, DenseMask(s.features))
      && (forall c :: c in s.dense.columns <==> c in s.features.columns && Dense(df.rows, c.cells))
  {
    var s := Stage(df);
    PickPositions(s.features.columns, DenseMask(s.features));
    DenseColumns(s.features);
  }

  /** Step 3 on any frame: each present yes/no column maps "yes" to 1, "no"
      to 0 and everything else to a gap, so it holds only 0, 1 and gaps;
      every other column, the labels and the row count are unchanged. */
  lemma BinaryMappedSpec(f: Frame)
    ensures var g := BinaryMapped(f);
      && g.rows == f.rows && |g.columns| == |f.columns|
      && (forall j :: 0 <= j < |f.columns| && f.columns[j].name !in BINARY_COLUMNS ==> g.columns[j] == f.columns[j])
      && (forall j, i :: 0 <= j < |f.columns| && f.columns[j].name in BINARY_COLUMNS && 0 <= i < |f.columns[j].cells| ==>
            && g.columns[j].name == f.columns[j].name
            && |g.columns[j].cells| == |f.columns[j].cells|
            && g.columns[j].cells[i] in {Missing, Num(0.0), Num(1.0)}
            && (g.columns[j].cells[i] == Num(1.0) <==> f.columns[j].cells[i] == Text("yes"))
            && (g.columns[j].cells[i] == Num(0.0) <==> f.columns[j].cells[i] == Text("no")))
  {
    forall j | 0 <= j < |f.columns| && f.columns[j].name in BINARY_COLUMNS {
      MapYesNoValues(f.columns[j].cells);
    }
  }

  /** Mode imputation on a frame (steps 4a and `normalizar_targets`): only
      gaps change, each into the mode of its column; unlisted columns, the
      labels and the row count stay; a listed column with any present value
      ends without gaps. */
  lemma ModeImputedSpec(f: Frame, names: seq<Name>)
    requires WellFormed(f)
    ensures var g := ModeImputed(f, names);
      && WellFormed(g) && g.rows == f.rows && Names(g.columns) == Names(f.columns)
      && (forall j :: 0 <= j < |f.columns| && f.columns[j].name !in names ==> g.columns[j] == f.columns[j])
      && (forall j, i :: 0 <= j < |f.columns| && 0 <= i < f.rows && f.columns[j].cells[i] != Missing ==>
            g.columns[j].cells[i] == f.columns[j].cells[i])
      && (forall j, i :: 0 <= j < |f.columns| && 0 <= i < f.rows && f.columns[j].cells[i] == Missing && g.columns[j].cells[i] != Missing ==>
            f.columns[j].name in names && IsMode(f.columns[j].cells, g.columns[j].cells[i]))
      && (forall j :: 0 <= j < |f.columns| && f.columns[j].name in names && (exists v :: v in f.columns[j].cells && v != Missing) ==>
            Missing !in g.columns[j].cells)
  {
    var g := ModeImputed(f, names);
    ImputedWellFormed(f, names);
    forall j | 0 <= j < |f.columns| {
      ModeFilledSpec(f.columns[j].cells);
    }
    forall j | 0 <= j < |f.columns| && f.columns[j].name in names && (exists v :: v in f.columns[j].cells && v != Missing)
      ensures Missing !in g.columns[j].cells
    {
      var v :| v in f.columns[j].cells && v != Missing;
      var i :| 0 <= i < |f.columns[j].cells| && f.columns[j].cells[i] == v;
    }
  }

  /** Step 4b on a frame: columns in `cats` and columns that neither are
      numeric nor convert are unchanged; every other column comes out numeric,
      keeps its numbers, and keeps a gap only when it holds no number at all. */
  lemma MedianImputedSpec(f: Frame, cats: seq<Name>)
    ensures var g := MedianImputed(f, cats);
      && g.rows == f.rows && Names(g.columns) == Names(f.columns)
      && (forall j :: 0 <= j < |f.columns| && f.columns[j].name in cats ==> g.columns[j] == f.columns[j])
      && (forall j :: 0 <= j < |f.columns| && !NumericDtype(f.columns[j].cells) && ToNumeric(f.columns[j].cells).None? ==>
            g.columns[j] == f.columns[j])
      && (forall j, i :: 0 <= j < |f.columns| && 0 <= i < |f.columns[j].cells| && f.columns[j].cells[i].Num? ==>
            g.columns[j].cells[i] == f.columns[j].cells[i])
      && (forall j :: 0 <= j < |f.columns| && f.columns[j].name !in cats && (NumericDtype(f.columns[j].cells) || ToNumeric(f.columns[j].cells).Some?) ==>
            && NumericDtype(g.columns[j].cells)
            && (Missing in g.columns[j].cells ==> Values(g.columns[j].cells) == []))
  {
    var g := MedianImputed(f, cats);
    forall j | 0 <= j < |f.columns|
      ensures |g.columns[j].cells| == |f.columns[j].cells|
      ensures f.columns[j].name !in cats && (NumericDtype(f.columns[j].cells) || ToNumeric(f.columns[j].cells).Some?) ==>
        NumericDtype(g.columns[j].cells) && (Missing in g.columns[j].cells ==> Values(g.columns[j].cells) == [])
    {
      var cells := f.columns[j].cells;
      MedianFilledSpec(cells);
      if f.columns[j].name !in cats && (NumericDtype(cells) || ToNumeric(cells).Some?) {
        MedianGapsOnlyWithoutNumbers(cells);
      }
    }
  }

  /** A gap survives median filling only in a column without any number. */
  lemma MedianGapsOnlyWithoutNumbers(cells: seq<Cell>)
    requires NumericDtype(cells) || ToNumeric(cells).Some?
    ensures Missing in MedianFilled(cells) ==> Values(MedianFilled(cells)) == []
  {
    if NumericDtype(cells) {
      FillMedianGaps(cells);
    } else {
      FillMedianGaps(ToNumeric(cells).value);
    }
  }

  /** Filling with the median leaves a gap only when there is no number. */
  lemma FillMedianGaps(cells: seq<Cell>)
    ensures Missing in FillMedian(cells) ==> Values(FillMedian(cells)) == []
  {
    if Missing in cells && Values(cells) != [] {
      var out := FillWith(cells, Num(Median(Values(cells))));
      assert forall i :: 0 <= i < |out| ==> out[i] != Missing;
    }
  }

  /** `normalizar_targets` changes only gaps of the label columns, each into
      the mode of its column, never adds or removes a row, and leaves no gap
      in a label column that holds any value. */
  lemma NormalizeTargetsSpec(df: Frame)
    requires WellFormed(df)
    ensures var g := ModeImputed(df, PresentAmong(TARGET_FILL_ORDER, Names(df.columns)));
      && g.rows == df.rows && Names(g.columns) == Names(df.columns)
      && (forall j :: 0 <= j < |df.columns| && df.columns[j].name !in TARGET_FILL_ORDER ==> g.columns[j] == df.columns[j])
      && (forall j, i :: 0 <= j < |df.columns| && 0 <= i < df.rows && df.columns[j].cells[i] != Missing ==>
            g.columns[j].cells[i] == df.columns[j].cells[i])
      && (forall j, i :: 0 <= j < |df.columns| && 0 <= i < df.rows && g.columns[j].cells[i] != df.columns[j].cells[i] ==>
            df.columns[j].name in TARGET_FILL_ORDER && IsMode(df.columns[j].cells, g.columns[j].cells[i]))
      && (forall j :: 0 <= j < |df.columns| && df.columns[j].name in TARGET_FILL_ORDER && (exists v :: v in df.columns[j].cells && v != Missing) ==>
            Missing !in g.columns[j].cells)
  {
    var present := PresentAmong(TARGET_FILL_ORDER, Names(df.columns));
    PresentAmongSpec(TARGET_FILL_ORDER, Names(df.columns));
    assert forall j :: 0 <= j < |df.columns| ==> Names(df.columns)[j] == df.columns[j].name;
    ModeImputedSpec(df, present);
  }

  /** `dropna()` on `f` keeps exactly its rows without a gap, in order, and
      leaves no gap; `f` and `t` cut down to those rows stay aligned. */
  lemma DropIncompleteRows(f: Frame, t: Frame)
    requires WellFormed(f) && WellFormed(t) && t.rows == f.rows
    ensures var kept := Positions(CompleteMask(f));
      && Increasing(kept)
      && (forall i :: 0 <= i < f.rows ==>
            (i in kept <==> forall j :: 0 <= j < |f.columns| ==> f.columns[j].cells[i] != Missing))
      && (forall k :: 0 <= k < |kept| ==> kept[k] < f.rows)
      && Complete(SelectRows(f, kept))
      && (forall j, k :: 0 <= j < |f.columns| && 0 <= k < |kept| ==>
            SelectRows(f, kept).columns[j].cells[k] == f.columns[j].cells[kept[k]])
      && (forall j, k :: 0 <= j < |t.columns| && 0 <= k < |kept| ==>
            SelectRows(t, kept).columns[j].cells[k] == t.columns[j].cells[kept[k]])
  {
    var mask := CompleteMask(f);
    var kept := Positions(mask);
    var g := SelectRows(f, kept);
    forall j, k | 0 <= j < |g.columns| && 0 <= k < |g.columns[j].cells|
      ensures g.columns[j].cells[k] != Missing
    {
      assert mask[kept[k]];
    }
  }

  /** Step 5: the kept rows are exactly the rows with no gap left in any
      feature, in their original order; the features and the labels are both
      cut down to those rows, so row k of each is original row kept[k]. */
  lemma RowDropSpec(df: Frame)
    requires WellFormed(df)
    ensures var s := Stage(df);
      && Increasing(s.kept)
      && (forall i :: 0 <= i < df.rows ==>
            (i in s.kept <==> forall j :: 0 <= j < |s.imputed.columns| ==> s.imputed.columns[j].cells[i] != Missing))
      && Complete(s.complete)
      && |s.complete.columns| == |s.imputed.columns| && |s.keptTargets.columns| == |s.targets.columns|
      && (forall j, k :: 0 <= j < |s.imputed.columns| && 0 <= k < |s.kept| ==>
            s.kept[k] < df.rows && s.complete.columns[j].cells[k] == s.imputed.columns[j].cells[s.kept[k]])
      && (forall j, k :: 0 <= j < |s.targets.columns| && 0 <= k < |s.kept| ==>
            s.keptTargets.columns[j].cells[k] == s.targets.columns[j].cells[s.kept[k]])
  {
    var s := Stage(df);
    DropIncompleteRows(s.imputed, s.targets);
    assert s.kept == Positions(CompleteMask(s.imputed));
    assert s.complete == SelectRows(s.imputed, s.kept);
    assert s.keptTargets == SelectRows(s.targets, s.kept);
  }

  /** MinMaxScaler.fit raises exactly when no row is left or no feature
      column has a numeric dtype. The dtype is the one the column has after
      imputation, which `dropna()` does not change. */
  lemma NormalizeFailureSpec(df: Frame)
    requires WellFormed(df)
    ensures var s := Stage(df);
      Pipeline(df).ScalerFitFailed? <==>
        (s.kept == [] || forall j :: 0 <= j < |s.imputed.columns| ==> !NumericDtype(s.imputed.columns[j].cells))
  {
    NoNumericColumn(Stage(df).imputed.columns);
  }

  /** A table without rows always makes the scaler fail for lack of samples. */
  lemma EmptyTableFails(df: Frame)
    requires WellFormed(df) && df.rows == 0
    ensures Pipeline(df) == ScalerFitFailed(NoSamples)
  {
    var s := Stage(df);
    PositionsEmpty(CompleteMask(s.imputed));
    assert s.complete.rows == 0;
  }

  /** The indicator block of `get_dummies`: every column is a 0/1 indicator of
      one of the categorical columns, of one of its values other than the
      first in sorted order, with one cell per row. */
  lemma DummyBlockSpec(cs: seq<Series>, cats: seq<Name>, rows: nat)
    requires forall k :: 0 <= k < |cats| ==> cats[k] in Names(cs)
    requires forall j :: 0 <= j < |cs| ==> |cs[j].cells| == rows
    ensures forall j :: 0 <= j < |DummyBlock(cs, cats)| ==> BlockColumn(cs, cats, rows, DummyBlock(cs, cats)[j])
  {
    forall j | 0 <= j < |DummyBlock(cs, cats)|
      ensures BlockColumn(cs, cats, rows, DummyBlock(cs, cats)[j])
    {
      BlockColumnAt(cs, cats, rows, j);
    }
  }

  /** What a column of the indicator block is: a 0/1 indicator of one of the
      categorical columns, of one of its values other than the first in sorted
      order, with one cell per row. */
  predicate BlockColumn(cs: seq<Series>, cats: seq<Name>, rows: nat, d: Series)
    requires forall k :: 0 <= k < |cats| ==> cats[k] in Names(cs)
  {
    && d.name.Indicator? && d.name.base in cats
    && d.name.level in Levels(cs[Find(cs, d.name.base)].cells) && d.name.level != Levels(cs[Find(cs, d.name.base)].cells)[0]
    && |d.cells| == rows
    && forall i :: 0 <= i < rows ==> d.cells[i] in {Num(0.0), Num(1.0)}
  }

  lemma {:induction false} BlockColumnAt(cs: seq<Series>, cats: seq<Name>, rows: nat, j: nat)
    requires forall k :: 0 <= k < |cats| ==> cats[k] in Names(cs)
    requires forall j :: 0 <= j < |cs| ==> |cs[j].cells| == rows
    requires j < |DummyBlock(cs, cats)|
    ensures BlockColumn(cs, cats, rows, DummyBlock(cs, cats)[j])
    decreases |cats|
  {
    var init := cats[..|cats| - 1];
    var c := cats[|cats| - 1];
    var front := DummyBlock(cs, init);
    var s := cs[Find(cs, c)];
    var block := DummyBlock(cs, cats);
    assert block == front + Indicators(s);
    if j < |front| {
      BlockColumnAt(cs, init, rows, j);
      assert block[j] == front[j];
    } else {
      var k := j - |front|;
      assert block[j] == Indicators(s)[k];
      IndicatorColumn(s, k);
    }
  }

  /** One indicator column of one categorical column. */
  lemma IndicatorColumn(s: Series, k: nat)
    requires k < |Indicators(s)|
    ensures var d := Indicators(s)[k]; var levels := Levels(s.cells);
      && d.name.Indicator? && d.name.base == s.name
      && d.name.level in levels && d.name.level != levels[0]
      && |d.cells| == |s.cells|
      && forall i :: 0 <= i < |s.cells| ==> d.cells[i] in {Num(0.0), Num(1.0)}
  {
    var levels := Levels(s.cells);
    IndicatorsShape(s);
    var v := levels[k + 1];
    var d := Indicators(s)[k];
    assert d == Series(Indicator(s.name, v), OneHot(s.cells, v));
    SortedDistinct(levels, 0, k + 1);
    forall i | 0 <= i < |s.cells| ensures d.cells[i] in {Num(0.0), Num(1.0)} {
      assert d.cells[i] == if s.cells[i] == v then Num(1.0) else Num(0.0);
    }
  }

  /** A successful run ends with the label columns, in the order Diagnosis,
      Severity, Management, and row k of each holds the label of input row
      kept[k]: labels stay aligned with the feature rows that survive. */
  lemma NormalizedLabels(df: Frame)
    requires WellFormed(df) && Pipeline(df).Normalized?
    ensures var s := Stage(df); var out := Pipeline(df).frame;
      && out.rows == |s.kept| && |s.present| <= |out.columns|
      && forall k :: 0 <= k < |s.present| ==>
           && out.columns[|out.columns| - |s.present| + k].name == s.present[k]
           && out.columns[|out.columns| - |s.present| + k].cells == Pick(df.columns[Find(df.columns, s.present[k])].cells, s.kept)
  {
    var s := Stage(df);
    var out := Pipeline(df).frame;
    var d := GetDummies(MinMaxScale(s.complete, s.numeric).frame, s.cats);
    LabelsAfter(d.columns, df, s.present, s.targets, s.kept);
    assert out.columns == d.columns + SelectRows(s.targets, s.kept).columns;
    assert |out.columns| - |s.present| == |d.columns|;
  }

  /** Columns followed by the label columns cut down to the rows `kept`. */
  lemma LabelsAfter(dcols: seq<Series>, df: Frame, present: seq<Name>, targets: Frame, kept: seq<nat>)
    requires forall k :: 0 <= k < |present| ==> present[k] in Names(df.columns)
    requires targets == ColumnsNamed(df, present) && WellFormed(targets)
    requires forall k :: 0 <= k < |kept| ==> kept[k] < targets.rows
    ensures var out := dcols + SelectRows(targets, kept).columns;
      && |out| == |dcols| + |present|
      && forall k :: 0 <= k < |present| ==>
           && out[|dcols| + k].name == present[k]
           && out[|dcols| + k].cells == Pick(df.columns[Find(df.columns, present[k])].cells, kept)
  {
  }

  /** Every categorical column gets an indicator for each of its observed
      values except the first in sorted order. */
  lemma DummyBlockComplete(cs: seq<Series>, cats: seq<Name>)
    requires forall k :: 0 <= k < |cats| ==> cats[k] in Names(cs)
    ensures forall c, v :: c in cats && v in cs[Find(cs, c)].cells && v != Missing && v != Levels(cs[Find(cs, c)].cells)[0] ==>
      Indicator(c, v) in Names(DummyBlock(cs, cats))
  {
    forall c, v | c in cats && v in cs[Find(cs, c)].cells && v != Missing && v != Levels(cs[Find(cs, c)].cells)[0]
      ensures Indicator(c, v) in Names(DummyBlock(cs, cats))
    {
      var p :| 0 <= p < |cats| && cats[p] == c;
      IndicatorInBlock(cs, cats, p, v);
    }
  }

  /** The indicator of one value of the categorical column `cats[p]`. */
  lemma {:induction false} IndicatorInBlock(cs: seq<Series>, cats: seq<Name>, p: nat, v: Cell)
    requires forall k :: 0 <= k < |cats| ==> cats[k] in Names(cs)
    requires p < |cats|
    requires var s := cs[Find(cs, cats[p])]; v in s.cells && v != Missing && v != Levels(s.cells)[0]
    ensures Indicator(cats[p], v) in Names(DummyBlock(cs, cats))
    decreases |cats|
  {
    var init := cats[..|cats| - 1];
    var s := cs[Find(cs, cats[|cats| - 1])];
    var front := DummyBlock(cs, init);
    NamesConcat(front, Indicators(s));
    if p == |cats| - 1 {
      IndicatorsLevels(s);
    } else {
      IndicatorInBlock(cs, init, p, v);
    }
  }

  lemma NamesConcat(a: seq<Series>, b: seq<Series>)
    ensures Names(a + b) == Names(a) + Names(b)
  {
  }

  /** The labels of the indicator block are distinct when the categorical
      columns are, and each has one of them as its base. */
  lemma {:induction false} DummyBlockDistinct(cs: seq<Series>, cats: seq<Name>)
    requires forall k :: 0 <= k < |cats| ==> cats[k] in Names(cs)
    requires forall a, b :: 0 <= a < b < |cats| ==> cats[a] != cats[b]
    ensures var block := DummyBlock(cs, cats);
      && DistinctNames(block)
      && forall j :: 0 <= j < |block| ==> block[j].name.Indicator? && block[j].name.base in cats
    decreases |cats|
  {
    if cats != [] {
      var init := cats[..|cats| - 1];
      var last := cats[|cats| - 1];
      var s := cs[Find(cs, last)];
      var front := DummyBlock(cs, init);
      var ind := Indicators(s);
      assert forall p :: 0 <= p < |init| ==> init[p] == cats[p];
      DummyBlockDistinct(cs, init);
      IndicatorsDistinct(s);
      ConcatDistinct(front, ind);
      var block := front + ind;
      assert DummyBlock(cs, cats) == block;
      forall j | 0 <= j < |block|
        ensures block[j].name.Indicator? && block[j].name.base in cats
      {
        if j < |front| {
          assert block[j] == front[j] && front[j].name.base in init;
        } else {
          assert block[j] == ind[j - |front|];
        }
      }
    }
  }

  /** The indicator columns of one column have distinct labels, all based on
      that column's label. */
  lemma IndicatorsDistinct(s: Series)
    ensures DistinctNames(Indicators(s))
    ensures forall n :: n in Names(Indicators(s)) ==> n.Indicator? && n.base == s.name
  {
    var ind := Indicators(s);
    IndicatorsShape(s);
    IndicatorsLevels(s);
    forall a, b | 0 <= a < b < |ind|
      ensures ind[a].name != ind[b].name
    {
      LessIrreflexive(ind[a].name.level);
    }
  }

  /** With plain input labels and distinct categorical columns, `get_dummies`
      yields a well-formed frame whose plain labels are input labels. */
  lemma GetDummiesWellFormed(g: Frame, cats: seq<Name>)
    requires WellFormed(g) && forall j :: 0 <= j < |g.columns| ==> g.columns[j].name.Plain?
    requires forall k :: 0 <= k < |cats| ==> cats[k] in Names(g.columns)
    requires forall a, b :: 0 <= a < b < |cats| ==> cats[a] != cats[b]
    ensures var d := GetDummies(g, cats);
      && WellFormed(d)
      && forall j :: 0 <= j < |d.columns| ==> d.columns[j].name.Indicator? || d.columns[j].name in Names(g.columns)
  {
    var drop := DropColumns(g, cats).columns;
    var block := DummyBlock(g.columns, cats);
    DummyBlockDistinct(g.columns, cats);
    DummyBlockSpec(g.columns, cats, g.rows);
    DropColumnsDistinct(g, cats);
    assert forall n :: n in Names(block) ==> n.Indicator?;
    forall i | 0 <= i < |drop|
      ensures drop[i].name !in Names(block) && drop[i].name in Names(g.columns) && |drop[i].cells| == g.rows
    {
      var j :| 0 <= j < |g.columns| && drop[i] == g.columns[j];
      assert Names(g.columns)[j] == drop[i].name;
    }
    ConcatDistinct(drop, block);
    assert GetDummies(g, cats).columns == drop + block;
  }

  /** Every feature label left after the row drop is an input label and not
      the label of a target column. */
  lemma FeatureNames(df: Frame)
    requires WellFormed(df)
    ensures var s := Stage(df);
      forall j :: 0 <= j < |s.complete.columns| ==>
        && s.complete.columns[j].name !in TARGETS
        && exists i :: 0 <= i < |df.columns| && df.columns[i].name == s.complete.columns[j].name
  {
    var s := Stage(df);
    SelectedNames(s.features, DenseMask(s.features));
    SelectedNames(df, DropMask(df, s.present));
    PresentAmongSpec(TARGETS, Names(df.columns));
    forall j | 0 <= j < |s.complete.columns|
      ensures s.complete.columns[j].name !in TARGETS
      ensures exists i :: 0 <= i < |df.columns| && df.columns[i].name == s.complete.columns[j].name
    {
      var n := s.complete.columns[j].name;
      assert Names(s.complete.columns)[j] == n;
      assert n in Names(s.dense.columns);
      var p :| 0 <= p < |s.features.columns| && DenseMask(s.features)[p] && s.features.columns[p].name == n;
      assert Names(s.features.columns)[p] == n;
      var i :| 0 <= i < |df.columns| && DropMask(df, s.present)[i] && df.columns[i].name == n;
      assert Names(df.columns)[i] == n;
    }
  }

  /** A successful run on a table with plain labels yields a well-formed
      table: every column has one cell per kept row and no label occurs
      twice, so the indicator labels clash neither with each other nor with
      the kept features or the label columns. */
  lemma NormalizedWellFormed(df: Frame)
    requires WellFormed(df) && forall j :: 0 <= j < |df.columns| ==> df.columns[j].name.Plain?
    ensures Pipeline(df).Normalized? ==> WellFormed(Pipeline(df).frame)
  {
    if Pipeline(df).Normalized? {
      var s := Stage(df);
      FeatureNames(df);
      CategoricalDistinct();
      PresentAmongDistinct(CATEGORICAL, Names(s.dense.columns));
      LabelsNamed(df);
      EncodedWellFormed(s.complete, s.numeric, s.cats, s.keptTargets);
    }
  }

  lemma CategoricalDistinct()
    ensures forall a, b :: 0 <= a < b < |CATEGORICAL| ==> CATEGORICAL[a] != CATEGORICAL[b]
  {
  }

  /** Scaling plainly labelled features, expanding distinct categorical
      columns and appending columns labelled by targets yields a well-formed
      frame. */
  lemma EncodedWellFormed(f: Frame, numeric: seq<bool>, cats: seq<Name>, t: Frame)
    requires WellFormed(f) && WellFormed(t) && f.rows == t.rows && |numeric| == |f.columns|
    requires forall j :: 0 <= j < |f.columns| ==> f.columns[j].name.Plain? && f.columns[j].name !in TARGETS
    requires forall k :: 0 <= k < |cats| ==> cats[k] in Names(f.columns)
    requires forall a, b :: 0 <= a < b < |cats| ==> cats[a] != cats[b]
    requires forall n :: n in Names(t.columns) ==> n in TARGETS
    ensures WellFormed(Concat(GetDummies(MinMaxScale(f, numeric).frame, cats), t))
  {
    var scaled := MinMaxScale(f, numeric).frame;
    forall j | 0 <= j < |scaled.columns|
      ensures |scaled.columns[j].cells| == scaled.rows && scaled.columns[j].name == f.columns[j].name
    {
      assert scaled.columns[j] == if numeric[j] then ScaleSeries(f.columns[j]) else f.columns[j];
    }
    GetDummiesWellFormed(scaled, cats);
    var d := GetDummies(scaled, cats);
    forall j | 0 <= j < |d.columns|
      ensures d.columns[j].name !in Names(t.columns)
    {
      if d.columns[j].name in Names(scaled.columns) {
        var p :| 0 <= p < |scaled.columns| && Names(scaled.columns)[p] == d.columns[j].name;
      }
    }
    ConcatDistinct(d.columns, t.columns);
  }

  /** The label columns kept by a run are labelled by targets. */
  lemma LabelsNamed(df: Frame)
    requires WellFormed(df)
    ensures forall n :: n in Names(Stage(df).keptTargets.columns) ==> n in TARGETS
  {
    var s := Stage(df);
    PresentAmongSpec(TARGETS, Names(df.columns));
    forall n | n in Names(s.keptTargets.columns)
      ensures n in TARGETS
    {
      var k :| 0 <= k < |s.keptTargets.columns| && Names(s.keptTargets.columns)[k] == n;
      assert s.keptTargets.columns[k].name == s.targets.columns[k].name == s.present[k];
    }
  }

  /** A finished feature column: one cell per row, no gap, and, when it was
      `scaled`, only numbers inside [0, 1]. */
  predicate FeatureColumn(c: Series, rows: nat, scaled: bool)
  {
    && |c.cells| == rows
    && Missing !in c.cells
    && (scaled ==> forall i :: 0 <= i < rows ==> c.cells[i].Num? && 0.0 <= c.cells[i].x <= 1.0)
  }

  lemma ScaledFeatureColumn(c: Series)
    requires Missing !in c.cells && NumericDtype(c.cells)
    ensures FeatureColumn(ScaleSeries(c), |c.cells|, true)
  {
    ScaleSeriesSpec(c);
  }

  lemma DummyFeatureColumns(cs: seq<Series>, cats: seq<Name>, rows: nat)
    requires forall k :: 0 <= k < |cats| ==> cats[k] in Names(cs)
    requires forall j :: 0 <= j < |cs| ==> |cs[j].cells| == rows
    ensures forall j :: 0 <= j < |DummyBlock(cs, cats)| ==> FeatureColumn(DummyBlock(cs, cats)[j], rows, true)
  {
    var block := DummyBlock(cs, cats);
    DummyBlockSpec(cs, cats, rows);
    forall j | 0 <= j < |block| ensures FeatureColumn(block[j], rows, true) {
      var c := block[j].cells;
      assert forall i :: 0 <= i < rows ==> c[i] in {Num(0.0), Num(1.0)};
      assert forall i :: 0 <= i < rows ==> c[i].Num? && 0.0 <= c[i].x <= 1.0;
    }
  }

  lemma DummyNames(cs: seq<Series>, cats: seq<Name>, rows: nat)
    requires forall k :: 0 <= k < |cats| ==> cats[k] in Names(cs)
    requires forall j :: 0 <= j < |cs| ==> |cs[j].cells| == rows
    ensures forall j :: 0 <= j < |DummyBlock(cs, cats)| ==>
      DummyBlock(cs, cats)[j].name.Indicator? && DummyBlock(cs, cats)[j].name.base in cats
  {
    DummyBlockSpec(cs, cats, rows);
  }

  /** Scaling a complete frame and then expanding `cats` leaves only
      finished feature columns; those the scaler lists lie inside [0, 1]. */
  lemma ScaledDummiesBounds(f: Frame, numeric: seq<bool>, cats: seq<Name>)
    requires WellFormed(f) && Complete(f) && |numeric| == |f.columns|
    requires forall j :: 0 <= j < |f.columns| && numeric[j] ==> NumericDtype(f.columns[j].cells)
    requires forall k :: 0 <= k < |cats| ==> cats[k] in Names(f.columns)
    ensures var g := MinMaxScale(f, numeric); var d := GetDummies(g.frame, cats);
      && d.rows == f.rows
      && forall j :: 0 <= j < |d.columns| ==> FeatureColumn(d.columns[j], f.rows, d.columns[j].name in g.state.columns)
  {
    var g := MinMaxScale(f, numeric);
    var scaled := g.frame;
    var sc := scaled.columns;
    assert g.state.columns == Pick(Names(f.columns), Positions(numeric));
    PickedNames(f.columns, numeric);
    forall j | 0 <= j < |sc| ensures FeatureColumn(sc[j], f.rows, sc[j].name in g.state.columns) {
      assert sc[j].name == f.columns[j].name;
      if numeric[j] {
        assert sc[j] == ScaleSeries(f.columns[j]);
        ScaledFeatureColumn(f.columns[j]);
      } else {
        assert sc[j] == f.columns[j];
      }
    }
    var drop := DropColumns(scaled, cats).columns;
    assert forall j :: 0 <= j < |drop| ==> FeatureColumn(drop[j], f.rows, drop[j].name in g.state.columns);
    var block := DummyBlock(sc, cats);
    assert forall j :: 0 <= j < |sc| ==> |sc[j].cells| == f.rows;
    DummyFeatureColumns(sc, cats, f.rows);
    var d := GetDummies(scaled, cats);
    assert d.columns == drop + block;
  }

  /** Scaling and then expanding `cats` keeps the other columns in their
      order, followed by indicator columns of the columns in `cats`. */
  lemma ScaledDummiesOrder(f: Frame, numeric: seq<bool>, cats: seq<Name>)
    requires WellFormed(f) && |numeric| == |f.columns|
    requires forall k :: 0 <= k < |cats| ==> cats[k] in Names(f.columns)
    ensures var d := GetDummies(MinMaxScale(f, numeric).frame, cats);
      exists m :: 0 <= m <= |d.columns|
        && IsFilter(Names(d.columns[..m]), Names(f.columns), DropMask(f, cats))
        && forall j :: m <= j < |d.columns| ==> d.columns[j].name.Indicator? && d.columns[j].name.base in cats
  {
    var scaled := MinMaxScale(f, numeric).frame;
    forall j | 0 <= j < |scaled.columns| ensures |scaled.columns[j].cells| == f.rows {
      assert scaled.columns[j] == if numeric[j] then ScaleSeries(f.columns[j]) else f.columns[j];
    }
    DummiesOrder(f, scaled, cats);
  }

  /** The order of `get_dummies` on any frame labelled like `f`. */
  lemma DummiesOrder(f: Frame, g: Frame, cats: seq<Name>)
    requires Names(g.columns) == Names(f.columns)
    requires forall k :: 0 <= k < |cats| ==> cats[k] in Names(f.columns)
    requires forall j :: 0 <= j < |g.columns| ==> |g.columns[j].cells| == f.rows
    ensures var d := GetDummies(g, cats);
      exists m :: 0 <= m <= |d.columns|
        && IsFilter(Names(d.columns[..m]), Names(f.columns), DropMask(f, cats))
        && forall j :: m <= j < |d.columns| ==> d.columns[j].name.Indicator? && d.columns[j].name.base in cats
  {
    var d := GetDummies(g, cats);
    var drop := DropColumns(g, cats).columns;
    var block := DummyBlock(g.columns, cats);
    DummyNames(g.columns, cats, f.rows);
    DropColumnsNames(f, g, cats);
    PickPositions(Names(f.columns), DropMask(f, cats));
    var m := |drop|;
    assert d.columns[..m] == drop;
    forall j | m <= j < |d.columns|
      ensures d.columns[j].name.Indicator? && d.columns[j].name.base in cats
    {
      assert d.columns[j] == block[j - m];
    }
  }

  /** Every feature column of a successful run is finished: one cell per kept
      row, no gap, and inside [0, 1] when the fitted scaler lists it. */
  lemma NormalizedFeatures(df: Frame)
    requires WellFormed(df) && Pipeline(df).Normalized?
    ensures var s := Stage(df); var r := Pipeline(df); var out := r.frame;
      forall j :: 0 <= j < |out.columns| - |s.present| ==>
        FeatureColumn(out.columns[j], out.rows, out.columns[j].name in r.scaler.columns)
  {
    var s := Stage(df);
    RowDropSpec(df);
    ScaledDummiesBounds(s.complete, s.numeric, s.cats);
    var d := GetDummies(MinMaxScale(s.complete, s.numeric).frame, s.cats);
    assert Pipeline(df).frame.columns == d.columns + s.keptTargets.columns;
  }

  /** The feature columns of a successful run are the surviving features that
      are not on the categorical list, in their input order, followed by
      indicator columns of surviving categorical features. */
  lemma NormalizedColumnOrder(df: Frame)
    requires WellFormed(df) && Pipeline(df).Normalized?
    ensures var s := Stage(df); var out := Pipeline(df).frame;
      exists m :: 0 <= m <= |out.columns| - |s.present|
        && IsFilter(Names(out.columns[..m]), Names(s.dense.columns), DropMask(s.dense, CATEGORICAL))
        && forall j :: m <= j < |out.columns| - |s.present| ==>
             out.columns[j].name.Indicator? && out.columns[j].name.base in CATEGORICAL
             && out.columns[j].name.base in Names(s.dense.columns)
  {
    var s := Stage(df);
    ScaledDummiesOrder(s.complete, s.numeric, s.cats);
    var d := GetDummies(MinMaxScale(s.complete, s.numeric).frame, s.cats);
    OrderTransfer(d.columns, s.keptTargets.columns, s.complete, s.dense);
    assert Pipeline(df).frame.columns == d.columns + s.keptTargets.columns;
    assert |s.keptTargets.columns| == |s.present|;
  }

  /** Restating the order of the encoded columns in terms of an earlier frame
      with the same labels, with the categorical list taken as a whole. */
  lemma OrderTransfer(dcols: seq<Series>, tcols: seq<Series>, f: Frame, g: Frame)
    requires Names(f.columns) == Names(g.columns)
    requires var cats := PresentAmong(CATEGORICAL, Names(g.columns));
      exists m :: 0 <= m <= |dcols|
        && IsFilter(Names(dcols[..m]), Names(f.columns), DropMask(f, cats))
        && forall j :: m <= j < |dcols| ==> dcols[j].name.Indicator? && dcols[j].name.base in cats
    ensures var out := dcols + tcols;
      exists m :: 0 <= m <= |dcols|
        && IsFilter(Names(out[..m]), Names(g.columns), DropMask(g, CATEGORICAL))
        && forall j :: m <= j < |dcols| ==>
             out[j].name.Indicator? && out[j].name.base in CATEGORICAL && out[j].name.base in Names(g.columns)
  {
    var cats := PresentAmong(CATEGORICAL, Names(g.columns));
    var out := dcols + tcols;
    var m :| 0 <= m <= |dcols|
      && IsFilter(Names(dcols[..m]), Names(f.columns), DropMask(f, cats))
      && forall j :: m <= j < |dcols| ==> dcols[j].name.Indicator? && dcols[j].name.base in cats;
    assert out[..m] == dcols[..m];
    DropPresentMask(f, g, CATEGORICAL);
    var idx :| SelectedBy(Names(dcols[..m]), Names(f.columns), DropMask(f, cats), idx);
    assert SelectedBy(Names(out[..m]), Names(g.columns), DropMask(g, CATEGORICAL), idx);
    PresentAmongSpec(CATEGORICAL, Names(g.columns));
    forall j | m <= j < |dcols|
      ensures out[j].name.Indicator? && out[j].name.base in CATEGORICAL && out[j].name.base in Names(g.columns)
    {
      assert out[j] == dcols[j];
    }
  }

  /** Selecting the rows where a mask holds keeps exactly those rows, in
      order, in every column. */
  lemma RowFilter(f: Frame, mask: seq<bool>)
    requires WellFormed(f) && |mask| == f.rows
    ensures var idx := Positions(mask); var sub := SelectRows(f, idx);
      && Increasing(idx) && |idx| == sub.rows
      && (forall i :: 0 <= i < f.rows ==> (i in idx <==> mask[i]))
      && (forall j, k :: 0 <= j < |f.columns| && 0 <= k < |idx| ==>
            idx[k] < f.rows && sub.columns[j].cells[k] == f.columns[j].cells[idx[k]])
  {
  }

  /** The training table of the Severity and Management models keeps exactly
      the rows whose Diagnosis is "appendicitis", every column, in order; it
      fails only when there is no Diagnosis column. */
  lemma AppendicitisSubsetSpec(df: Frame)
    requires WellFormed(df)
    ensures AppendicitisSubset(df).Some? <==> Plain("Diagnosis") in Names(df.columns)
    ensures AppendicitisSubset(df).Some? ==>
      var d := df.columns[Find(df.columns, Plain("Diagnosis"))].cells;
      var sub := AppendicitisSubset(df).value;
      && WellFormed(sub) && Names(sub.columns) == Names(df.columns)
      && exists idx ::
           && Increasing(idx) && |idx| == sub.rows
           && (forall i :: 0 <= i < df.rows ==> (i in idx <==> d[i] == Text("appendicitis")))
           && (forall j, k :: 0 <= j < |df.columns| && 0 <= k < |idx| ==>
                 idx[k] < df.rows && sub.columns[j].cells[k] == df.columns[j].cells[idx[k]])
  {
    if Plain("Diagnosis") in Names(df.columns) {
      var d := df.columns[Find(df.columns, Plain("Diagnosis"))].cells;
      AppendicitisRows(df, d, AppendicitisSubset(df).value);
    }
  }

  /** The rows a Diagnosis column `d` of `f` selects. */
  lemma AppendicitisRows(f: Frame, d: seq<Cell>, sub: Frame)
    requires WellFormed(f) && |d| == f.rows
    requires sub == SelectRows(f, Positions(AppendicitisMask(d)))
    ensures && WellFormed(sub) && Names(sub.columns) == Names(f.columns)
      && exists idx ::
           && Increasing(idx) && |idx| == sub.rows
           && (forall i :: 0 <= i < f.rows ==> (i in idx <==> d[i] == Text("appendicitis")))
           && (forall j, k :: 0 <= j < |f.columns| && 0 <= k < |idx| ==>
                 idx[k] < f.rows && sub.columns[j].cells[k] == f.columns[j].cells[idx[k]])
  {
    var mask := AppendicitisMask(d);
    SelectRowsWellFormed(f, Positions(mask));
    RowFilter(f, mask);
  }
}
