/** The value encoders the pipeline applies: `Series.map({'yes': 1, 'no': 0})`,
    scikit-learn's MinMaxScaler and `pd.get_dummies(..., drop_first=True)`. */
module Encoding {
  import opened Frames
  import opened CellOrder
  import opened Stats

  // ---------------------------------------------------------------------
  // Series.map({'yes': 1, 'no': 0})

  /** A dictionary lookup: a token not in the dictionary, a number or a
      missing cell all come out missing, and nothing is raised. */
  function MapYesNo(c: Cell): Cell
  {
    if c == Text("yes") then Num(1.0) else if c == Text("no") then Num(0.0) else Missing
  }

  function MapYesNoCells(cells: seq<Cell>): (r: seq<Cell>)
    ensures |r| == |cells|
    ensures forall i :: 0 <= i < |cells| ==> r[i] == MapYesNo(cells[i])
  {
    seq(|cells|, i requires 0 <= i < |cells| => MapYesNo(cells[i]))
  }

  /** After the mapping a column is numeric and holds only 0, 1 and gaps;
      exactly the "yes" cells are 1 and exactly the "no" cells are 0. */
  lemma MapYesNoValues(cells: seq<Cell>)
    ensures NumericDtype(MapYesNoCells(cells))
    ensures forall i :: 0 <= i < |cells| ==>
      MapYesNoCells(cells)[i] in {Missing, Num(0.0), Num(1.0)}
    ensures forall i :: 0 <= i < |cells| ==>
      && (MapYesNoCells(cells)[i] == Num(1.0) <==> cells[i] == Text("yes"))
      && (MapYesNoCells(cells)[i] == Num(0.0) <==> cells[i] == Text("no"))
  {
  }

  // ---------------------------------------------------------------------
  // MinMaxScaler

  function MinOf(s: seq<real>): (m: real)
    requires |s| > 0
    ensures m in s && forall i :: 0 <= i < |s| ==> m <= s[i]
    decreases |s|
  {
    if |s| == 1 then s[0]
    else
      var rest := MinOf(s[1..]);
      assert forall i :: 1 <= i < |s| ==> s[i] == s[1..][i - 1];
      if s[0] <= rest then s[0] else rest
  }

  function MaxOf(s: seq<real>): (m: real)
    requires |s| > 0
    ensures m in s && forall i :: 0 <= i < |s| ==> s[i] <= m
    decreases |s|
  {
    if |s| == 1 then s[0]
    else
      var rest := MaxOf(s[1..]);
      assert forall i :: 1 <= i < |s| ==> s[i] == s[1..][i - 1];
      if rest <= s[0] then s[0] else rest
  }

  /** The fitted state of one column: its minimum and maximum. */
  datatype Range = Range(lo: real, hi: real)

  /** The fitted scaler: the numeric columns it was fitted on, in order, with their ranges. */
  datatype ScalerState = ScalerState(columns: seq<Name>, ranges: seq<Range>)

  /** A scaled frame with the scaler fitted on it. */
  datatype Scaled = Scaled(frame: Frame, state: ScalerState)

  /** The range the scaler learns from a column: its smallest and largest number. */
  function Fit(cells: seq<Cell>): Range
  {
    var vs := Values(cells);
    if vs == [] then Range(0.0, 0.0) else Range(MinOf(vs), MaxOf(vs))
  }

  /** `(x - min) / (max - min)`; a constant column (max == min) maps to 0, as
      scikit-learn does by treating a zero range as 1. */
  function ScaleValue(x: real, r: Range): real
  {
    if r.hi == r.lo then 0.0 else (x - r.lo) / (r.hi - r.lo)
  }

  function ScaleCells(cells: seq<Cell>, r: Range): seq<Cell>
  {
    seq(|cells|, i requires 0 <= i < |cells| => if cells[i].Num? then Num(ScaleValue(cells[i].x, r)) else cells[i])
  }

  /** A value inside the fitted range lands in [0, 1]; the minimum lands on 0
      and, when the range is not degenerate, the maximum on 1. */
  lemma ScaleValueBounds(x: real, r: Range)
    requires r.lo <= x <= r.hi
    ensures 0.0 <= ScaleValue(x, r) <= 1.0
    ensures x == r.lo ==> ScaleValue(x, r) == 0.0
    ensures x == r.hi && r.lo < r.hi ==> ScaleValue(x, r) == 1.0
  {
    if r.lo < r.hi {
      var d := r.hi - r.lo;
      assert (x - r.lo) / d <= 1.0 by {
        assert x - r.lo <= d;
      }
    }
  }

  /** A complete frame: no missing cell anywhere (what `dropna()` leaves). */
  predicate Complete(f: Frame)
  {
    forall j, i :: 0 <= j < |f.columns| && 0 <= i < |f.columns[j].cells| ==> f.columns[j].cells[i] != Missing
  }

  /** `pd.api.types.is_numeric_dtype` of each column, read from its cells: a
      column read from a CSV file, or produced by `map` or `to_numeric`, has
      a numeric dtype iff it holds no text. */
  function NumericMask(cs: seq<Series>): seq<bool>
  {
    seq(|cs|, j requires 0 <= j < |cs| => NumericDtype(cs[j].cells))
  }

  /** The scaler has nothing to fit on iff no column is numeric. */
  lemma NoNumericColumn(cs: seq<Series>)
    ensures Positions(NumericMask(cs)) == [] <==> forall j :: 0 <= j < |cs| ==> !NumericDtype(cs[j].cells)
  {
    var mask := NumericMask(cs);
    if Positions(mask) != [] {
      var j := Positions(mask)[0];
      assert mask[j] && NumericDtype(cs[j].cells);
    } else {
      forall j | 0 <= j < |cs| ensures !NumericDtype(cs[j].cells) {
        assert !mask[j];
      }
    }
  }

  /** One column scaled with the range fitted on it. */
  function ScaleSeries(s: Series): Series
  {
    Series(s.name, ScaleCells(s.cells, Fit(s.cells)))
  }

  /** `scaler.fit(frame[numerical_cols])` followed by
      `frame[numerical_cols] = scaler.transform(...)`, where `numeric` flags
      the columns of numeric dtype. A column keeps the dtype it had before
      `dropna()`, so the caller passes the flags of the frame before its rows
      were dropped. The caller has made sure there is a row and a numeric
      column to fit on. */
  function MinMaxScale(f: Frame, numeric: seq<bool>): (r: Scaled)
    requires |numeric| == |f.columns|
    ensures r.frame.rows == f.rows && Names(r.frame.columns) == Names(f.columns)
  {
    var cs := f.columns;
    var idx := Positions(numeric);
    Scaled(
      Frame(f.rows, seq(|cs|, j requires 0 <= j < |cs| => if numeric[j] then ScaleSeries(cs[j]) else cs[j])),
      ScalerState(Pick(Names(cs), idx), seq(|idx|, k requires 0 <= k < |idx| => Fit(cs[idx[k]].cells))))
  }

  /** A complete numeric column comes out inside [0, 1], with its minimum at 0
      and, unless it is constant, its maximum at 1; a constant column is all
      0. Its label stays. */
  lemma ScaleSeriesSpec(s: Series)
    requires forall i :: 0 <= i < |s.cells| ==> s.cells[i] != Missing
    ensures ScaleSeries(s).name == s.name && |ScaleSeries(s).cells| == |s.cells|
    ensures NumericDtype(s.cells) && |s.cells| > 0 ==>
      var cells := s.cells;
      var out := ScaleSeries(s).cells;
      var lo := MinOf(Values(cells));
      var hi := MaxOf(Values(cells));
      && (forall i :: 0 <= i < |cells| ==> out[i].Num? && 0.0 <= out[i].x <= 1.0)
      && (forall i :: 0 <= i < |cells| && cells[i] == Num(lo) ==> out[i] == Num(0.0))
      && (forall i :: 0 <= i < |cells| && cells[i] == Num(hi) && lo < hi ==> out[i] == Num(1.0))
      && (lo == hi ==> forall i :: 0 <= i < |cells| ==> out[i] == Num(0.0))
  {
    var cells := s.cells;
    if NumericDtype(cells) && |cells| > 0 {
      var vs := Values(cells);
      assert cells[0].Num? && cells[0].x in vs;
      var r := Fit(cells);
      assert r == Range(MinOf(vs), MaxOf(vs));
      forall i | 0 <= i < |cells|
        ensures cells[i].Num? && r.lo <= cells[i].x <= r.hi
      {
        assert cells[i].x in vs;
      }
      ScaleCellsBounds(cells, r);
    }
  }

  /** Scaling cells that all lie in the fitted range. */
  lemma ScaleCellsBounds(cells: seq<Cell>, r: Range)
    requires forall i :: 0 <= i < |cells| ==> cells[i].Num? && r.lo <= cells[i].x <= r.hi
    ensures var out := ScaleCells(cells, r);
      && (forall i :: 0 <= i < |cells| ==> out[i].Num? && 0.0 <= out[i].x <= 1.0)
      && (forall i :: 0 <= i < |cells| && cells[i] == Num(r.lo) ==> out[i] == Num(0.0))
      && (forall i :: 0 <= i < |cells| && cells[i] == Num(r.hi) && r.lo < r.hi ==> out[i] == Num(1.0))
      && (r.lo == r.hi ==> forall i :: 0 <= i < |cells| ==> out[i] == Num(0.0))
  {
    forall i | 0 <= i < |cells|
      ensures 0.0 <= ScaleValue(cells[i].x, r) <= 1.0
      ensures cells[i].x == r.lo ==> ScaleValue(cells[i].x, r) == 0.0
      ensures cells[i].x == r.hi && r.lo < r.hi ==> ScaleValue(cells[i].x, r) == 1.0
    {
      ScaleValueBounds(cells[i].x, r);
    }
  }

  /** The scaler changes the flagged columns only, each on its own, and never
      the shape or the labels. Its fitted state lists the flagged columns in
      frame order, each with the smallest and largest of its numbers, and each
      flagged column is transformed with exactly the range stored for it. */
  lemma MinMaxScaleShape(f: Frame, numeric: seq<bool>)
    requires |numeric| == |f.columns|
    ensures var g := MinMaxScale(f, numeric);
      && (forall j :: 0 <= j < |f.columns| ==>
            g.frame.columns[j] == if numeric[j] then ScaleSeries(f.columns[j]) else f.columns[j])
      && |g.state.ranges| == |g.state.columns|
      && exists idx ::
           && SelectedBy(g.state.columns, Names(f.columns), numeric, idx)
           && forall k :: 0 <= k < |idx| ==> FittedColumn(f.columns[idx[k]], g.frame.columns[idx[k]], g.state.ranges[k])
  {
    var g := MinMaxScale(f, numeric);
    var idx := Positions(numeric);
    PickPositions(Names(f.columns), numeric);
    forall k | 0 <= k < |idx|
      ensures FittedColumn(f.columns[idx[k]], g.frame.columns[idx[k]], g.state.ranges[k])
    {
      assert g.state.ranges[k] == Fit(f.columns[idx[k]].cells);
      assert g.frame.columns[idx[k]] == ScaleSeries(f.columns[idx[k]]);
    }
  }

  /** `out` is `c` transformed with the range `r`, which holds the smallest and
      largest number of `c`. */
  predicate FittedColumn(c: Series, out: Series, r: Range)
  {
    && (Values(c.cells) != [] ==> r == Range(MinOf(Values(c.cells)), MaxOf(Values(c.cells))))
    && out == Series(c.name, ScaleCells(c.cells, r))
  }

  // ---------------------------------------------------------------------
  // pd.get_dummies(frame, columns=categorical, drop_first=True)

  function OneHot(cells: seq<Cell>, v: Cell): seq<Cell>
  {
    seq(|cells|, i requires 0 <= i < |cells| => if cells[i] == v then Num(1.0) else Num(0.0))
  }

  /** The indicator columns of one categorical column: one per observed value
      in sorted order, with the first value dropped. */
  function Indicators(s: Series): seq<Series>
  {
    var levels := Levels(s.cells);
    seq(if |levels| <= 1 then 0 else |levels| - 1, k requires 0 <= k < |levels| - 1 =>
      Series(Indicator(s.name, levels[k + 1]), OneHot(s.cells, levels[k + 1])))
  }

  /** The indicator columns of the categorical columns, column after column. */
  function DummyBlock(cs: seq<Series>, cats: seq<Name>): seq<Series>
    requires forall k :: 0 <= k < |cats| ==> cats[k] in Names(cs)
    decreases |cats|
  {
    if cats == [] then []
    else DummyBlock(cs, cats[..|cats| - 1]) + Indicators(cs[Find(cs, cats[|cats| - 1])])
  }

  /** The other columns in their order, then the indicator columns. */
  function GetDummies(f: Frame, cats: seq<Name>): Frame
    requires forall k :: 0 <= k < |cats| ==> cats[k] in Names(f.columns)
  {
    Frame(f.rows, DropColumns(f, cats).columns + DummyBlock(f.columns, cats))
  }

  /** The indicator columns of a column, with the level each one stands for. */
  lemma IndicatorsShape(s: Series)
    ensures var levels := Levels(s.cells);
      && |Indicators(s)| == (if |levels| == 0 then 0 else |levels| - 1)
      && forall k :: 0 <= k < |Indicators(s)| ==>
           Indicators(s)[k] == Series(Indicator(s.name, levels[k + 1]), OneHot(s.cells, levels[k + 1]))
  {
  }

  /** A column gets one indicator for every observed value except the first
      in sorted order, and its indicators come in sorted order of value. */
  lemma IndicatorsLevels(s: Series)
    ensures forall v :: Indicator(s.name, v) in Names(Indicators(s)) <==>
      v in s.cells && v != Missing && v != Levels(s.cells)[0]
    ensures forall a, b :: 0 <= a < b < |Indicators(s)| ==>
      Less(Indicators(s)[a].name.level, Indicators(s)[b].name.level)
  {
    var levels := Levels(s.cells);
    IndicatorsShape(s);
    LevelNames(s.name, levels, Indicators(s));
  }

  /** Indicator columns labelled by the levels after the first, in order. */
  lemma LevelNames(base: Name, levels: seq<Cell>, ind: seq<Series>)
    requires StrictlySorted(levels)
    requires |ind| == (if |levels| == 0 then 0 else |levels| - 1)
    requires forall k :: 0 <= k < |ind| ==> ind[k].name == Indicator(base, levels[k + 1])
    ensures forall v :: Indicator(base, v) in Names(ind) <==> v in levels && v != levels[0]
    ensures forall a, b :: 0 <= a < b < |ind| ==> Less(ind[a].name.level, ind[b].name.level)
  {
    var names := Names(ind);
    forall v | v in levels && v != levels[0]
      ensures Indicator(base, v) in names
    {
      var p :| 0 <= p < |levels| && levels[p] == v;
      assert names[p - 1] == Indicator(base, v);
    }
    forall v | Indicator(base, v) in names
      ensures v in levels && v != levels[0]
    {
      var k :| 0 <= k < |ind| && names[k] == Indicator(base, v);
      assert v == levels[k + 1];
      SortedDistinct(levels, 0, k + 1);
    }
    forall a, b | 0 <= a < b < |ind|
      ensures Less(ind[a].name.level, ind[b].name.level)
    {
      assert ind[a].name.level == levels[a + 1] && ind[b].name.level == levels[b + 1];
    }
  }

  /** Reads a categorical value back from its indicators in row `i`: the level
      of the indicator that is 1, or the dropped first level if none is. */
  function Decode(first: Cell, ind: seq<Series>, i: nat): Cell
    decreases |ind|
  {
    if ind == [] then first
    else if i < |ind[0].cells| && ind[0].cells[i] == Num(1.0) && ind[0].name.Indicator? then ind[0].name.level
    else Decode(first, ind[1..], i)
  }

  /** In each row, the indicator of the row's own value is 1 and every other
      indicator is 0; so at most one of them is 1, and all are 0 exactly when
      the row holds the dropped first level. */
  lemma IndicatorsOneHot(s: Series, i: nat)
    requires i < |s.cells| && s.cells[i] != Missing
    ensures var ind := Indicators(s);
      && (forall k :: 0 <= k < |ind| ==> |ind[k].cells| == |s.cells| && ind[k].name.Indicator?)
      && (forall k :: 0 <= k < |ind| ==> ind[k].cells[i] in {Num(0.0), Num(1.0)})
      && (forall k :: 0 <= k < |ind| ==> (ind[k].cells[i] == Num(1.0) <==> ind[k].name.level == s.cells[i]))
      && (forall a, b :: 0 <= a < b < |ind| ==> !(ind[a].cells[i] == Num(1.0) && ind[b].cells[i] == Num(1.0)))
      && ((forall k :: 0 <= k < |ind| ==> ind[k].cells[i] == Num(0.0)) <==> s.cells[i] == Levels(s.cells)[0])
  {
    var levels := Levels(s.cells);
    var ind := Indicators(s);
    var p :| 0 <= p < |levels| && levels[p] == s.cells[i];
    assert |ind| == |levels| - 1;
    forall a, b | 0 <= a < b < |levels|
      ensures levels[a] != levels[b]
    {
      SortedDistinct(levels, a, b);
    }
    forall k | 0 <= k < |ind|
      ensures ind[k].name == Indicator(s.name, levels[k + 1])
      ensures ind[k].cells == OneHot(s.cells, levels[k + 1])
    {
    }
    if p > 0 {
      assert ind[p - 1].cells[i] == Num(1.0);
    }
  }

  /** Decoding the indicators of a row gives back the row's categorical value. */
  lemma DecodeIndicators(s: Series, i: nat)
    requires i < |s.cells| && s.cells[i] != Missing
    ensures Decode(Levels(s.cells)[0], Indicators(s), i) == s.cells[i]
  {
    IndicatorsOneHot(s, i);
    var levels := Levels(s.cells);
    DecodeFirstHot(levels[0], Indicators(s), i, s.cells[i]);
  }

  /** `Decode` returns the level of the one indicator that is hot, or the
      first level when none is. */
  lemma {:induction false} DecodeFirstHot(first: Cell, ind: seq<Series>, i: nat, v: Cell)
    requires forall k :: 0 <= k < |ind| ==> i < |ind[k].cells| && ind[k].name.Indicator?
    requires forall k :: 0 <= k < |ind| ==> (ind[k].cells[i] == Num(1.0) <==> ind[k].name.level == v)
    requires (forall k :: 0 <= k < |ind| ==> ind[k].cells[i] != Num(1.0)) ==> v == first
    ensures Decode(first, ind, i) == v
    decreases |ind|
  {
    if ind != [] && ind[0].cells[i] != Num(1.0) {
      DecodeFirstHot(first, ind[1..], i, v);
    }
  }
}
