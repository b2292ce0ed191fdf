/** The part of a pandas DataFrame that the feature pipeline relies on: an
    ordered list of named columns over a fixed number of rows, boolean masks
    that select rows or columns, and column-wise concatenation. Row labels are
    not modelled: every frame the pipeline builds carries a fresh 0..n-1 index,
    so selecting "the same index" is selecting the same positions. */
module Frames {

  datatype Option<T> = None | Some(value: T)

  /** One cell: the missing marker (NaN, None, pd.NA), a number or a text token. */
  datatype Cell = Missing | Num(x: real) | Text(s: string)

  /** A column label. `Indicator(base, level)` is the one-hot column that
      pandas labels `base + "_" + str(level)`. */
  datatype Name = Plain(s: string) | Indicator(base: Name, level: Cell)

  datatype Series = Series(name: Name, cells: seq<Cell>)

  datatype Frame = Frame(rows: nat, columns: seq<Series>)

  function Names(cs: seq<Series>): seq<Name>
  {
    seq(|cs|, k requires 0 <= k < |cs| => cs[k].name)
  }

  predicate DistinctNames(cs: seq<Series>)
  {
    forall a, b :: 0 <= a < b < |cs| ==> cs[a].name != cs[b].name
  }

  /** Every column has one cell per row and no label occurs twice. */
  predicate WellFormed(f: Frame)
  {
    && (forall k :: 0 <= k < |f.columns| ==> |f.columns[k].cells| == f.rows)
    && DistinctNames(f.columns)
  }

  /** pandas' numeric dtype: a column of numbers and missing cells only. */
  predicate NumericDtype(cells: seq<Cell>)
  {
    forall i :: 0 <= i < |cells| ==> !cells[i].Text?
  }

  /** The number of occurrences of `v` in a column. */
  function Count(cells: seq<Cell>, v: Cell): nat
  {
    multiset(cells)[v]
  }

  predicate Increasing(s: seq<nat>)
  {
    forall a, b :: 0 <= a < b < |s| ==> s[a] < s[b]
  }

  /** The positions where a boolean mask holds, in increasing order: what
      `frame.loc[mask]` (rows) or `frame.loc[:, mask]` (columns) keeps. */
  function Positions(mask: seq<bool>): (r: seq<nat>)
    ensures Increasing(r)
    ensures forall k :: 0 <= k < |r| ==> r[k] < |mask| && mask[r[k]]
    ensures forall i :: 0 <= i < |mask| && mask[i] ==> i in r
    decreases |mask|
  {
    if mask == [] then []
    else
      var rest := Positions(mask[..|mask| - 1]);
      if mask[|mask| - 1] then rest + [|mask| - 1] else rest
  }

  /** The elements of `s` at the positions `idx`, in that order. */
  function Pick<T>(s: seq<T>, idx: seq<nat>): seq<T>
    requires forall k :: 0 <= k < |idx| ==> idx[k] < |s|
  {
    seq(|idx|, k requires 0 <= k < |idx| => s[idx[k]])
  }

  /** The position of the column labelled `n`: the last one, which under
      `DistinctNames` is the only one. */
  function Find(cs: seq<Series>, n: Name): (k: nat)
    requires n in Names(cs)
    ensures k < |cs| && cs[k].name == n
    decreases |cs|
  {
    if cs[|cs| - 1].name == n then |cs| - 1
    else
      assert Names(cs) == Names(cs[..|cs| - 1]) + [cs[|cs| - 1].name];
      Find(cs[..|cs| - 1], n)
  }

  /** Which candidates are among `names`. */
  function PresentMask(candidates: seq<Name>, names: seq<Name>): seq<bool>
  {
    seq(|candidates|, k requires 0 <= k < |candidates| => candidates[k] in names)
  }

  /** `[c for c in candidates if c in names]`. */
  function PresentAmong(candidates: seq<Name>, names: seq<Name>): seq<Name>
  {
    Pick(candidates, Positions(PresentMask(candidates, names)))
  }

  /** `frame[names]` / `frame.loc[:, mask]` with the mask given per column. */
  function SelectColumns(f: Frame, mask: seq<bool>): Frame
    requires |mask| == |f.columns|
  {
    Frame(f.rows, Pick(f.columns, Positions(mask)))
  }

  /** `frame.loc[mask]`: the selected rows, in order, renumbered by position.
      That is exact after `reset_index(drop=True)`; where pandas keeps the
      original row labels, those labels are not modelled. */
  function SelectRows(f: Frame, idx: seq<nat>): Frame
    requires WellFormed(f)
    requires forall k :: 0 <= k < |idx| ==> idx[k] < f.rows
  {
    Frame(|idx|, seq(|f.columns|, j requires 0 <= j < |f.columns| =>
      Series(f.columns[j].name, Pick(f.columns[j].cells, idx))))
  }

  /** `frame[present]` for labels that are all present, in the order given. */
  function ColumnsNamed(f: Frame, present: seq<Name>): Frame
    requires forall k :: 0 <= k < |present| ==> present[k] in Names(f.columns)
  {
    Frame(f.rows, seq(|present|, k requires 0 <= k < |present| => f.columns[Find(f.columns, present[k])]))
  }

  /** The columns `frame.drop(columns=labels)` keeps. */
  function DropMask(f: Frame, labels: seq<Name>): seq<bool>
  {
    seq(|f.columns|, j requires 0 <= j < |f.columns| => f.columns[j].name !in labels)
  }

  /** `frame.drop(columns=labels)`. */
  function DropColumns(f: Frame, labels: seq<Name>): Frame
  {
    SelectColumns(f, DropMask(f, labels))
  }

  /** `pd.concat([left, right], axis=1)` of two frames with reset indexes. */
  function Concat(left: Frame, right: Frame): Frame
    requires left.rows == right.rows
  {
    Frame(left.rows, left.columns + right.columns)
  }

  // ---------------------------------------------------------------------
  // Facts about the selection helpers

  /** `sub` is what the mask `keep` leaves of `s`, in the order of `s`, with
      `idx` giving the original position of each kept element. */
  ghost predicate SelectedBy<T>(sub: seq<T>, s: seq<T>, keep: seq<bool>, idx: seq<nat>)
  {
    && |keep| == |s| && |idx| == |sub| && Increasing(idx)
    && (forall k :: 0 <= k < |idx| ==> idx[k] < |s| && sub[k] == s[idx[k]])
    && (forall j :: 0 <= j < |s| ==> (keep[j] <==> j in idx))
  }

  /** `sub` keeps exactly the elements of `s` that the mask selects, in order. */
  ghost predicate IsFilter<T>(sub: seq<T>, s: seq<T>, keep: seq<bool>)
  {
    exists idx :: SelectedBy(sub, s, keep, idx)
  }

  /** A mask selects nothing iff it holds nowhere. */
  lemma PositionsEmpty(mask: seq<bool>)
    ensures Positions(mask) == [] <==> forall i :: 0 <= i < |mask| ==> !mask[i]
  {
  }

  lemma PickPositions<T>(s: seq<T>, keep: seq<bool>)
    requires |keep| == |s|
    ensures SelectedBy(Pick(s, Positions(keep)), s, keep, Positions(keep))
  {
  }

  /** Distinct elements stay distinct when increasing positions are picked. */
  lemma PickDistinct<T>(s: seq<T>, idx: seq<nat>)
    requires forall a, b :: 0 <= a < b < |s| ==> s[a] != s[b]
    requires Increasing(idx) && forall k :: 0 <= k < |idx| ==> idx[k] < |s|
    ensures forall a, b :: 0 <= a < b < |idx| ==> Pick(s, idx)[a] != Pick(s, idx)[b]
  {
  }

  /** Distinct candidates stay distinct after filtering. */
  lemma PresentAmongDistinct(candidates: seq<Name>, names: seq<Name>)
    requires forall a, b :: 0 <= a < b < |candidates| ==> candidates[a] != candidates[b]
    ensures var p := PresentAmong(candidates, names);
      forall a, b :: 0 <= a < b < |p| ==> p[a] != p[b]
  {
    PickDistinct(candidates, Positions(PresentMask(candidates, names)));
  }

  /** Each label of a column selection is the label of a column the mask keeps. */
  lemma SelectedNames(f: Frame, mask: seq<bool>)
    requires |mask| == |f.columns|
    ensures forall n :: n in Names(SelectColumns(f, mask).columns) ==>
      exists j :: 0 <= j < |f.columns| && mask[j] && f.columns[j].name == n
  {
    var idx := Positions(mask);
    var sel := SelectColumns(f, mask).columns;
    forall n | n in Names(sel)
      ensures exists j :: 0 <= j < |f.columns| && mask[j] && f.columns[j].name == n
    {
      var k :| 0 <= k < |sel| && Names(sel)[k] == n;
      assert mask[idx[k]] && f.columns[idx[k]].name == n;
    }
  }

  /** The columns `drop` keeps are columns of the frame, and distinct
      labels stay distinct. */
  lemma DropColumnsDistinct(f: Frame, labels: seq<Name>)
    requires DistinctNames(f.columns)
    ensures var kept := DropColumns(f, labels).columns;
      && DistinctNames(kept)
      && forall i :: 0 <= i < |kept| ==> exists j :: 0 <= j < |f.columns| && kept[i] == f.columns[j]
  {
    var idx := Positions(DropMask(f, labels));
    var kept := DropColumns(f, labels).columns;
    forall i | 0 <= i < |kept|
      ensures kept[i] == f.columns[idx[i]]
    {
    }
  }

  /** Two lists of columns with distinct labels and no label in common
      concatenate to a list with distinct labels. */
  lemma ConcatDistinct(a: seq<Series>, b: seq<Series>)
    requires DistinctNames(a) && DistinctNames(b)
    requires forall i :: 0 <= i < |a| ==> a[i].name !in Names(b)
    ensures DistinctNames(a + b)
  {
    forall x, y | 0 <= x < y < |a + b|
      ensures (a + b)[x].name != (a + b)[y].name
    {
      if x < |a| <= y {
        assert Names(b)[y - |a|] == (a + b)[y].name;
      }
    }
  }

  lemma NamesOfPick(cs: seq<Series>, idx: seq<nat>)
    requires forall k :: 0 <= k < |idx| ==> idx[k] < |cs|
    ensures Names(Pick(cs, idx)) == Pick(Names(cs), idx)
  {
  }

  /** With distinct labels, a column's label is among the labels a mask picks
      iff the mask holds at that column. */
  lemma PickedNames(cs: seq<Series>, keep: seq<bool>)
    requires DistinctNames(cs) && |keep| == |cs|
    ensures forall j :: 0 <= j < |cs| ==> (cs[j].name in Pick(Names(cs), Positions(keep)) <==> keep[j])
  {
    var idx := Positions(keep);
    var picked := Pick(Names(cs), idx);
    forall j | 0 <= j < |cs|
      ensures cs[j].name in picked <==> keep[j]
    {
      if keep[j] {
        var k :| 0 <= k < |idx| && idx[k] == j;
        assert picked[k] == cs[j].name;
      }
      if cs[j].name in picked {
        var k :| 0 <= k < |picked| && picked[k] == cs[j].name;
        assert cs[idx[k]].name == cs[j].name;
      }
    }
  }

  /** Dropping labels depends on the column labels only. */
  lemma DropColumnsNames(f: Frame, g: Frame, labels: seq<Name>)
    requires Names(f.columns) == Names(g.columns)
    ensures DropMask(g, labels) == DropMask(f, labels)
    ensures Names(DropColumns(g, labels).columns) == Pick(Names(f.columns), Positions(DropMask(f, labels)))
  {
    forall j | 0 <= j < |f.columns| ensures DropMask(g, labels)[j] == DropMask(f, labels)[j] {
      assert Names(g.columns)[j] == Names(f.columns)[j];
    }
    NamesOfPick(g.columns, Positions(DropMask(g, labels)));
  }

  /** The labels `frame.drop(columns=labels)` keeps are exactly the column
      labels not in `labels`. */
  lemma KeptLabels(f: Frame, labels: seq<Name>)
    ensures var kept := Pick(Names(f.columns), Positions(DropMask(f, labels)));
      forall n :: n in kept <==> n in Names(f.columns) && n !in labels
  {
    var mask := DropMask(f, labels);
    var idx := Positions(mask);
    var kept := Pick(Names(f.columns), idx);
    forall n | n in Names(f.columns) && n !in labels
      ensures n in kept
    {
      var j :| 0 <= j < |f.columns| && Names(f.columns)[j] == n;
      assert mask[j];
      var k :| 0 <= k < |idx| && idx[k] == j;
      assert kept[k] == n;
    }
  }

  /** Dropping the candidates present in a frame drops the same columns as
      dropping all of them. */
  lemma DropPresentMask(f: Frame, g: Frame, candidates: seq<Name>)
    requires Names(f.columns) == Names(g.columns)
    ensures DropMask(f, PresentAmong(candidates, Names(g.columns))) == DropMask(g, candidates)
  {
    var names := Names(g.columns);
    PresentAmongSpec(candidates, names);
    forall j | 0 <= j < |names|
      ensures DropMask(f, PresentAmong(candidates, names))[j] == DropMask(g, candidates)[j]
    {
      assert f.columns[j].name == Names(f.columns)[j] == names[j] == g.columns[j].name;
    }
  }

  /** A name survives `PresentAmong` iff it is a candidate that is present. */
  lemma PresentAmongSpec(candidates: seq<Name>, names: seq<Name>)
    ensures forall n :: n in PresentAmong(candidates, names) <==> n in candidates && n in names
    ensures forall k :: 0 <= k < |PresentAmong(candidates, names)| ==> PresentAmong(candidates, names)[k] in names
  {
    var mask := PresentMask(candidates, names);
    var idx := Positions(mask);
    forall n | n in candidates && n in names
      ensures n in PresentAmong(candidates, names)
    {
      var k :| 0 <= k < |candidates| && candidates[k] == n;
      assert mask[k];
      var p :| 0 <= p < |idx| && idx[p] == k;
      assert PresentAmong(candidates, names)[p] == n;
    }
  }

  /** The survivors of `PresentAmong` keep the candidates' order. */
  lemma PresentAmongOrder(candidates: seq<Name>, names: seq<Name>)
    ensures IsFilter(PresentAmong(candidates, names), candidates, PresentMask(candidates, names))
  {
    PickPositions(candidates, PresentMask(candidates, names));
  }
}
