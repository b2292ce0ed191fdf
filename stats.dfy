/** The column statistics and conversions the pipeline asks pandas for:
    `Series.mode()[0]`, `Series.median()`, `pd.to_numeric` and `fillna`. */
module Stats {
  import opened Frames
  import opened CellOrder

  /** `Series.fillna(v)`. */
  function FillWith(cells: seq<Cell>, v: Cell): seq<Cell>
  {
    seq(|cells|, i requires 0 <= i < |cells| => if cells[i] == Missing then v else cells[i])
  }

  // ---------------------------------------------------------------------
  // mode()[0]

  /** `a` comes no later than `b` in `mode()`'s answer: it is strictly more
      frequent, or as frequent and not larger. */
  predicate Outranks(cells: seq<Cell>, a: Cell, b: Cell)
  {
    Count(cells, a) > Count(cells, b) || (Count(cells, a) == Count(cells, b) && (a == b || Less(a, b)))
  }

  /** `m` is `mode()[0]`: a most frequent present value, the smallest of the tied ones. */
  ghost predicate IsMode(cells: seq<Cell>, m: Cell)
  {
    m != Missing && m in cells && forall v :: v in cells && v != Missing ==> Outranks(cells, m, v)
  }

  lemma OutranksTransitive(cells: seq<Cell>, a: Cell, b: Cell, c: Cell)
    requires Outranks(cells, a, b) && Outranks(cells, b, c)
    ensures Outranks(cells, a, c)
  {
    if Count(cells, a) == Count(cells, b) == Count(cells, c) && a != b && b != c {
      LessTransitive(a, b, c);
    }
  }

  lemma OutranksTotal(cells: seq<Cell>, a: Cell, b: Cell)
    requires a != Missing && b != Missing
    ensures Outranks(cells, a, b) || Outranks(cells, b, a)
  {
    if a != b {
      LessTotal(a, b);
    }
  }

  /** The best-ranked present value among the first `k` cells. */
  function BestAmong(cells: seq<Cell>, k: nat): (r: Option<Cell>)
    requires k <= |cells|
    ensures r.None? <==> forall i :: 0 <= i < k ==> cells[i] == Missing
    ensures r.Some? ==> r.value != Missing && r.value in cells[..k]
    ensures r.Some? ==> forall i :: 0 <= i < k && cells[i] != Missing ==> Outranks(cells, r.value, cells[i])
    decreases k
  {
    if k == 0 then None
    else
      var prev := BestAmong(cells, k - 1);
      var c := cells[k - 1];
      assert cells[..k] == cells[..k - 1] + [c];
      if c == Missing then prev
      else if prev.None? then Some(c)
      else if Outranks(cells, prev.value, c) then prev
      else
        OutranksTotal(cells, prev.value, c);
        assert forall i :: 0 <= i < k - 1 && cells[i] != Missing ==> Outranks(cells, c, cells[i]) by {
          forall i | 0 <= i < k - 1 && cells[i] != Missing
            ensures Outranks(cells, c, cells[i])
          {
            OutranksTransitive(cells, c, prev.value, cells[i]);
          }
        }
        Some(c)
  }

  /** `Series.mode()[0]`, or None where pandas raises because the column has
      no present value (the mode is an empty series). */
  function Mode(cells: seq<Cell>): (r: Option<Cell>)
    ensures r.None? <==> forall i :: 0 <= i < |cells| ==> cells[i] == Missing
    ensures r.Some? ==> IsMode(cells, r.value)
  {
    var r := BestAmong(cells, |cells|);
    assert cells[..|cells|] == cells;
    if r.Some? then
      assert forall v :: v in cells && v != Missing ==> Outranks(cells, r.value, v) by {
        forall v | v in cells && v != Missing ensures Outranks(cells, r.value, v) {
          var i :| 0 <= i < |cells| && cells[i] == v;
        }
      }
      r
    else r
  }

  /** At most one value satisfies the specification of `mode()[0]`. */
  lemma ModeUnique(cells: seq<Cell>, a: Cell, b: Cell)
    requires IsMode(cells, a) && IsMode(cells, b)
    ensures a == b
  {
    if a != b {
      assert Less(a, b) && Less(b, a);
      LessAsymmetric(a, b);
    }
  }

  // ---------------------------------------------------------------------
  // median()

  predicate SortedReals(s: seq<real>)
  {
    forall a, b :: 0 <= a < b < |s| ==> s[a] <= s[b]
  }

  function InsertReal(s: seq<real>, x: real): (r: seq<real>)
    requires SortedReals(s)
    ensures SortedReals(r) && multiset(r) == multiset(s) + multiset{x}
    decreases |s|
  {
    if s == [] || x <= s[0] then
      ConsSorted(x, s);
      [x] + s
    else
      var tail := InsertReal(s[1..], x);
      assert s == [s[0]] + s[1..];
      LowerBoundKept(s[0], s[1..], x, tail);
      ConsSorted(s[0], tail);
      [s[0]] + tail
  }

  /** Putting a lower bound in front of a sorted list keeps it sorted. */
  lemma ConsSorted(low: real, s: seq<real>)
    requires SortedReals(s) && forall b :: 0 <= b < |s| ==> low <= s[b]
    ensures SortedReals([low] + s)
  {
  }

  /** A bound below every element of `rest` and below `x` stays below every
      element of a rearrangement of `rest + [x]`. */
  lemma LowerBoundKept(low: real, rest: seq<real>, x: real, tail: seq<real>)
    requires low <= x && forall b :: 0 <= b < |rest| ==> low <= rest[b]
    requires multiset(tail) == multiset(rest) + multiset{x}
    ensures forall b :: 0 <= b < |tail| ==> low <= tail[b]
  {
    forall b | 0 <= b < |tail|
      ensures low <= tail[b]
    {
      assert tail[b] in multiset(tail);
      if tail[b] != x {
        assert tail[b] in rest;
      }
    }
  }

  function SortReals(s: seq<real>): (r: seq<real>)
    ensures SortedReals(r) && multiset(r) == multiset(s)
    decreases |s|
  {
    if s == [] then []
    else
      assert s == s[..|s| - 1] + [s[|s| - 1]];
      InsertReal(SortReals(s[..|s| - 1]), s[|s| - 1])
  }

  /** `median()` of the present values: the middle one of the sorted values,
      or the mean of the two middle ones for an even count. */
  function Median(s: seq<real>): real
    requires |s| > 0
  {
    var t := SortReals(s);
    var n := |t|;
    if n % 2 == 1 then t[n / 2] else (t[n / 2 - 1] + t[n / 2]) / 2.0
  }

  /** The median lies between the smallest and the largest value, and is one
      of the values when there is an odd number of them. */
  lemma MedianInRange(s: seq<real>)
    requires |s| > 0
    ensures exists i :: 0 <= i < |s| && s[i] <= Median(s)
    ensures exists j :: 0 <= j < |s| && Median(s) <= s[j]
    ensures |s| % 2 == 1 ==> Median(s) in s
  {
    var t := SortReals(s);
    var n := |t|;
    assert t[0] in multiset(s) && t[n - 1] in multiset(s);
    assert t[n / 2] in multiset(s);
    assert t[0] <= Median(s) <= t[n - 1];
  }

  /** The numbers of a column, in order, skipping missing cells. */
  function Values(cells: seq<Cell>): (r: seq<real>)
    ensures |r| <= |cells|
    ensures forall x :: x in r <==> Num(x) in cells
    decreases |cells|
  {
    if cells == [] then []
    else
      var init := cells[..|cells| - 1];
      var last := cells[|cells| - 1];
      assert cells == init + [last];
      if last.Num? then Values(init) + [last.x] else Values(init)
  }

  // ---------------------------------------------------------------------
  // pd.to_numeric

  predicate IsDigit(c: char)
  {
    '0' <= c <= '9'
  }

  predicate AllDigits(s: string)
  {
    forall i :: 0 <= i < |s| ==> IsDigit(s[i])
  }

  function DigitsValue(s: string): nat
    requires AllDigits(s)
    decreases |s|
  {
    if s == [] then 0 else 10 * DigitsValue(s[..|s| - 1]) + (s[|s| - 1] as int - '0' as int)
  }

  function Pow10(k: nat): (p: nat)
    ensures p >= 1
  {
    if k == 0 then 1 else 10 * Pow10(k - 1)
  }

  /** The position of the first '.', or |s| when there is none. */
  function DotIndex(s: string): (k: nat)
    ensures k <= |s|
    ensures k < |s| ==> s[k] == '.'
    ensures forall i :: 0 <= i < k ==> s[i] != '.'
    decreases |s|
  {
    if s == [] then 0 else if s[0] == '.' then 0 else 1 + DotIndex(s[1..])
  }

  /** Digits with at most one decimal point, and at least one digit. */
  function ParseUnsigned(s: string): Option<real>
  {
    var k := DotIndex(s);
    var whole := s[..k];
    var frac := if k < |s| then s[k + 1..] else [];
    if AllDigits(whole) && AllDigits(frac) && |whole| + |frac| > 0 then
      Some(DigitsValue(whole) as real + DigitsValue(frac) as real / Pow10(|frac|) as real)
    else None
  }

  /** The number a text token denotes, if it is written as an optionally
      signed decimal. */
  function ParseNumber(s: string): Option<real>
  {
    if |s| > 0 && (s[0] == '-' || s[0] == '+') then
      match ParseUnsigned(s[1..])
      case None => None
      case Some(v) => Some(if s[0] == '-' then -v else v)
    else ParseUnsigned(s)
  }

  /** The decimal digits of a natural number, most significant first. */
  function ShowNat(n: nat): (s: string)
    ensures |s| > 0 && AllDigits(s)
    decreases n
  {
    var d := ['0' + (n % 10) as char];
    if n < 10 then d else ShowNat(n / 10) + d
  }

  lemma {:induction false} DigitsOfShowNat(n: nat)
    ensures DigitsValue(ShowNat(n)) == n
    decreases n
  {
    var s := ShowNat(n);
    if n >= 10 {
      DigitsOfShowNat(n / 10);
      assert s[..|s| - 1] == ShowNat(n / 10);
    }
  }

  /** Rendering a natural number and converting it back gives the number. */
  lemma ParseShowNat(n: nat)
    ensures ParseNumber(ShowNat(n)) == Some(n as real)
    ensures ParseNumber("-" + ShowNat(n)) == Some(-(n as real))
  {
    var s := ShowNat(n);
    DigitsOfShowNat(n);
    ParseDigits(s);
    assert s[0] != '-' && s[0] != '+' by { assert IsDigit(s[0]); }
    assert ("-" + s)[1..] == s;
  }

  /** A plain run of digits parses to its value. */
  lemma ParseDigits(s: string)
    requires |s| > 0 && AllDigits(s)
    ensures ParseUnsigned(s) == Some(DigitsValue(s) as real)
  {
    var k := DotIndex(s);
    assert k == |s|;
    assert s[..k] == s;
    assert DigitsValue([]) == 0 && Pow10(0) == 1;
  }

  /** How `pd.to_numeric` treats one cell: numbers and missing cells stay,
      the empty string becomes missing, a decimal token becomes its number,
      and anything else makes the whole conversion raise. */
  function ConvertCell(c: Cell): Option<Cell>
  {
    match c
    case Missing => Some(Missing)
    case Num(_) => Some(c)
    case Text(s) =>
      if s == "" then Some(Missing)
      else match ParseNumber(s)
        case Some(x) => Some(Num(x))
        case None => None
  }

  /** `pd.to_numeric(column)`, or None where it raises ValueError. */
  function ToNumeric(cells: seq<Cell>): (r: Option<seq<Cell>>)
    ensures r.Some? <==> forall i :: 0 <= i < |cells| ==> ConvertCell(cells[i]).Some?
    ensures r.Some? ==> |r.value| == |cells| && forall i :: 0 <= i < |cells| ==> ConvertCell(cells[i]) == Some(r.value[i])
    decreases |cells|
  {
    if cells == [] then Some([])
    else
      var init := cells[..|cells| - 1];
      var last := cells[|cells| - 1];
      assert forall i :: 0 <= i < |init| ==> init[i] == cells[i];
      match ToNumeric(init)
      case None => None
      case Some(done) =>
        match ConvertCell(last)
        case None => None
        case Some(c) =>
          var r := done + [c];
          assert forall i :: 0 <= i < |init| ==> r[i] == done[i];
          assert r[|init|] == c && cells[|init|] == last;
          Some(r)
  }
}
