/** The order pandas sorts cell values in, for the tie-break of `mode()` and
    for the category order of `get_dummies`: numbers by value, text by code
    point (Python's string comparison). Numbers are placed before text; a
    column that mixes the two is a convention of this model (pandas gives up
    sorting such a column). The missing marker is never ordered. */
module CellOrder {
  import opened Frames

  /** Python's `a < b` on strings: lexicographic on code points. */
  predicate StrLess(a: string, b: string)
    decreases |a|
  {
    if a == [] then b != []
    else b != [] && (a[0] < b[0] || (a[0] == b[0] && StrLess(a[1..], b[1..])))
  }

  predicate Less(a: Cell, b: Cell)
  {
    match (a, b)
    case (Num(x), Num(y)) => x < y
    case (Num(_), Text(_)) => true
    case (Text(s), Text(t)) => StrLess(s, t)
    case _ => false
  }

  lemma {:induction false} StrLessIrreflexive(a: string)
    ensures !StrLess(a, a)
    decreases |a|
  {
    if a != [] {
      StrLessIrreflexive(a[1..]);
    }
  }

  lemma {:induction false} StrLessTransitive(a: string, b: string, c: string)
    requires StrLess(a, b) && StrLess(b, c)
    ensures StrLess(a, c)
    decreases |a|
  {
    if a != [] && a[0] == b[0] && b[0] == c[0] {
      StrLessTransitive(a[1..], b[1..], c[1..]);
    }
  }

  lemma {:induction false} StrLessTotal(a: string, b: string)
    requires a != b
    ensures StrLess(a, b) || StrLess(b, a)
    decreases |a|
  {
    if a != [] && b != [] && a[0] == b[0] {
      assert a == [a[0]] + a[1..] && b == [b[0]] + b[1..];
      StrLessTotal(a[1..], b[1..]);
    }
  }

  lemma LessIrreflexive(a: Cell)
    ensures !Less(a, a)
  {
    if a.Text? {
      StrLessIrreflexive(a.s);
    }
  }

  lemma LessTransitive(a: Cell, b: Cell, c: Cell)
    requires Less(a, b) && Less(b, c)
    ensures Less(a, c)
  {
    if a.Text? {
      StrLessTransitive(a.s, b.s, c.s);
    }
  }

  /** Two different present cells are always ordered one way or the other. */
  lemma LessTotal(a: Cell, b: Cell)
    requires a != Missing && b != Missing && a != b
    ensures Less(a, b) || Less(b, a)
  {
    if a.Text? && b.Text? {
      StrLessTotal(a.s, b.s);
    }
  }

  lemma LessAsymmetric(a: Cell, b: Cell)
    requires Less(a, b)
    ensures !Less(b, a)
  {
    if Less(b, a) {
      LessTransitive(a, b, a);
      LessIrreflexive(a);
    }
  }

  predicate StrictlySorted(s: seq<Cell>)
  {
    forall a, b :: 0 <= a < b < |s| ==> Less(s[a], s[b])
  }

  /** Adds a present value to a strictly sorted list of distinct values. */
  function Insert(s: seq<Cell>, v: Cell): (r: seq<Cell>)
    requires StrictlySorted(s) && v != Missing && Missing !in s
    ensures StrictlySorted(r) && Missing !in r
    ensures forall x :: x in r <==> x in s || x == v
    decreases |s|
  {
    if s == [] then [v]
    else if v == s[0] then s
    else if Less(v, s[0]) then
      assert forall b :: 0 < b < |s| ==> Less(v, s[b]) by {
        forall b | 0 < b < |s| ensures Less(v, s[b]) { LessTransitive(v, s[0], s[b]); }
      }
      [v] + s
    else
      LessTotal(v, s[0]);
      var tail := Insert(s[1..], v);
      assert forall x :: x in tail ==> Less(s[0], x);
      [s[0]] + tail
  }

  /** The distinct present values of a column in sorted order: the categories
      `pd.get_dummies` creates columns for. */
  function Levels(cells: seq<Cell>): (r: seq<Cell>)
    ensures StrictlySorted(r) && Missing !in r
    ensures forall x :: x in r <==> x in cells && x != Missing
    ensures forall i :: 0 <= i < |cells| && cells[i] != Missing ==> cells[i] in r
    decreases |cells|
  {
    if cells == [] then []
    else
      var init := cells[..|cells| - 1];
      var last := cells[|cells| - 1];
      assert cells == init + [last];
      if last == Missing then Levels(init) else Insert(Levels(init), last)
  }

  /** A strictly sorted list holds each value once. */
  lemma SortedDistinct(s: seq<Cell>, a: nat, b: nat)
    requires StrictlySorted(s) && a < b < |s|
    ensures s[a] != s[b]
  {
    LessIrreflexive(s[a]);
  }
}
