/**
 Light-cone geometry of `local_statistical_complexity_filter.py`: which grid
 coordinates a past or future light cone visits, the symbol values found there,
 and the string signature that names a past light cone.

 A grid has `maxTime` rows (time) and `maxSpace` columns (space). A light cone
 of signed depth d around (t, x) visits, for its k-th row (k = 1, 2, ...), the
 columns x - k*spread ... x + k*spread - 1 wrapped around the space axis; the
 right end is exclusive, so a row holds 2*k*spread columns.
 */
module LightCone {
  import opened Builtins

  /**
   The time rows a cone visits, in visiting order. A negative depth asks for a
   past cone, which runs from t - 1 down to max(t + depth, 0) + 1, so it has at
   most -depth - 1 rows and never reaches row 0. A non-negative depth asks for a
   future cone running from t + 1 up to min(t + depth, maxTime) - 1. Without
   `partial`, a cone that would leave the grid is empty.
   */
  function ConeRows(t: int, maxTime: int, depth: int, partial: bool): (rows: seq<int>)
    ensures depth < 0 && (partial || t + depth >= 0) ==>
              |rows| == Max(t - 1 - Max(t + depth, 0), 0)
              && forall i :: 0 <= i < |rows| ==> rows[i] == t - 1 - i && rows[i] >= 1
    ensures depth < 0 && !partial && t + depth < 0 ==> rows == []
    ensures depth >= 0 && (partial || t + depth < maxTime) ==>
              |rows| == Max(Min(t + depth, maxTime) - t - 1, 0)
              && forall i :: 0 <= i < |rows| ==> rows[i] == t + 1 + i && rows[i] < maxTime
    ensures depth >= 0 && !partial && t + depth >= maxTime ==> rows == []
  {
    var tEnd := t + depth;
    if depth < 0 then
      if tEnd < 0 && !partial then [] else RangeDown(t - 1, Max(tEnd, 0))
    else
      if tEnd >= maxTime && !partial then [] else Range(t + 1, Min(tEnd, maxTime))
  }

  /**
   The columns of one cone row of half-width `span` around x: the part that
   overflows the left edge (taken from the right end), the clipped in-range
   span, and the part that overflows the right edge (taken from the left end).
   */
  function RowColumns(x: int, span: int, maxSpace: int): seq<int> {
    var leftmost := x - span;
    var rightmost := x + span;
    var leftOverflow := if leftmost < 0 then Range(maxSpace + leftmost, maxSpace) else [];
    var lo := if leftmost < 0 then 0 else leftmost;
    var rightOverflow := if rightmost > maxSpace then Range(0, rightmost - maxSpace) else [];
    var hi := if rightmost > maxSpace then maxSpace else rightmost;
    leftOverflow + Range(lo, hi) + rightOverflow
  }

  /** The coordinates (row, column) of one cone row. */
  function RowCoordinates(row: int, cols: seq<int>): (r: seq<(int, int)>)
    ensures |r| == |cols|
    ensures forall i :: 0 <= i < |r| ==> r[i] == (row, cols[i])
  {
    seq(|cols|, i requires 0 <= i < |cols| => (row, cols[i]))
  }

  /** The coordinates of the remaining cone rows, the first of them being the k-th row. */
  function ConeFrom(rows: seq<int>, k: int, x: int, maxSpace: int, spread: int): seq<(int, int)>
    decreases |rows|
  {
    if rows == [] then []
    else RowCoordinates(rows[0], RowColumns(x, k * spread, maxSpace))
         + ConeFrom(rows[1..], k + 1, x, maxSpace, spread)
  }

  /** All coordinates of a light cone, row by row (coordinates_lightcone). */
  function Coordinates(x: int, t: int, maxSpace: int, maxTime: int, depth: int,
                       spread: int, partial: bool): seq<(int, int)>
  {
    ConeFrom(ConeRows(t, maxTime, depth, partial), 1, x, maxSpace, spread)
  }

  /**
   On the torus: when the half-width does not exceed the width, the columns of
   a cone row are exactly (x + d) mod W for d = -span ... span - 1, in that
   order, so 2*span columns, each of them a valid column.
   */
  lemma RowColumnsWrap(x: int, span: int, w: int)
    requires 0 <= x < w && 0 <= span <= w
    ensures |RowColumns(x, span, w)| == 2 * span
    ensures forall d :: 0 <= d < 2 * span ==> RowColumns(x, span, w)[d] == (x - span + d) % w
    ensures forall d :: 0 <= d < 2 * span ==> 0 <= RowColumns(x, span, w)[d] < w
  {
    forall d | 0 <= d < 2 * span
      ensures RowColumns(x, span, w)[d] == (x - span + d) % w
    {
      RowColumnAt(x, span, w, d);
    }
    if span > 0 {
      RowColumnAt(x, span, w, 0);
    }
  }

  /** One column of a cone row, by the part of the row it falls in. */
  lemma RowColumnAt(x: int, span: int, w: int, d: int)
    requires 0 <= x < w && 0 <= span <= w && 0 <= d < 2 * span
    ensures |RowColumns(x, span, w)| == 2 * span
    ensures RowColumns(x, span, w)[d] == (x - span + d) % w
  {
    var leftLen := if x - span < 0 then span - x else 0;
    var lo := if x - span < 0 then 0 else x - span;
    var hi := if x + span > w then w else x + span;
    RowColumnsParts(x, span, w);
    var v := x - span + d;
    if d < leftLen {
      WrapBelow(v, w);
    } else if d < leftLen + (hi - lo) {
      ModSmall(v, w);
    } else {
      WrapAbove(v, w);
    }
  }

  /** The three parts of a cone row, element by element. */
  lemma RowColumnsParts(x: int, span: int, w: int)
    requires 0 <= x < w && 0 <= span <= w
    ensures var leftLen := if x - span < 0 then span - x else 0;
            var lo := if x - span < 0 then 0 else x - span;
            var hi := if x + span > w then w else x + span;
            var cols := RowColumns(x, span, w);
            && |cols| == 2 * span
            && (forall d :: 0 <= d < leftLen ==> cols[d] == w + x - span + d)
            && (forall d :: leftLen <= d < leftLen + (hi - lo) ==> cols[d] == x - span + d)
            && (forall d :: leftLen + (hi - lo) <= d < 2 * span ==> cols[d] == x - span + d - w)
  {
  }

  lemma WrapBelow(v: int, w: int)
    requires 0 < w && -w <= v < 0
    ensures v % w == v + w
  {
    ModStep(v + w, w);
    ModSmall(v + w, w);
  }

  lemma WrapAbove(v: int, w: int)
    requires 0 < w && w <= v < 2 * w
    ensures v % w == v - w
  {
    ModStep(v, w);
    ModSmall(v - w, w);
  }

  /** Symbol values at the given coordinates, with numpy indexing (cell_values). */
  function CellValues(g: seq<seq<int>>, coords: seq<(int, int)>): (r: Option<seq<int>>)
    requires IsGrid(g)
    ensures r.Some? <==> forall i :: 0 <= i < |coords| ==> GridAt(g, coords[i].0, coords[i].1).Some?
    ensures r.Some? ==> |r.value| == |coords|
    ensures r.Some? ==> forall i :: 0 <= i < |coords| ==>
              GridAt(g, coords[i].0, coords[i].1) == Some(r.value[i])
    decreases |coords|
  {
    if coords == [] then Some([])
    else
      var v :- GridAt(g, coords[0].0, coords[0].1);
      var rest :- CellValues(g, coords[1..]);
      Some([v] + rest)
  }

  /** The string key of a past light cone: the decimal strings of its values, joined without separator. */
  function Signature(values: seq<int>): string
    decreases |values|
  {
    if values == [] then "" else IntString(values[0]) + Signature(values[1..])
  }

  /** Symbols of a single decimal digit are written one character each. */
  lemma {:induction false} DigitSignature(values: seq<int>)
    requires forall i :: 0 <= i < |values| ==> 0 <= values[i] < 10
    ensures |Signature(values)| == |values|
    ensures forall i :: 0 <= i < |values| ==> Signature(values)[i] == DigitChar(values[i])
    decreases |values|
  {
    if values != [] {
      DigitSignature(values[1..]);
    }
  }

  /** Over the digit alphabet, equal signatures mean equal value sequences. */
  lemma SignatureInjective(a: seq<int>, b: seq<int>)
    requires forall i :: 0 <= i < |a| ==> 0 <= a[i] < 10
    requires forall i :: 0 <= i < |b| ==> 0 <= b[i] < 10
    requires Signature(a) == Signature(b)
    ensures a == b
  {
    DigitSignature(a);
    DigitSignature(b);
    forall i | 0 <= i < |a|
      ensures a[i] == b[i]
    {
      assert DigitChar(a[i]) == DigitChar(b[i]);
    }
  }

  /** With a symbol of two digits the signature is no longer injective. */
  lemma SignatureCollision()
    ensures Signature([1, 0]) == Signature([10]) == "10"
  {
    assert IntString(10) == NatString(1) + [DigitChar(0)];
    assert Signature([0]) == "0";
    assert Signature([1, 0]) == "1" + Signature([0]);
  }

  /** The key of the past light cone of depth `depth` at (t, x) (past_lightcones, lines 64-79). */
  function PastKey(g: seq<seq<int>>, t: int, x: int, depth: int): Option<string>
    requires IsGrid(g)
  {
    var values :- CellValues(g, Coordinates(x, t, Width(g), |g|, -depth, 1, true));
    Some(Signature(values))
  }

  /** The values of the strict future light cone at (t, x) (past_lightcones, lines 80-92). */
  function FutureCone(g: seq<seq<int>>, t: int, x: int, depth: int): Option<seq<int>>
    requires IsGrid(g)
  {
    CellValues(g, Coordinates(x, t, Width(g), |g|, depth, 1, false))
  }

  /** Cells in rows 0 and 1 have an empty past cone and so the empty signature. */
  lemma PastConeEmptyAtTop(g: seq<seq<int>>, t: int, x: int, depth: int)
    requires IsGrid(g) && 0 <= t <= 1 && depth >= 1
    ensures Coordinates(x, t, Width(g), |g|, -depth, 1, true) == []
    ensures PastKey(g, t, x, depth) == Some("")
  {
  }

  /** A strict future cone that would leave the grid is empty. */
  lemma StrictFutureEmptyAtBottom(g: seq<seq<int>>, t: int, x: int, depth: int)
    requires IsGrid(g) && depth >= 0 && t + depth >= |g|
    ensures FutureCone(g, t, x, depth) == Some([])
  {
  }

  /** Every coordinate lies inside a maxTime x w grid. */
  predicate Inside(coords: seq<(int, int)>, maxTime: int, w: int) {
    forall i :: 0 <= i < |coords| ==> 0 <= coords[i].0 < maxTime && 0 <= coords[i].1 < w
  }

  /** Every coordinate of the cone rows from the k-th on lies inside the grid. */
  lemma {:induction false} ConeFromInside(rows: seq<int>, k: int, x: int, w: int, maxTime: int)
    requires 0 <= x < w && 1 <= k && k + |rows| - 1 <= w
    requires forall i :: 0 <= i < |rows| ==> 0 <= rows[i] < maxTime
    ensures Inside(ConeFrom(rows, k, x, w, 1), maxTime, w)
    decreases |rows|
  {
    if rows != [] {
      var head := RowCoordinates(rows[0], RowColumns(x, k * 1, w));
      RowInside(rows[0], k, x, w, maxTime);
      var later := rows[1..];
      assert forall i :: 0 <= i < |later| ==> later[i] == rows[i + 1];
      ConeFromInside(later, k + 1, x, w, maxTime);
      var tail := ConeFrom(later, k + 1, x, w, 1);
      assert ConeFrom(rows, k, x, w, 1) == head + tail;
      InsideConcat(head, tail, maxTime, w);
    }
  }

  /** One cone row of a cell inside the grid, no wider than the grid, lies inside it. */
  lemma RowInside(row: int, k: int, x: int, w: int, maxTime: int)
    requires 0 <= x < w && 0 <= k <= w && 0 <= row < maxTime
    ensures Inside(RowCoordinates(row, RowColumns(x, k * 1, w)), maxTime, w)
  {
    assert k * 1 == k;
    RowColumnsWrap(x, k, w);
  }

  lemma InsideConcat(a: seq<(int, int)>, b: seq<(int, int)>, maxTime: int, w: int)
    requires Inside(a, maxTime, w) && Inside(b, maxTime, w)
    ensures Inside(a + b, maxTime, w)
  {
    forall i | 0 <= i < |a + b|
      ensures 0 <= (a + b)[i].0 < maxTime && 0 <= (a + b)[i].1 < w
    {
      if i >= |a| {
        assert (a + b)[i] == b[i - |a|];
      }
    }
  }

  /**
   With spread 1, no cone lookup fails when the depth is at most one more than
   the width: every row of a past or strict future cone is then narrower than
   the torus, so numpy never sees an index out of range.
   */
  lemma ConesDefined(g: seq<seq<int>>, t: int, x: int, depth: int)
    requires IsGrid(g) && 0 <= t < |g| && 0 <= x < Width(g)
    requires 1 <= depth <= Width(g) + 1
    ensures PastKey(g, t, x, depth).Some?
    ensures FutureCone(g, t, x, depth).Some?
  {
    var w := Width(g);
    var past := ConeRows(t, |g|, -depth, true);
    ConeFromInside(past, 1, x, w, |g|);
    var future := ConeRows(t, |g|, depth, false);
    ConeFromInside(future, 1, x, w, |g|);
  }
}
