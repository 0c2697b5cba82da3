/** The schema diagram's layout: every table's box goes under the shortest column. */
module Masonry {

  const BOX_W: int := 230
  const ROW_H: int := 19
  const HEAD_H: int := 30
  const GAP_X: int := 80
  const GAP_Y: int := 26
  const MAX_ROWS: nat := 14
  const MARGIN: int := 30
  const EDGE: int := 60
  const MAX_COLS: nat := 5

  /** A box shows at most 14 columns, and a line saying how many more there are. */
  function BoxHeight(tableCols: nat): (h: nat)
    ensures h == 40 + 19 * (if tableCols <= 14 then tableCols else 15)
  {
    if tableCols > MAX_ROWS then HEAD_H + MAX_ROWS * ROW_H + 10 + ROW_H else HEAD_H + tableCols * ROW_H + 10
  }

  datatype Placed = Placed(col: nat, x: int, y: int, h: nat)

  // ----- sums and columns -----

  function Sum(s: seq<int>): int {
    if s == [] then 0 else Sum(s[..|s| - 1]) + s[|s| - 1]
  }

  lemma {:induction false} SumUpdate(s: seq<int>, i: nat, v: int)
    requires i < |s|
    ensures Sum(s[i := v]) == Sum(s) - s[i] + v
  {
    var n := |s| - 1;
    if i == n {
      assert s[i := v][..n] == s[..n];
    } else {
      SumUpdate(s[..n], i, v);
      assert s[i := v][..n] == s[..n][i := v];
    }
  }

  lemma {:induction false} SumAtLeast(s: seq<int>, lo: int)
    requires forall i :: 0 <= i < |s| ==> s[i] >= lo
    ensures Sum(s) >= |s| * lo
  {
    if s != [] { SumAtLeast(s[..|s| - 1], lo); }
  }

  lemma {:induction false} SumAtMost(s: seq<int>, hi: int)
    requires forall i :: 0 <= i < |s| ==> s[i] <= hi
    ensures Sum(s) <= |s| * hi
  {
    if s != [] { SumAtMost(s[..|s| - 1], hi); }
  }

  /** The first of the smallest columns. */
  function ShortestOf(colY: seq<int>): (best: nat)
    requires colY != []
    ensures best < |colY|
    ensures forall c :: 0 <= c < |colY| ==> colY[best] <= colY[c]
    ensures forall c :: 0 <= c < best ==> colY[best] < colY[c]
  {
    var n := |colY| - 1;
    if n == 0 then 0
    else
      var best := ShortestOf(colY[..n]);
      if colY[n] < colY[best] then n else best
  }

  function NoBoxes(n: nat): (s: seq<int>)
    ensures |s| == n && forall c :: 0 <= c < n ==> s[c] == 0
  {
    seq(n, i => 0)
  }

  /** The column heights when box i stands in column cols[i]. */
  function Loads(hs: seq<nat>, cols: seq<nat>, n: nat): (loads: seq<int>)
    requires |cols| == |hs| && forall i :: 0 <= i < |cols| ==> cols[i] < n
    ensures |loads| == n
  {
    if hs == [] then NoBoxes(n)
    else
      var m := |hs| - 1;
      var loads := Loads(hs[..m], cols[..m], n);
      loads[cols[m] := loads[cols[m]] + hs[m] + GAP_Y]
  }

  /** The columns the boxes are put in. */
  function Columns(hs: seq<nat>, n: nat): (cols: seq<nat>)
    requires n > 0
    ensures |cols| == |hs| && forall i :: 0 <= i < |cols| ==> cols[i] < n
  {
    if hs == [] then []
    else
      var cols := Columns(hs[..|hs| - 1], n);
      cols + [ShortestOf(Loads(hs[..|hs| - 1], cols, n))]
  }

  function ColY(hs: seq<nat>, n: nat): (colY: seq<int>)
    requires n > 0
    ensures |colY| == n
  {
    Loads(hs, Columns(hs, n), n)
  }

  /** Where box i is placed. */
  function PlaceBox(hs: seq<nat>, n: nat, i: nat): Placed
    requires n > 0 && i < |hs|
  {
    var colY := ColY(hs[..i], n);
    var best := ShortestOf(colY);
    Placed(best, MARGIN + best * (BOX_W + GAP_X), MARGIN + colY[best], hs[i])
  }

  lemma ColYStep(hs: seq<nat>, n: nat, i: nat)
    requires n > 0 && i < |hs|
    ensures var colY := ColY(hs[..i], n); var best := ShortestOf(colY);
      ColY(hs[..i + 1], n) == colY[best := colY[best] + hs[i] + GAP_Y]
  {
    hide ShortestOf;
    assert hs[..i + 1][..i] == hs[..i];
    assert Columns(hs[..i + 1], n)[..i] == Columns(hs[..i], n);
  }

  // ----- no two boxes touch -----

  /** Columns only grow. */
  lemma {:induction false} ColYGrows(hs: seq<nat>, n: nat, i: nat, j: nat, c: nat)
    requires n > 0 && i <= j <= |hs| && c < n
    ensures 0 <= ColY(hs[..i], n)[c] <= ColY(hs[..j], n)[c]
    decreases j
  {
    hide ColY, ShortestOf;
    if i < j {
      ColYGrows(hs, n, i, j - 1, c);
      ColYStep(hs, n, j - 1);
    } else if j > 0 {
      ColYGrows(hs, n, j - 1, j - 1, c);
      ColYStep(hs, n, j - 1);
    } else {
      NoLoads(hs, n);
    }
  }

  lemma NoLoads(hs: seq<nat>, n: nat)
    requires n > 0
    ensures ColY(hs[..0], n) == NoBoxes(n)
  {
  }

  /** Of two boxes one is to the right of the other by at least the horizontal gap, or, in the same
      column, the later one is below the earlier by at least the vertical gap. */
  lemma BoxesAreApart(hs: seq<nat>, n: nat, i: nat, j: nat)
    requires n > 0 && i < j < |hs|
    ensures var a, b := PlaceBox(hs, n, i), PlaceBox(hs, n, j);
      || a.x + 230 + 80 <= b.x
      || b.x + 230 + 80 <= a.x
      || (a.x == b.x && a.y + a.h + 26 <= b.y)
  {
    hide ColY, ShortestOf;
    var a, b := PlaceBox(hs, n, i), PlaceBox(hs, n, j);
    if a.col < b.col {
      assert (b.col - a.col) * (BOX_W + GAP_X) >= BOX_W + GAP_X;
    } else if b.col < a.col {
      assert (a.col - b.col) * (BOX_W + GAP_X) >= BOX_W + GAP_X;
    } else {
      ShortestInRange(ColY(hs[..i], n));
      ColYStep(hs, n, i);
      ColYGrows(hs, n, i + 1, j, a.col);
    }
  }

  lemma ShortestInRange(colY: seq<int>)
    requires colY != []
    ensures ShortestOf(colY) < |colY|
  {
  }

  // ----- where each box goes -----

  /** Where the next box of column `c` would start after the first `i` boxes: 26 below the last box of the
      column, or at the upper margin. */
  function Bottom(hs: seq<nat>, n: nat, i: nat, c: nat): int
    requires n > 0 && i <= |hs|
  {
    if i == 0 then 30
    else
      var last := PlaceBox(hs, n, i - 1);
      if last.col == c then last.y + last.h + 26 else Bottom(hs, n, i - 1, c)
  }

  lemma {:induction false} BottomIsColY(hs: seq<nat>, n: nat, i: nat, c: nat)
    requires n > 0 && i <= |hs| && c < n
    ensures Bottom(hs, n, i, c) == 30 + ColY(hs[..i], n)[c]
  {
    hide ColY;
    if i == 0 {
      NoLoads(hs, n);
    } else {
      BottomIsColY(hs, n, i - 1, c);
      ColYStep(hs, n, i - 1);
    }
  }

  /** Every box stands in one of the columns, 310 apart from the left margin on, directly under the last box
      of its column, and no other column ends higher, nor one further left as high. */
  lemma PlacedSnugly(hs: seq<nat>, n: nat, i: nat)
    requires n > 0 && i < |hs|
    ensures var b := PlaceBox(hs, n, i);
      && b.col < n && b.x == 30 + 310 * b.col && b.h == hs[i] && b.y == Bottom(hs, n, i, b.col)
      && (forall c :: 0 <= c < n ==> Bottom(hs, n, i, c) >= b.y)
      && (forall c :: 0 <= c < b.col ==> Bottom(hs, n, i, c) > b.y)
  {
    hide ColY, Bottom;
    forall c | 0 <= c < n ensures Bottom(hs, n, i, c) == 30 + ColY(hs[..i], n)[c] {
      BottomIsColY(hs, n, i, c);
    }
  }

  // ----- the canvas -----

  function Canvas(boxes: seq<Placed>): (size: (int, int)) {
    if boxes == [] then (EDGE, EDGE)
    else
      var (w, h) := Canvas(boxes[..|boxes| - 1]);
      var b := boxes[|boxes| - 1];
      (Larger(w, b.x + BOX_W + EDGE), Larger(h, b.y + b.h + EDGE))
  }

  function Larger(a: int, b: int): int {
    if b > a then b else a
  }

  lemma {:induction false} CanvasHolds(boxes: seq<Placed>, i: nat)
    requires i < |boxes|
    ensures boxes[i].x + BOX_W + EDGE <= Canvas(boxes).0 && boxes[i].y + boxes[i].h + EDGE <= Canvas(boxes).1
  {
    if i < |boxes| - 1 { CanvasHolds(boxes[..|boxes| - 1], i); }
  }

  /** The canvas is no larger than it has to be: an empty one is 60 by 60, and otherwise some box reaches the
      right edge and some box the lower one. */
  lemma {:induction false} CanvasIsTight(boxes: seq<Placed>)
    requires forall i :: 0 <= i < |boxes| ==> boxes[i].x >= 0 && boxes[i].y >= 0
    ensures boxes == [] ==> Canvas(boxes) == (60, 60)
    ensures boxes != [] ==>
      && (exists i :: 0 <= i < |boxes| && Canvas(boxes).0 == boxes[i].x + 230 + 60)
      && (exists i :: 0 <= i < |boxes| && Canvas(boxes).1 == boxes[i].y + boxes[i].h + 60)
  {
    if boxes != [] {
      var n := |boxes| - 1;
      CanvasIsTight(boxes[..n]);
      var (w, h) := Canvas(boxes[..n]);
      if n > 0 {
        var i :| 0 <= i < n && w == boxes[..n][i].x + 230 + 60;
        var j :| 0 <= j < n && h == boxes[..n][j].y + boxes[..n][j].h + 60;
        assert w == boxes[i].x + 230 + 60 && h == boxes[j].y + boxes[j].h + 60;
      }
      assert Canvas(boxes).0 == boxes[n].x + 230 + 60 || (n > 0 && Canvas(boxes).0 == w);
      assert Canvas(boxes).1 == boxes[n].y + boxes[n].h + 60 || (n > 0 && Canvas(boxes).1 == h);
    }
  }

  function Layout(hs: seq<nat>, n: nat): (boxes: seq<Placed>)
    requires n > 0
    ensures |boxes| == |hs|
  {
    seq(|hs|, i requires 0 <= i < |hs| => PlaceBox(hs, n, i))
  }

  /** Every box lies inside the canvas, with the margin on the left and above and the edge on the right
      and below. */
  lemma BoxesAreInside(hs: seq<nat>, n: nat, i: nat)
    requires n > 0 && i < |hs|
    ensures var b := Layout(hs, n)[i]; var (width, height) := Canvas(Layout(hs, n));
      && 30 <= b.x && b.x + 230 + 60 <= width
      && 30 <= b.y && b.y + b.h + 60 <= height
  {
    hide ColY, Canvas;
    CanvasHolds(Layout(hs, n), i);
    ColYGrows(hs, n, i, i, PlaceBox(hs, n, i).col);
  }

  // ----- balance -----

  /** The largest box with its gap. */
  function Largest(hs: seq<nat>): (l: int)
    ensures l >= 0
    ensures forall i :: 0 <= i < |hs| ==> hs[i] + GAP_Y <= l
  {
    if hs == [] then 0 else Larger(Largest(hs[..|hs| - 1]), hs[|hs| - 1] + GAP_Y)
  }

  /** Column heights never differ by more than the largest box and its gap. */
  lemma {:induction false} ColumnsAreBalanced(hs: seq<nat>, n: nat, c: nat, d: nat)
    requires n > 0 && c < n && d < n
    ensures ColY(hs, n)[c] - ColY(hs, n)[d] <= Largest(hs)
    decreases |hs|
  {
    hide ColY;
    assert hs[..|hs|] == hs;
    if hs == [] {
      NoLoads(hs, n);
    } else {
      var m := |hs| - 1;
      ColumnsAreBalanced(hs[..m], n, c, d);
      ColYStep(hs, n, m);
    }
  }

  function Heights(hs: seq<nat>): int {
    if hs == [] then 0 else Heights(hs[..|hs| - 1]) + hs[|hs| - 1] + GAP_Y
  }

  lemma {:induction false} LoadsSum(hs: seq<nat>, cols: seq<nat>, n: nat)
    requires |cols| == |hs| && forall i :: 0 <= i < |cols| ==> cols[i] < n
    ensures Sum(Loads(hs, cols, n)) == Heights(hs)
  {
    if hs == [] {
      SumAtLeast(NoBoxes(n), 0);
      SumAtMost(NoBoxes(n), 0);
    } else {
      var m := |hs| - 1;
      LoadsSum(hs[..m], cols[..m], n);
      var loads := Loads(hs[..m], cols[..m], n);
      SumUpdate(loads, cols[m], loads[cols[m]] + hs[m] + GAP_Y);
    }
  }

  /** The list-scheduling bound on the tallest column. */
  lemma TallestIsBounded(hs: seq<nat>, n: nat, c: nat)
    requires n > 0 && c < n
    ensures n * ColY(hs, n)[c] <= Heights(hs) + (n - 1) * Largest(hs)
  {
    hide Sum, Loads, Largest;
    var colY := ColY(hs, n);
    var l := Largest(hs);
    LoadsSum(hs, Columns(hs, n), n);
    forall d | 0 <= d < n ensures colY[d] >= colY[c] - l {
      ColumnsAreBalanced(hs, n, c, d);
    }
    LargestNotNegative(hs);
    SumUpdate(colY, c, colY[c] - l);
    var lowered := colY[c := colY[c] - l];
    SumAtLeast(lowered, colY[c] - l);
    assert |lowered| == n;
    hide *;
    SpreadBound(n, colY[c], l, Heights(hs));
  }

  lemma SpreadBound(n: nat, top: int, l: int, sum: int)
    requires sum - l >= n * (top - l)
    ensures n * top <= sum + (n - 1) * l
  {
    assert n * (top - l) == n * top - n * l;
    assert (n - 1) * l == n * l - l;
  }

  lemma LargestNotNegative(hs: seq<nat>)
    ensures Largest(hs) >= 0
  {
  }

  lemma {:induction false} LoadHoldsBox(hs: seq<nat>, cols: seq<nat>, n: nat, i: nat)
    requires |cols| == |hs| && (forall k :: 0 <= k < |cols| ==> cols[k] < n) && i < |hs|
    ensures Loads(hs, cols, n)[cols[i]] >= hs[i] + GAP_Y && forall c :: 0 <= c < n ==> Loads(hs, cols, n)[c] >= 0
  {
    var m := |hs| - 1;
    LoadsNotNegative(hs[..m], cols[..m], n);
    if i < m { LoadHoldsBox(hs[..m], cols[..m], n, i); }
  }

  lemma {:induction false} LoadsNotNegative(hs: seq<nat>, cols: seq<nat>, n: nat)
    requires |cols| == |hs| && forall k :: 0 <= k < |cols| ==> cols[k] < n
    ensures forall c :: 0 <= c < n ==> Loads(hs, cols, n)[c] >= 0
  {
    if hs != [] { LoadsNotNegative(hs[..|hs| - 1], cols[..|hs| - 1], n); }
  }

  lemma {:induction false} LargestFits(hs: seq<nat>, cols: seq<nat>, n: nat, tallest: int)
    requires |cols| == |hs| && (forall k :: 0 <= k < |cols| ==> cols[k] < n) && tallest >= 0
    requires forall i :: 0 <= i < |hs| ==> hs[i] + GAP_Y <= tallest
    ensures Largest(hs) <= tallest
  {
    if hs != [] { LargestFits(hs[..|hs| - 1], cols[..|hs| - 1], n, tallest); }
  }

  /** Against the best possible: however else the boxes are spread over as many columns, the greedy
      layout's tallest column is at most 2 - 1/n times as tall as that arrangement's. */
  lemma NearlyOptimal(hs: seq<nat>, n: nat, c: nat, other: seq<nat>, tallest: int)
    requires n > 0 && c < n && |other| == |hs| && forall i :: 0 <= i < |other| ==> other[i] < n
    requires forall d :: 0 <= d < n ==> Loads(hs, other, n)[d] <= tallest
    ensures n * ColY(hs, n)[c] <= (2 * n - 1) * tallest
  {
    hide ColY, Loads, Largest, Sum;
    TallestIsBounded(hs, n, c);
    LoadsSum(hs, other, n);
    SumAtMost(Loads(hs, other, n), tallest);
    LoadsNotNegative(hs, other, n);
    assert tallest >= 0 by { assert Loads(hs, other, n)[0] >= 0; }
    forall i | 0 <= i < |hs| ensures hs[i] + GAP_Y <= tallest {
      LoadHoldsBox(hs, other, n, i);
    }
    LargestFits(hs, other, n, tallest);
    hide *;
    TwiceBound(n, ColY(hs, n)[c], Heights(hs), Largest(hs), tallest);
  }

  lemma TwiceBound(n: nat, top: int, sum: int, l: int, tallest: int)
    requires n > 0 && n * top <= sum + (n - 1) * l && sum <= n * tallest && l <= tallest
    ensures n * top <= (2 * n - 1) * tallest
  {
    assert (n - 1) * l <= (n - 1) * tallest;
    assert n * tallest + (n - 1) * tallest == (2 * n - 1) * tallest;
  }

  // ----- the loops -----

  /** As many columns as make the grid square, at least one and at most five. */
  method CountColumns(boxes: nat) returns (n: nat)
    ensures 1 <= n <= MAX_COLS
    ensures n < MAX_COLS ==> n * n >= boxes
    ensures n > 1 ==> (n - 1) * (n - 1) < boxes
  {
    n := 1;
    while n * n < boxes
      invariant n >= 1 && (n > 1 ==> Square(n - 1) < boxes)
      decreases boxes - Square(n)
    {
      SquareGrows(n, n + 1);
      n := n + 1;
    }
    if n > MAX_COLS {
      SquareGrows(MAX_COLS - 1, n - 1);
      n := MAX_COLS;
    }
  }

  function Square(n: nat): nat {
    n * n
  }

  lemma SquareGrows(m: nat, n: nat)
    requires m < n
    ensures Square(m) < Square(n)
  {
    assert n * n - m * m == (n - m) * (n + m);
  }

  class ErdBox {
    const h: nat
    var x: int
    var y: int

    constructor (tableCols: nat)
      ensures h == BoxHeight(tableCols)
    {
      h := BoxHeight(tableCols);
      x, y := 0, 0;
    }
  }

  function HeightsOf(boxes: seq<ErdBox>): (hs: seq<nat>)
    ensures |hs| == |boxes|
  {
    seq<nat>(|boxes|, i requires 0 <= i < |boxes| => boxes[i].h)
  }

  predicate At(b: ErdBox, p: Placed)
    reads b
  {
    b.x == p.x && b.y == p.y && b.h == p.h
  }

  method ShortestColumn(colY: array<int>) returns (best: nat)
    requires colY.Length > 0
    ensures best == ShortestOf(colY[..]) < colY.Length
  {
    hide ShortestOf;
    best := 0;
    ShortestFirst(colY[..]);
    for i := 1 to colY.Length
      invariant best == ShortestOf(colY[..i]) < i
    {
      ShortestNext(colY[..], i);
      if colY[i] < colY[best] {
        best := i;
      }
    }
    assert colY[..colY.Length] == colY[..];
  }

  lemma ShortestFirst(s: seq<int>)
    requires s != []
    ensures ShortestOf(s[..1]) == 0
  {
  }

  lemma ShortestNext(s: seq<int>, i: nat)
    requires 0 < i < |s|
    ensures ShortestOf(s[..i]) < i
    ensures ShortestOf(s[..i + 1]) == if s[i] < s[ShortestOf(s[..i])] then i else ShortestOf(s[..i])
  {
    assert s[..i + 1][..i] == s[..i];
  }

  /** Places the boxes one after another. */
  method PlaceBoxes(boxes: seq<ErdBox>, n: nat)
    requires n > 0 && forall i, j :: 0 <= i < j < |boxes| ==> boxes[i] != boxes[j]
    modifies boxes
    ensures forall i :: 0 <= i < |boxes| ==> At(boxes[i], PlaceBox(HeightsOf(boxes), n, i))
  {
    hide ColY, ShortestOf;
    ghost var hs := HeightsOf(boxes);
    var colY := new int[n](_ => 0);
    NoLoads(hs, n);
    assert colY[..] == NoBoxes(n);
    var k := 0;
    while k < |boxes|
      invariant 0 <= k <= |boxes| && fresh(colY) && colY.Length == n && colY[..] == ColY(hs[..k], n)
      invariant forall i :: 0 <= i < k ==> At(boxes[i], PlaceBox(hs, n, i))
    {
      var b := boxes[k];
      var best := ShortestColumn(colY);
      ColYStep(hs, n, k);
      b.x := MARGIN + best * (BOX_W + GAP_X);
      b.y := MARGIN + colY[best];
      colY[best] := colY[best] + b.h + GAP_Y;
      k := k + 1;
    }
  }

  method SizeCanvas(boxes: seq<ErdBox>, ghost placed: seq<Placed>) returns (width: int, height: int)
    requires |placed| == |boxes| && forall i :: 0 <= i < |boxes| ==> At(boxes[i], placed[i])
    ensures (width, height) == Canvas(placed)
  {
    width, height := EDGE, EDGE;
    var k := 0;
    while k < |boxes|
      invariant 0 <= k <= |boxes| && (width, height) == Canvas(placed[..k])
    {
      assert placed[..k + 1][..k] == placed[..k];
      var b := boxes[k];
      assert At(b, placed[k]);
      if b.x + BOX_W + EDGE > width {
        width := b.x + BOX_W + EDGE;
      }
      if b.y + b.h + EDGE > height {
        height := b.y + b.h + EDGE;
      }
      k := k + 1;
    }
    assert placed[..k] == placed;
  }

  method LayOutDiagram(boxes: seq<ErdBox>) returns (n: nat, width: int, height: int)
    requires forall i, j :: 0 <= i < j < |boxes| ==> boxes[i] != boxes[j]
    modifies boxes
    ensures 1 <= n <= 5 && (n < 5 ==> n * n >= |boxes|) && (n > 1 ==> (n - 1) * (n - 1) < |boxes|)
    ensures forall i :: 0 <= i < |boxes| ==> At(boxes[i], Layout(HeightsOf(boxes), n)[i])
    ensures (width, height) == Canvas(Layout(HeightsOf(boxes), n))
    ensures forall i :: 0 <= i < |boxes| ==>
      && 30 <= boxes[i].x && boxes[i].x + 230 + 60 <= width
      && 30 <= boxes[i].y && boxes[i].y + boxes[i].h + 60 <= height
    ensures boxes == [] ==> width == height == 60
    ensures boxes != [] ==>
      && (exists i :: 0 <= i < |boxes| && width == boxes[i].x + 230 + 60)
      && (exists i :: 0 <= i < |boxes| && height == boxes[i].y + boxes[i].h + 60)
  {
    hide PlaceBox, Canvas;
    n := CountColumns(|boxes|);
    PlaceBoxes(boxes, n);
    ghost var placed := Layout(HeightsOf(boxes), n);
    width, height := SizeCanvas(boxes, placed);
    forall i | 0 <= i < |boxes|
      ensures 30 <= placed[i].x && placed[i].x + 230 + 60 <= width
      ensures 30 <= placed[i].y && placed[i].y + placed[i].h + 60 <= height
    {
      BoxesAreInside(HeightsOf(boxes), n, i);
    }
    CanvasIsTight(placed);
    if boxes != [] {
      ghost var i :| 0 <= i < |placed| && width == placed[i].x + 230 + 60;
      ghost var j :| 0 <= j < |placed| && height == placed[j].y + placed[j].h + 60;
      assert At(boxes[i], placed[i]) && At(boxes[j], placed[j]);
    }
  }
}
