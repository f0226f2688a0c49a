/** Spiral traversal of a rectangular matrix (codes/test7.cpp).

    The traversal is described twice. `SpiralCells` is the sequence of cell
    coordinates the loop visits, one layer of the spiral per recursive step;
    it is proved to visit every cell of the rectangle exactly once. `Spiral`
    is the source's loop over four moving bounds and is proved to read the
    matrix at exactly those cells, in that order. */
module Spiral {

  datatype Cell = Cell(row: int, col: int)

  /** The loop's bounds `top`, `bottom`, `left`, `right`, all inclusive. */
  datatype Bounds = Bounds(top: int, bottom: int, left: int, right: int)

  /** The number of integers in `[from, to]`. */
  function Span(from: int, to: int): nat {
    if from <= to then to - from + 1 else 0
  }

  predicate InRect(c: Cell, bd: Bounds) {
    bd.top <= c.row <= bd.bottom && bd.left <= c.col <= bd.right
  }

  function Area(bd: Bounds): nat {
    Span(bd.top, bd.bottom) * Span(bd.left, bd.right)
  }

  /** A cell on the outermost ring of the rectangle. */
  predicate OnBorder(c: Cell, bd: Bounds) {
    InRect(c, bd) && (c.row == bd.top || c.row == bd.bottom || c.col == bd.left || c.col == bd.right)
  }

  predicate Distinct(s: seq<Cell>) {
    forall i, j :: 0 <= i < j < |s| ==> s[i] != s[j]
  }

  // ---------------------------------------------------------------------------
  // The four sides of one layer
  // ---------------------------------------------------------------------------

  /** Row `row`, columns `from` up to `to`. */
  function RowRight(row: int, from: int, to: int): (s: seq<Cell>)
    ensures |s| == Span(from, to)
  {
    seq(Span(from, to), k => Cell(row, from + k))
  }

  /** Column `col`, rows `from` down to `to`. */
  function ColDown(col: int, from: int, to: int): (s: seq<Cell>)
    ensures |s| == Span(from, to)
  {
    seq(Span(from, to), k => Cell(from + k, col))
  }

  /** Row `row`, columns `to` back to `from`. */
  function RowLeft(row: int, from: int, to: int): (s: seq<Cell>)
    ensures |s| == Span(from, to)
  {
    seq(Span(from, to), k => Cell(row, to - k))
  }

  /** Column `col`, rows `to` back up to `from`. */
  function ColUp(col: int, from: int, to: int): (s: seq<Cell>)
    ensures |s| == Span(from, to)
  {
    seq(Span(from, to), k => Cell(to - k, col))
  }

  lemma RowRightCells(row: int, from: int, to: int, c: Cell)
    ensures c in RowRight(row, from, to) <==> c.row == row && from <= c.col <= to
  {
    if c.row == row && from <= c.col <= to {
      assert RowRight(row, from, to)[c.col - from] == c;
    }
  }

  lemma ColDownCells(col: int, from: int, to: int, c: Cell)
    ensures c in ColDown(col, from, to) <==> c.col == col && from <= c.row <= to
  {
    if c.col == col && from <= c.row <= to {
      assert ColDown(col, from, to)[c.row - from] == c;
    }
  }

  lemma RowLeftCells(row: int, from: int, to: int, c: Cell)
    ensures c in RowLeft(row, from, to) <==> c.row == row && from <= c.col <= to
  {
    if c.row == row && from <= c.col <= to {
      assert RowLeft(row, from, to)[to - c.col] == c;
    }
  }

  lemma ColUpCells(col: int, from: int, to: int, c: Cell)
    ensures c in ColUp(col, from, to) <==> c.col == col && from <= c.row <= to
  {
    if c.col == col && from <= c.row <= to {
      assert ColUp(col, from, to)[to - c.row] == c;
    }
  }

  /** Each side visits a cell at most once. */
  lemma SidesDistinct(a: int, from: int, to: int)
    ensures Distinct(RowRight(a, from, to)) && Distinct(ColDown(a, from, to))
    ensures Distinct(RowLeft(a, from, to)) && Distinct(ColUp(a, from, to))
  {
  }

  /** Extending a side by one cell. */
  lemma SidesSnoc(a: int, from: int, to: int)
    requires from <= to
    ensures RowRight(a, from, to) == RowRight(a, from, to - 1) + [Cell(a, to)]
    ensures ColDown(a, from, to) == ColDown(a, from, to - 1) + [Cell(to, a)]
    ensures RowLeft(a, from, to) == RowLeft(a, from + 1, to) + [Cell(a, from)]
    ensures ColUp(a, from, to) == ColUp(a, from + 1, to) + [Cell(from, a)]
  {
    assert RowRight(a, from, to) == RowRight(a, from, to - 1) + [Cell(a, to)];
    assert ColDown(a, from, to) == ColDown(a, from, to - 1) + [Cell(to, a)];
    assert RowLeft(a, from, to) == RowLeft(a, from + 1, to) + [Cell(a, from)];
    assert ColUp(a, from, to) == ColUp(a, from + 1, to) + [Cell(from, a)];
  }

  /** No cell of `a` is in `b`. */
  predicate Apart(a: seq<Cell>, b: seq<Cell>) {
    forall c :: c in a ==> c !in b
  }

  lemma DistinctAppend(a: seq<Cell>, b: seq<Cell>)
    requires Distinct(a) && Distinct(b) && Apart(a, b)
    ensures Distinct(a + b)
  {
    var s := a + b;
    forall i, j | 0 <= i < j < |s|
      ensures s[i] != s[j]
    {
      if i < |a| && j >= |a| {
        assert s[i] in a && s[j] == b[j - |a|];
      }
    }
  }

  // ---------------------------------------------------------------------------
  // One iteration of the loop, and the whole traversal
  // ---------------------------------------------------------------------------

  /** One pass of the loop body on non-crossed bounds: the top row left to
      right, then the right column below it, then, while rows remain, the
      bottom row right to left, then, while columns remain, the left column
      bottom to top. Returns the cells visited and the narrowed bounds. */
  function Layer(bd: Bounds): (res: (seq<Cell>, Bounds))
    requires bd.top <= bd.bottom && bd.left <= bd.right
    ensures res.1.top == bd.top + 1 && res.1.bottom <= bd.bottom
    ensures res.1.left >= bd.left && res.1.right == bd.right - 1
  {
    var (t, b, l, r) := (bd.top, bd.bottom, bd.left, bd.right);
    var first := RowRight(t, l, r);
    var t1 := t + 1;
    var second := ColDown(r, t1, b);
    var r1 := r - 1;
    var third := if t1 <= b then RowLeft(b, l, r1) else [];
    var b1 := if t1 <= b then b - 1 else b;
    var fourth := if l <= r1 then ColUp(l, t1, b1) else [];
    var l1 := if l <= r1 then l + 1 else l;
    (first + second + third + fourth, Bounds(t1, b1, l1, r1))
  }

  /** The cells the loop visits from bounds `bd` on, in order. */
  function SpiralCells(bd: Bounds): seq<Cell>
    decreases bd.bottom - bd.top + 1
  {
    if bd.top <= bd.bottom && bd.left <= bd.right then
      var (ring, next) := Layer(bd);
      ring + SpiralCells(next)
    else []
  }

  /** A layer visits exactly the border of the rectangle. */
  lemma LayerIsBorder(bd: Bounds)
    requires bd.top <= bd.bottom && bd.left <= bd.right
    ensures forall c :: c in Layer(bd).0 <==> OnBorder(c, bd)
  {
    var (t, b, l, r) := (bd.top, bd.bottom, bd.left, bd.right);
    var b1 := if t + 1 <= b then b - 1 else b;
    forall c: Cell
      ensures c in Layer(bd).0 <==> OnBorder(c, bd)
    {
      RowRightCells(t, l, r, c);
      ColDownCells(r, t + 1, b, c);
      RowLeftCells(b, l, r - 1, c);
      ColUpCells(l, t + 1, b1, c);
    }
  }

  /** The third side exists only below the top row, the fourth only left
      of the right column; `b1` is the bottom row the fourth side climbs from. */
  predicate LowerSides(t: int, b: int, l: int, r: int, b1: int, third: seq<Cell>, fourth: seq<Cell>) {
    && b1 == (if t + 1 <= b then b - 1 else b)
    && third == (if t + 1 <= b then RowLeft(b, l, r - 1) else [])
    && fourth == (if l <= r - 1 then ColUp(l, t + 1, b1) else [])
  }

  /** The top row shares no cell with the other three sides. */
  lemma TopRowApart(t: int, b: int, l: int, r: int, b1: int, third: seq<Cell>, fourth: seq<Cell>)
    requires t <= b && l <= r && LowerSides(t, b, l, r, b1, third, fourth)
    ensures Apart(RowRight(t, l, r), ColDown(r, t + 1, b) + (third + fourth))
  {
    forall c: Cell | c in RowRight(t, l, r)
      ensures c !in ColDown(r, t + 1, b) + (third + fourth)
    {
      RowRightCells(t, l, r, c);
      ColDownCells(r, t + 1, b, c);
      RowLeftCells(b, l, r - 1, c);
      ColUpCells(l, t + 1, b1, c);
    }
  }

  /** The right column shares no cell with the bottom row or the left
      column. */
  lemma RightColumnApart(t: int, b: int, l: int, r: int, b1: int, third: seq<Cell>, fourth: seq<Cell>)
    requires t <= b && l <= r && LowerSides(t, b, l, r, b1, third, fourth)
    ensures Apart(ColDown(r, t + 1, b), third + fourth)
  {
    forall c: Cell | c in ColDown(r, t + 1, b)
      ensures c !in third + fourth
    {
      ColDownCells(r, t + 1, b, c);
      RowLeftCells(b, l, r - 1, c);
      ColUpCells(l, t + 1, b1, c);
    }
  }

  /** The bottom row shares no cell with the left column. */
  lemma BottomRowApart(t: int, b: int, l: int, r: int, b1: int, third: seq<Cell>, fourth: seq<Cell>)
    requires t <= b && l <= r && LowerSides(t, b, l, r, b1, third, fourth)
    ensures Apart(third, fourth)
  {
    forall c: Cell | c in third
      ensures c !in fourth
    {
      RowLeftCells(b, l, r - 1, c);
      ColUpCells(l, t + 1, b1, c);
    }
  }

  /** The four sides together visit no cell twice. */
  lemma SidesTogetherDistinct(t: int, b: int, l: int, r: int, b1: int, third: seq<Cell>, fourth: seq<Cell>, ring: seq<Cell>)
    requires t <= b && l <= r && LowerSides(t, b, l, r, b1, third, fourth)
    requires ring == RowRight(t, l, r) + (ColDown(r, t + 1, b) + (third + fourth))
    ensures Distinct(ring)
  {
    SidesDistinct(t, l, r);
    SidesDistinct(r, t + 1, b);
    SidesDistinct(b, l, r - 1);
    SidesDistinct(l, t + 1, b1);
    TopRowApart(t, b, l, r, b1, third, fourth);
    RightColumnApart(t, b, l, r, b1, third, fourth);
    BottomRowApart(t, b, l, r, b1, third, fourth);
    DistinctAppend(third, fourth);
    DistinctAppend(ColDown(r, t + 1, b), third + fourth);
    DistinctAppend(RowRight(t, l, r), ColDown(r, t + 1, b) + (third + fourth));
  }

  /** A layer visits no cell twice. */
  lemma LayerDistinct(bd: Bounds)
    requires bd.top <= bd.bottom && bd.left <= bd.right
    ensures Distinct(Layer(bd).0)
  {
    var (t, b, l, r) := (bd.top, bd.bottom, bd.left, bd.right);
    var b1 := if t + 1 <= b then b - 1 else b;
    var third: seq<Cell> := if t + 1 <= b then RowLeft(b, l, r - 1) else [];
    var fourth: seq<Cell> := if l <= r - 1 then ColUp(l, t + 1, b1) else [];
    LayerIsSidesNested(bd, b1, third, fourth);
    SidesTogetherDistinct(t, b, l, r, b1, third, fourth, Layer(bd).0);
  }

  /** `LayerIsSides` with the concatenation nested to the right. */
  lemma LayerIsSidesNested(bd: Bounds, b1: int, third: seq<Cell>, fourth: seq<Cell>)
    requires bd.top <= bd.bottom && bd.left <= bd.right
    requires LowerSides(bd.top, bd.bottom, bd.left, bd.right, b1, third, fourth)
    ensures Layer(bd).0 == RowRight(bd.top, bd.left, bd.right) + (ColDown(bd.right, bd.top + 1, bd.bottom) + (third + fourth))
  {
    LayerIsSides(bd, b1, third, fourth);
    Reassociate(RowRight(bd.top, bd.left, bd.right), ColDown(bd.right, bd.top + 1, bd.bottom), third, fourth);
  }

  lemma Reassociate(a: seq<Cell>, b: seq<Cell>, c: seq<Cell>, d: seq<Cell>)
    ensures a + b + c + d == a + (b + (c + d))
  {
  }

  /** The narrowed bounds hold exactly the cells inside the border. */
  lemma LayerInterior(bd: Bounds)
    requires bd.top <= bd.bottom && bd.left <= bd.right
    ensures forall c :: InRect(c, Layer(bd).1) <==> InRect(c, bd) && !OnBorder(c, bd)
  {
  }

  /** The arithmetic of `LayerIsBorder`: a layer of a `h` by `w` rectangle
      has `h * w` cells minus those of the rectangle inside it. */
  lemma LayerCount(bd: Bounds)
    requires bd.top <= bd.bottom && bd.left <= bd.right
    ensures |Layer(bd).0| == Area(bd) - Area(Layer(bd).1)
  {
    var h := bd.bottom - bd.top + 1;
    var w := bd.right - bd.left + 1;
    var next := Layer(bd).1;
    if h == 1 {
      assert Area(next) == 0;
      assert |Layer(bd).0| == w;
    } else if w == 1 {
      assert Area(next) == 0;
      assert |Layer(bd).0| == h;
    } else {
      assert Area(next) == (h - 2) * (w - 2);
      assert |Layer(bd).0| == w + (h - 1) + (w - 1) + (h - 2);
      assert h * w == (h - 2) * (w - 2) + 2 * h + 2 * w - 4;
    }
  }

  /** The traversal visits every cell of the rectangle exactly once and
      nothing outside it. */
  lemma {:induction false} SpiralCellsExactCover(bd: Bounds)
    ensures Distinct(SpiralCells(bd))
    ensures forall c :: c in SpiralCells(bd) <==> InRect(c, bd)
    ensures |SpiralCells(bd)| == Area(bd)
    decreases bd.bottom - bd.top + 1
  {
    if bd.top <= bd.bottom && bd.left <= bd.right {
      var (ring, next) := Layer(bd);
      LayerIsBorder(bd);
      LayerDistinct(bd);
      LayerInterior(bd);
      LayerCount(bd);
      SpiralCellsExactCover(next);
      DistinctAppend(ring, SpiralCells(next));
    } else {
      assert forall c :: !InRect(c, bd);
    }
  }

  // ---------------------------------------------------------------------------
  // The loop over the matrix
  // ---------------------------------------------------------------------------

  /** The source reads `matrix[0]` unconditionally, so the matrix must have a
      row; all rows have the length of the first. */
  predicate Rectangular(matrix: seq<seq<int>>) {
    |matrix| > 0 && forall i :: 0 <= i < |matrix| ==> |matrix[i]| == |matrix[0]|
  }

  /** The bounds of the whole matrix. */
  function Whole(matrix: seq<seq<int>>): Bounds
    requires |matrix| > 0
  {
    Bounds(0, |matrix| - 1, 0, |matrix[0]| - 1)
  }

  /** The entry at `c`. The traversal never leaves the matrix
      (`SpiralCellsExactCover`), so the `0` for a cell outside it is never
      read. */
  function At(matrix: seq<seq<int>>, c: Cell): int {
    if 0 <= c.row < |matrix| && 0 <= c.col < |matrix[c.row]| then matrix[c.row][c.col] else 0
  }

  /** The matrix entries at `cells`, in order. */
  function Values(matrix: seq<seq<int>>, cells: seq<Cell>): (vs: seq<int>)
    ensures |vs| == |cells|
  {
    seq(|cells|, k requires 0 <= k < |cells| => At(matrix, cells[k]))
  }

  lemma ValuesAppend(matrix: seq<seq<int>>, a: seq<Cell>, b: seq<Cell>)
    ensures Values(matrix, a + b) == Values(matrix, a) + Values(matrix, b)
  {
    assert forall k :: 0 <= k < |a + b| ==> (a + b)[k] == if k < |a| then a[k] else b[k - |a|];
  }

  /** The loop `for (i = from; i <= to; ++i) result.push_back(matrix[row][i])`. */
  method PushRowRight(matrix: seq<seq<int>>, acc: seq<int>, row: int, from: int, to: int) returns (result: seq<int>)
    requires Rectangular(matrix) && 0 <= row < |matrix| && 0 <= from && to < |matrix[0]|
    ensures result == acc + Values(matrix, RowRight(row, from, to))
  {
    result := acc;
    var i := from;
    while i <= to
      invariant from <= i <= if from <= to then to + 1 else from
      invariant result == acc + Values(matrix, RowRight(row, from, i - 1))
    {
      SidesSnoc(row, from, i);
      ValuesAppend(matrix, RowRight(row, from, i - 1), [Cell(row, i)]);
      result := result + [matrix[row][i]];
      i := i + 1;
    }
  }

  /** The loop `for (i = from; i <= to; ++i) result.push_back(matrix[i][col])`. */
  method PushColDown(matrix: seq<seq<int>>, acc: seq<int>, col: int, from: int, to: int) returns (result: seq<int>)
    requires Rectangular(matrix) && 0 <= col < |matrix[0]| && 0 <= from && to < |matrix|
    ensures result == acc + Values(matrix, ColDown(col, from, to))
  {
    result := acc;
    var i := from;
    while i <= to
      invariant from <= i <= if from <= to then to + 1 else from
      invariant result == acc + Values(matrix, ColDown(col, from, i - 1))
    {
      SidesSnoc(col, from, i);
      ValuesAppend(matrix, ColDown(col, from, i - 1), [Cell(i, col)]);
      result := result + [matrix[i][col]];
      i := i + 1;
    }
  }

  /** The loop `for (i = to; i >= from; --i) result.push_back(matrix[row][i])`. */
  method PushRowLeft(matrix: seq<seq<int>>, acc: seq<int>, row: int, from: int, to: int) returns (result: seq<int>)
    requires Rectangular(matrix) && 0 <= row < |matrix| && 0 <= from && to < |matrix[0]|
    ensures result == acc + Values(matrix, RowLeft(row, from, to))
  {
    result := acc;
    var i := to;
    while i >= from
      invariant (if from <= to then from - 1 else to) <= i <= to
      invariant result == acc + Values(matrix, RowLeft(row, i + 1, to))
    {
      SidesSnoc(row, i, to);
      ValuesAppend(matrix, RowLeft(row, i + 1, to), [Cell(row, i)]);
      result := result + [matrix[row][i]];
      i := i - 1;
    }
  }

  /** The loop `for (i = to; i >= from; --i) result.push_back(matrix[i][col])`. */
  method PushColUp(matrix: seq<seq<int>>, acc: seq<int>, col: int, from: int, to: int) returns (result: seq<int>)
    requires Rectangular(matrix) && 0 <= col < |matrix[0]| && 0 <= from && to < |matrix|
    ensures result == acc + Values(matrix, ColUp(col, from, to))
  {
    result := acc;
    var i := to;
    while i >= from
      invariant (if from <= to then from - 1 else to) <= i <= to
      invariant result == acc + Values(matrix, ColUp(col, i + 1, to))
    {
      SidesSnoc(col, i, to);
      ValuesAppend(matrix, ColUp(col, i + 1, to), [Cell(i, col)]);
      result := result + [matrix[i][col]];
      i := i - 1;
    }
  }

  lemma Associate(acc: seq<int>, a: seq<int>, b: seq<int>, c: seq<int>, d: seq<int>)
    ensures acc + a + b + c + d == acc + (a + b + c + d)
  {
  }

  /** One pass of the loop body of `Spiral` on non-crossed bounds inside the
      matrix: appends the entries of the layer and returns the narrowed
      bounds. */
  method WalkLayer(matrix: seq<seq<int>>, acc: seq<int>, bd: Bounds) returns (result: seq<int>, next: Bounds)
    requires Rectangular(matrix)
    requires 0 <= bd.top <= bd.bottom < |matrix| && 0 <= bd.left <= bd.right < |matrix[0]|
    ensures result == acc + Values(matrix, Layer(bd).0)
    ensures next == Layer(bd).1
  {
    var top, bottom, left, right := bd.top, bd.bottom, bd.left, bd.right;
    result := PushRowRight(matrix, acc, top, left, right);
    top := top + 1;
    result := PushColDown(matrix, result, right, top, bottom);
    right := right - 1;
    ghost var third: seq<Cell> := [];
    ghost var upToThird := result;
    if top <= bottom {
      result := PushRowLeft(matrix, result, bottom, left, right);
      third := RowLeft(bottom, left, right);
      bottom := bottom - 1;
    }
    assert result == upToThird + Values(matrix, third);
    ghost var fourth: seq<Cell> := [];
    ghost var upToFourth := result;
    if left <= right {
      result := PushColUp(matrix, result, left, top, bottom);
      fourth := ColUp(left, top, bottom);
      left := left + 1;
    }
    assert result == upToFourth + Values(matrix, fourth);
    next := Bounds(top, bottom, left, right);
    WalkedLayer(matrix, bd, bottom, left, third, fourth, acc, result, next);
  }

  /** What one pass of `WalkLayer` has appended, side by side, is the matrix
      read along the layer, and the bounds it leaves are the layer's. */
  lemma WalkedLayer(matrix: seq<seq<int>>, bd: Bounds, b1: int, l1: int, third: seq<Cell>, fourth: seq<Cell>,
                    acc: seq<int>, result: seq<int>, next: Bounds)
    requires bd.top <= bd.bottom && bd.left <= bd.right
    requires LowerSides(bd.top, bd.bottom, bd.left, bd.right, b1, third, fourth)
    requires l1 == (if bd.left <= bd.right - 1 then bd.left + 1 else bd.left)
    requires next == Bounds(bd.top + 1, b1, l1, bd.right - 1)
    requires result == acc + Values(matrix, RowRight(bd.top, bd.left, bd.right))
                       + Values(matrix, ColDown(bd.right, bd.top + 1, bd.bottom)) + Values(matrix, third) + Values(matrix, fourth)
    ensures result == acc + Values(matrix, Layer(bd).0)
    ensures next == Layer(bd).1
  {
    LayerNext(bd, b1, l1);
    LayerValues(matrix, bd, b1, third, fourth);
    Associate(acc, Values(matrix, RowRight(bd.top, bd.left, bd.right)), Values(matrix, ColDown(bd.right, bd.top + 1, bd.bottom)),
              Values(matrix, third), Values(matrix, fourth));
  }

  /** `Spiral`: while the bounds have not crossed, walk one layer and narrow
      the bounds. The result is the matrix read at `SpiralCells`, so it has
      one entry per cell, begins with the first row, and for a single-row
      matrix is that row. */
  method Spiral(matrix: seq<seq<int>>) returns (result: seq<int>)
    requires Rectangular(matrix)
    ensures result == Values(matrix, SpiralCells(Whole(matrix)))
    ensures |result| == |matrix| * |matrix[0]|
    ensures result[..|matrix[0]|] == matrix[0]
    ensures |matrix| == 1 ==> result == matrix[0]
  {
    result := [];
    var top := 0;
    var bottom := |matrix| - 1;
    var left := 0;
    var right := |matrix[0]| - 1;
    ghost var target := Values(matrix, SpiralCells(Whole(matrix)));
    while top <= bottom && left <= right
      invariant 0 <= top && bottom < |matrix| && 0 <= left && right < |matrix[0]|
      invariant result + Values(matrix, SpiralCells(Bounds(top, bottom, left, right))) == target
      decreases bottom - top + 1
    {
      var next;
      ghost var acc := result;
      result, next := WalkLayer(matrix, result, Bounds(top, bottom, left, right));
      LayerStep(matrix, Bounds(top, bottom, left, right), acc, result);
      top, bottom, left, right := next.top, next.bottom, next.left, next.right;
    }
    SpiralDone(matrix, Bounds(top, bottom, left, right));
    SpiralPrefix(matrix, result);
  }

  /** Crossed bounds hold no cells. */
  lemma SpiralDone(matrix: seq<seq<int>>, bd: Bounds)
    requires !(bd.top <= bd.bottom && bd.left <= bd.right)
    ensures Values(matrix, SpiralCells(bd)) == []
  {
  }

  /** The bounds after one layer: one row lower at the top, one column
      narrower at the right, and narrower at the bottom and left only when
      the third and fourth sides were walked. */
  lemma LayerNext(bd: Bounds, b1: int, l1: int)
    requires bd.top <= bd.bottom && bd.left <= bd.right
    requires b1 == (if bd.top + 1 <= bd.bottom then bd.bottom - 1 else bd.bottom)
    requires l1 == (if bd.left <= bd.right - 1 then bd.left + 1 else bd.left)
    ensures Layer(bd).1 == Bounds(bd.top + 1, b1, l1, bd.right - 1)
  {
  }

  /** A layer is its four sides, in order. */
  lemma LayerIsSides(bd: Bounds, b1: int, third: seq<Cell>, fourth: seq<Cell>)
    requires bd.top <= bd.bottom && bd.left <= bd.right
    requires LowerSides(bd.top, bd.bottom, bd.left, bd.right, b1, third, fourth)
    ensures Layer(bd).0 == RowRight(bd.top, bd.left, bd.right) + ColDown(bd.right, bd.top + 1, bd.bottom) + third + fourth
  {
  }

  /** The entries read along one layer are those read along its four sides. */
  lemma LayerValues(matrix: seq<seq<int>>, bd: Bounds, b1: int, third: seq<Cell>, fourth: seq<Cell>)
    requires bd.top <= bd.bottom && bd.left <= bd.right
    requires LowerSides(bd.top, bd.bottom, bd.left, bd.right, b1, third, fourth)
    ensures Values(matrix, Layer(bd).0) == Values(matrix, RowRight(bd.top, bd.left, bd.right))
              + Values(matrix, ColDown(bd.right, bd.top + 1, bd.bottom)) + Values(matrix, third) + Values(matrix, fourth)
  {
    var first := RowRight(bd.top, bd.left, bd.right);
    var second := ColDown(bd.right, bd.top + 1, bd.bottom);
    LayerIsSides(bd, b1, third, fourth);
    ValuesAppend(matrix, first, second);
    ValuesAppend(matrix, first + second, third);
    ValuesAppend(matrix, first + second + third, fourth);
  }

  /** The bookkeeping of one loop iteration: what the four side loops have
      appended is the matrix read at the layer's cells. */
  lemma LayerStep(matrix: seq<seq<int>>, bd: Bounds, acc: seq<int>, result: seq<int>)
    requires bd.top <= bd.bottom && bd.left <= bd.right
    requires result == acc + Values(matrix, Layer(bd).0)
    ensures acc + Values(matrix, SpiralCells(bd)) == result + Values(matrix, SpiralCells(Layer(bd).1))
  {
    var ring := Layer(bd).0;
    var rest := SpiralCells(Layer(bd).1);
    assert SpiralCells(bd) == ring + rest;
    ValuesAppend(matrix, ring, rest);
    assert acc + (Values(matrix, ring) + Values(matrix, rest)) == acc + Values(matrix, ring) + Values(matrix, rest);
  }

  /** The counting and first-row facts of `Spiral`, from the exact cover. */
  lemma SpiralPrefix(matrix: seq<seq<int>>, result: seq<int>)
    requires Rectangular(matrix)
    requires result == Values(matrix, SpiralCells(Whole(matrix)))
    ensures |result| == |matrix| * |matrix[0]|
    ensures result[..|matrix[0]|] == matrix[0]
    ensures |matrix| == 1 ==> result == matrix[0]
  {
    var whole := Whole(matrix);
    var cols := |matrix[0]|;
    SpiralCellsExactCover(whole);
    assert Area(whole) == |matrix| * cols;
    if cols > 0 {
      var first := RowRight(0, 0, cols - 1);
      assert SpiralCells(whole)[..cols] == first;
      assert forall k :: 0 <= k < cols ==> result[k] == matrix[0][k];
    }
    if |matrix| == 1 {
      assert |result| == cols;
    }
  }
}
