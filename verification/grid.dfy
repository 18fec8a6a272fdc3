/** The board `Cells` of src/conway/cells.rs: a column-major grid with
    bounds-checked access and the clipped 8-neighbourhood. Coordinates are
    mathematical integers; the source's negativity test before its
    `as usize` cast becomes the `x < 0 || y < 0` test. */
module Grid {
  import opened Outcomes
  import opened TeamCell

  /** A board position `(x, y)`: column x, row y. */
  type Pos = (int, int)

  /** The board, stored column-major: `columns[x][y]` is the cell in column
      x, row y. */
  datatype Cells = Cells(columns: seq<seq<Cell>>) {

    /** `self.cells.len()`. */
    function Width(): nat { |columns| }

    /** `self.cells[0].len()`, the height every access reads. */
    function Height(): nat
      requires |columns| > 0
    {
      |columns[0]|
    }

    /** What `Cells::new` establishes and no operation breaks: at least
        2 x 2, and every column as tall as the first. */
    predicate Valid()
    {
      && |columns| >= 2
      && |columns[0]| >= 2
      && forall x :: 0 <= x < |columns| ==> |columns[x]| == |columns[0]|
    }

    predicate InBounds(x: int, y: int)
      requires Valid()
    {
      0 <= x < Width() && 0 <= y < Height()
    }

    /** The cell at an in-range position. */
    function At(x: int, y: int): Cell
      requires Valid() && InBounds(x, y)
    {
      columns[x][y]
    }

    /** `Cells::get`: absent exactly when a coordinate is negative or not
        below its dimension; otherwise the cell in column x, row y. */
    function Get(x: int, y: int): (r: Option<Cell>)
      requires Valid()
      ensures r.None? <==> x < 0 || y < 0 || x >= Width() || y >= Height()
      ensures r.Some? ==> r.value == columns[x][y]
    {
      if x < 0 || y < 0 then None
      else if x >= |columns| || y >= |columns[0]| then None
      else Some(columns[x][y])
    }

    /** The board with cell (x, y) replaced by `c`. */
    function Replace(x: int, y: int, c: Cell): (g: Cells)
      requires Valid() && InBounds(x, y)
      ensures g.Valid() && g.Width() == Width() && g.Height() == Height()
      ensures g.At(x, y) == c
      ensures forall i, j :: InBounds(i, j) && (i, j) != (x, y) ==> g.At(i, j) == At(i, j)
    {
      Cells(columns[x := columns[x][y := c]])
    }

    /** `Cells::get_mut` followed by a write through the returned reference:
        `edit` maps the referenced cell to the value written back. Absent
        under exactly the bounds of `Get`; otherwise only cell (x, y)
        changes, and it changes to `edit` of its old value. */
    function GetMut(x: int, y: int, edit: Cell -> Cell): (r: Option<Cells>)
      requires Valid()
      ensures r.None? <==> x < 0 || y < 0 || x >= Width() || y >= Height()
      ensures r.Some? ==> && r.value.Valid()
                          && r.value.Width() == Width() && r.value.Height() == Height()
                          && r.value.At(x, y) == edit(At(x, y))
                          && forall i, j :: InBounds(i, j) && (i, j) != (x, y) ==>
                                              r.value.At(i, j) == At(i, j)
    {
      if x < 0 || y < 0 then None
      else if x >= |columns| || y >= |columns[0]| then None
      else Some(Replace(x, y, edit(columns[x][y])))
    }

    /** `Cells::set` as the source writes it: after the negativity test the
        guard is `x < width || y < height`, so a write with exactly one
        coordinate too large passes the guard and indexes past the end of a
        `Vec`. */
    function SetAsWritten(x: int, y: int, c: Cell): (r: Outcome<Cells>)
      requires Valid()
      ensures r.Panicked? <==> x >= 0 && y >= 0 && (x >= Width() <==> y < Height())
      ensures r.Panicked? ==> r.why == IndexOutOfBounds
      ensures r.Ok? && InBounds(x, y) ==> r.value == Replace(x, y, c)
      ensures r.Ok? && !InBounds(x, y) ==> r.value == this
    {
      if x < 0 || y < 0 then Ok(this)
      else if x < |columns| || y < |columns[0]| then
        if x >= |columns| then Panicked(IndexOutOfBounds)        // `self.cells[x]`
        else if y >= |columns[x]| then Panicked(IndexOutOfBounds) // `[y]`
        else Ok(Replace(x, y, c))
      else Ok(this)
    }

    /** `Cells::set` with the guard the rest of the type uses,
        `x < width && y < height`: an in-range write replaces only that
        cell, any other write leaves the board as it was. */
    function Set(x: int, y: int, c: Cell): (g: Cells)
      requires Valid()
      ensures g.Valid() && g.Width() == Width() && g.Height() == Height()
      ensures InBounds(x, y) ==> g.At(x, y) == c
      ensures forall i, j :: InBounds(i, j) && (i, j) != (x, y) ==> g.At(i, j) == At(i, j)
      ensures !InBounds(x, y) ==> g == this
    {
      if x < 0 || y < 0 then this
      else if x < |columns| && y < |columns[0]| then Replace(x, y, c)
      else this
    }

    /** Reading back a written position gives the written cell; reading any
        other position gives what was there before. */
    lemma GetAfterSet(x: int, y: int, c: Cell, i: int, j: int)
      requires Valid()
      ensures Set(x, y, c).Valid()
      ensures Set(x, y, c).Get(i, j) ==
                if (i, j) == (x, y) && InBounds(x, y) then Some(c) else Get(i, j)
    {
    }

    /** Both guards agree wherever the source's guard does not panic: the
        panic is the only difference between them. */
    lemma SetAsWrittenAgrees(x: int, y: int, c: Cell)
      requires Valid()
      ensures SetAsWritten(x, y, c).Ok? ==> SetAsWritten(x, y, c).value == Set(x, y, c)
      ensures InBounds(x, y) ==> SetAsWritten(x, y, c) == Ok(Set(x, y, c))
    {
    }

    /** The input that shows the `||` guard: column `Width()` does not
        exist, but row 0 does, so the write is attempted and panics where
        the corrected guard ignores it. */
    lemma SetAsWrittenPanicsOffBoard(c: Cell)
      requires Valid()
      ensures SetAsWritten(Width(), 0, c) == Panicked(IndexOutOfBounds)
      ensures Set(Width(), 0, c) == this
    {
    }

    // ---------------------------------------------------------------
    // Neighbourhood

    /** One step of the inner loop of `get_neighbors` at position (x, y)
        around centre (cx, cy): the centre is skipped, and a position is
        kept only when `get` finds a cell there. */
    function Visit(cx: int, cy: int, x: int, y: int): (ps: seq<Pos>)
      requires Valid()
    {
      if x == cx && y == cy then []
      else if Get(x, y).Some? then [(x, y)]
      else []
    }

    /** The inner loop, `for y in (cy - 1)..(cy + 2)`, for one column x. */
    function VisitColumn(cx: int, cy: int, x: int): seq<Pos>
      requires Valid()
    {
      Visit(cx, cy, x, cy - 1) + Visit(cx, cy, x, cy) + Visit(cx, cy, x, cy + 1)
    }

    /** The outer loop, `for x in (cx - 1)..(cx + 2)`: the positions whose
        cells `get_neighbors` pushes, in push order. */
    function NeighborPositions(cx: int, cy: int): seq<Pos>
      requires Valid()
    {
      VisitColumn(cx, cy, cx - 1) + VisitColumn(cx, cy, cx) + VisitColumn(cx, cy, cx + 1)
    }

    /** `Cells::get_neighbors`, with the returned references modelled by the
        cells they point at: the cells at `NeighborPositions`, unless their
        number is not 3, 5 or 8, in which case the defensive check panics.
        For every position on the board the count test passes, and the count is
        3 at a corner, 5 elsewhere on the rim and 8 inside. */
    function GetNeighbors(cx: nat, cy: nat): (r: Outcome<seq<Cell>>)
      requires Valid()
      ensures r.Ok? ==> |r.value| == |NeighborPositions(cx, cy)|
      ensures r.Ok? ==> forall i :: 0 <= i < |r.value| ==>
                          var p := NeighborPositions(cx, cy)[i];
                          InBounds(p.0, p.1) && r.value[i] == At(p.0, p.1)
      ensures r.Panicked? <==> var n := |NeighborPositions(cx, cy)|; n != 3 && n != 5 && n != 8
      ensures r.Panicked? ==> r.why == UnexpectedNeighborCount(|NeighborPositions(cx, cy)|)
      ensures InBounds(cx, cy) ==> r.Ok? && |r.value| == ExpectedNeighborCount(cx, cy)
    {
      NeighborPositionsInBounds(cx, cy);
      NeighborCount(cx, cy);
      var ps := NeighborPositions(cx, cy);
      var len := |ps|;
      if len != 3 && len != 5 && len != 8 then Panicked(UnexpectedNeighborCount(len))
      else Ok(CellsAt(ps))
    }

    /** The count check is reachable: centred one column past the right
        edge, in the top row, only two neighbours are on the board and
        `get_neighbors` panics; one row lower there are three when the board
        has a third row, and it returns them. */
    lemma OffBoardNeighbors()
      requires Valid()
      ensures GetNeighbors(Width(), 0) == Panicked(UnexpectedNeighborCount(2))
      ensures Height() >= 3 ==> GetNeighbors(Width(), 1).Ok? && |GetNeighbors(Width(), 1).value| == 3
    {
    }

    /** The cells at the given on-board positions, in order. */
    function CellsAt(ps: seq<Pos>): (cs: seq<Cell>)
      requires Valid()
      requires forall p :: p in ps ==> InBounds(p.0, p.1)
      ensures |cs| == |ps|
      ensures forall i :: 0 <= i < |ps| ==> cs[i] == At(ps[i].0, ps[i].1)
    {
      seq(|ps|, i requires 0 <= i < |ps| => At(ps[i].0, ps[i].1))
    }

    /** Two boards of the same shape that agree at every position are equal. */
    lemma Extensional(other: Cells)
      requires Valid() && other.Valid()
      requires other.Width() == Width() && other.Height() == Height()
      requires forall x, y :: InBounds(x, y) ==> other.At(x, y) == At(x, y)
      ensures other == this
    {
      forall x | 0 <= x < Width()
        ensures other.columns[x] == columns[x]
      {
        forall y | 0 <= y < Height()
          ensures other.columns[x][y] == columns[x][y]
        {
          assert InBounds(x, y) && other.At(x, y) == At(x, y);
        }
      }
    }

    /** How many neighbours a position has by where it lies: 3 at a corner,
        5 on a non-corner edge, 8 in the interior. */
    function ExpectedNeighborCount(cx: int, cy: int): nat
      requires Valid()
    {
      var xEdge := cx == 0 || cx == Width() - 1;
      var yEdge := cy == 0 || cy == Height() - 1;
      if xEdge && yEdge then 3 else if xEdge || yEdge then 5 else 8
    }

    /** Every pushed position is on the board. */
    lemma NeighborPositionsInBounds(cx: int, cy: int)
      requires Valid()
      ensures forall p :: p in NeighborPositions(cx, cy) ==> InBounds(p.0, p.1)
    {
    }

    /** `get_neighbors` pushes exactly the on-board positions among the eight
        around (cx, cy), never the centre, each once, in x-outer, y-inner
        order. */
    lemma NeighborPositionsExact(cx: int, cy: int)
      requires Valid()
      ensures forall p :: p in NeighborPositions(cx, cy) <==> InBounds(p.0, p.1) && Adjacent(cx, cy, p)
      ensures InScanOrder(NeighborPositions(cx, cy))
    {
      var a, b, c := VisitColumn(cx, cy, cx - 1), VisitColumn(cx, cy, cx), VisitColumn(cx, cy, cx + 1);
      ColumnExact(cx, cy, cx - 1);
      ColumnExact(cx, cy, cx);
      ColumnExact(cx, cy, cx + 1);
      ConcatInOrder(a, b);
      ConcatInOrder(a + b, c);
      assert NeighborPositions(cx, cy) == a + b + c;
    }

    /** One column's kept positions: the on-board rows cy - 1 .. cy + 1 of
        column x other than the centre, in row order. */
    lemma ColumnExact(cx: int, cy: int, x: int)
      requires Valid()
      ensures forall p :: p in VisitColumn(cx, cy, x) <==>
                p.0 == x && InBounds(p.0, p.1) && -1 <= p.1 - cy <= 1 && p != (cx, cy)
      ensures InScanOrder(VisitColumn(cx, cy, x))
    {
    }

    /** Number of in-range values among c - 1, c, c + 1 for a dimension of
        size n >= 2 and c in range. */
    function Span(c: int, n: int): nat
    {
      if c == 0 || c == n - 1 then 2 else 3
    }

    /** Kept positions of one column: all rows in range except the centre. */
    lemma ColumnCount(cx: int, cy: int, x: int)
      requires Valid() && InBounds(cx, cy)
      ensures 0 <= x < Width() && x != cx ==> |VisitColumn(cx, cy, x)| == Span(cy, Height())
      ensures x == cx ==> |VisitColumn(cx, cy, x)| == Span(cy, Height()) - 1
      ensures (x < 0 || x >= Width()) ==> |VisitColumn(cx, cy, x)| == 0
    {
    }

    /** The neighbour count at every position on the board is the expected
        3, 5 or 8. */
    lemma NeighborCount(cx: int, cy: int)
      requires Valid()
      ensures InBounds(cx, cy) ==> |NeighborPositions(cx, cy)| == ExpectedNeighborCount(cx, cy)
    {
      if InBounds(cx, cy) {
        ColumnCount(cx, cy, cx - 1);
        ColumnCount(cx, cy, cx);
        ColumnCount(cx, cy, cx + 1);
      }
    }
  }

  /** `Cells::new`: fails its assertion below 2 x 2; otherwise `width`
      columns of `height` cells each, every one of them dead and Neutral. */
  function New(width: nat, height: nat): (r: Outcome<Cells>)
    ensures r.Panicked? <==> width < 2 || height < 2
    ensures r.Panicked? ==> r.why == AssertionFailed
    ensures r.Ok? ==> && r.value.Valid()
                      && r.value.Width() == width && r.value.Height() == height
                      && forall x, y :: r.value.InBounds(x, y) ==>
                                          !r.value.At(x, y).alive && r.value.At(x, y).team == Neutral
  {
    if !(width >= 2 && height >= 2) then Panicked(AssertionFailed)
    else Ok(Cells(seq(width, _ => seq(height, _ => NewCell()))))
  }

  /** `p` comes before `q` in the scan order of `get_neighbors`: x-outer,
      y-inner. */
  predicate ScanBefore(p: Pos, q: Pos)
  {
    p.0 < q.0 || (p.0 == q.0 && p.1 < q.1)
  }

  /** Position p is one of the eight around (cx, cy). */
  predicate Adjacent(cx: int, cy: int, p: Pos)
  {
    -1 <= p.0 - cx <= 1 && -1 <= p.1 - cy <= 1 && p != (cx, cy)
  }

  /** Every position comes strictly before the next in scan order, so no
      position occurs twice. */
  predicate InScanOrder(ps: seq<Pos>)
  {
    forall i, j :: 0 <= i < j < |ps| ==> ScanBefore(ps[i], ps[j])
  }

  lemma ConcatInOrder(a: seq<Pos>, b: seq<Pos>)
    requires InScanOrder(a) && InScanOrder(b)
    requires forall p, q :: p in a && q in b ==> ScanBefore(p, q)
    ensures InScanOrder(a + b)
  {
    forall i, j | 0 <= i < j < |a + b|
      ensures ScanBefore((a + b)[i], (a + b)[j])
    {
      if j < |a| {
      } else if i >= |a| {
        assert (a + b)[i] == b[i - |a|] && (a + b)[j] == b[j - |a|];
      } else {
        assert (a + b)[i] in a && (a + b)[j] in b;
      }
    }
  }
}
