/** `CellsIterator` of src/conway/cells.rs: a cursor (x, y) over a board
    that yields `(x, y, cell)` with x varying fastest. The board the Rust
    iterator borrows is passed to each call instead of being stored. */
module GridIterator {
  import opened Outcomes
  import opened TeamCell
  import opened Grid

  /** The cursor: the next position to yield. */
  datatype CellsIterator = CellsIterator(x: nat, y: nat)

  /** One item: column, row, and the cell there. */
  type Item = (nat, nat, Cell)

  /** `CellsIterator::new` (reached through `Cells::iter`). */
  function Start(): (it: CellsIterator)
    ensures forall w: nat :: Index(it, w) == 0
  {
    CellsIterator(0, 0)
  }

  /** Cursor states `next` can reach from `Start` on board `g`: the column
      is always on the board, and once the rows are used up the cursor
      rests at (0, height). */
  predicate Reachable(g: Cells, it: CellsIterator)
    requires g.Valid()
  {
    it.x < g.Width() && it.y <= g.Height() && (it.y == g.Height() ==> it.x == 0)
  }

  /** How many items the cursor has already yielded. */
  function Index(it: CellsIterator, width: nat): nat
  {
    it.y * width + it.x
  }

  /** `Iterator::next`: nothing once the rows are used up (and the cursor
      stays put); otherwise the cell under the cursor, after which the
      cursor advances by one position in row-major order. */
  function Next(g: Cells, it: CellsIterator): (r: (Option<Item>, CellsIterator))
    requires g.Valid() && it.x < g.Width()
    ensures r.1.x < g.Width()
    ensures r.0.None? <==> it.y >= g.Height()
    ensures r.0.None? ==> r.1 == it
    ensures r.0.Some? ==> && r.0.value == (it.x, it.y, g.At(it.x, it.y))
                          && Index(r.1, g.Width()) == Index(it, g.Width()) + 1
    ensures Reachable(g, it) ==> Reachable(g, r.1)
  {
    if it.y >= |g.columns[0]| then (None, it)
    else
      var item := (it.x, it.y, g.columns[it.x][it.y]);
      var x := it.x + 1;
      if x >= |g.columns| then
        assert (it.y + 1) * g.Width() == it.y * g.Width() + g.Width();
        (Some(item), CellsIterator(0, it.y + 1))
      else (Some(item), CellsIterator(x, it.y))
  }

  /** Positions left to yield from a reachable cursor. */
  function Remaining(g: Cells, it: CellsIterator): nat
    requires g.Valid() && Reachable(g, it)
  {
    IndexBound(g, it);
    g.Width() * g.Height() - Index(it, g.Width())
  }

  lemma IndexBound(g: Cells, it: CellsIterator)
    requires g.Valid() && Reachable(g, it)
    ensures Index(it, g.Width()) <= g.Width() * g.Height()
    ensures it.y < g.Height() ==> Index(it, g.Width()) < g.Width() * g.Height()
  {
    var w, h := g.Width(), g.Height();
    if it.y < h {
      assert it.y * w + it.x < it.y * w + w == (it.y + 1) * w;
      assert (it.y + 1) * w <= h * w;
    } else {
      assert it.y * w == h * w;
    }
  }

  /** Everything the cursor yields until `next` first returns `None`. */
  function Drain(g: Cells, it: CellsIterator): seq<Item>
    requires g.Valid() && Reachable(g, it)
    decreases Remaining(g, it)
  {
    var (item, it') := Next(g, it);
    if item.None? then []
    else
      IndexBound(g, it);
      [item.value] + Drain(g, it')
  }

  /** The item for the k-th position in yield order. */
  function ItemAt(g: Cells, k: nat): Item
    requires g.Valid() && k < g.Width() * g.Height()
  {
    DivModBounds(k, g.Width(), g.Height());
    (k % g.Width(), k / g.Width(), g.At(k % g.Width(), k / g.Width()))
  }

  lemma DivModBounds(k: nat, w: nat, h: nat)
    requires 0 < w && k < w * h
    ensures k % w < w && k / w < h
  {
  }

  /** Writing k as y * w + x with x < w determines x and y. */
  lemma DivModUnique(k: nat, w: nat, x: nat, y: nat)
    requires 0 < w && x < w && k == y * w + x
    ensures k % w == x && k / w == y
  {
    var q, r := k / w, k % w;
    assert (q - y) * w == x - r;
    SmallMultipleIsZero(q - y, w, x - r);
  }

  /** A multiple of w strictly between -w and w is zero. */
  lemma SmallMultipleIsZero(d: int, w: nat, e: int)
    requires 0 < w && d * w == e && -(w as int) < e < w
    ensures d == 0
  {
    MulAtLeast(if d >= 0 then d else -d, w);
  }

  lemma {:induction false} MulAtLeast(d: nat, w: nat)
    ensures d >= 1 ==> d * w >= w
  {
    if d > 1 {
      MulAtLeast(d - 1, w);
    }
  }

  /** From a reachable cursor that has yielded i items, draining yields
      exactly the items of positions i, i + 1, ... up to width * height. */
  lemma {:induction false} DrainFrom(g: Cells, it: CellsIterator)
    requires g.Valid() && Reachable(g, it)
    ensures |Drain(g, it)| == Remaining(g, it)
    ensures forall j :: 0 <= j < |Drain(g, it)| ==>
              Drain(g, it)[j] == ItemAt(g, Index(it, g.Width()) + j)
    decreases Remaining(g, it)
  {
    IndexBound(g, it);
    var (item, it') := Next(g, it);
    if item.Some? {
      DivModUnique(Index(it, g.Width()), g.Width(), it.x, it.y);
      DrainFrom(g, it');
      var d := Drain(g, it);
      assert d == [item.value] + Drain(g, it');
      forall j | 0 <= j < |d|
        ensures d[j] == ItemAt(g, Index(it, g.Width()) + j)
      {
        if j > 0 {
          assert d[j] == Drain(g, it')[j - 1];
        }
      }
    } else {
      assert it.y == g.Height();
    }
  }

  /** A fresh traversal yields exactly width * height items; the k-th is
      column k mod width, row k div width, with the cell there. */
  lemma IterYieldsEveryCell(g: Cells)
    requires g.Valid()
    ensures |Drain(g, Start())| == g.Width() * g.Height()
    ensures forall k :: 0 <= k < |Drain(g, Start())| ==> Drain(g, Start())[k] == ItemAt(g, k)
  {
    DrainFrom(g, Start());
  }

  /** Every position on the board is yielded. */
  lemma IterVisitsEveryPosition(g: Cells, x: nat, y: nat)
    requires g.Valid() && g.InBounds(x, y)
    ensures (x, y, g.At(x, y)) in Drain(g, Start())
  {
    IterYieldsEveryCell(g);
    var k := y * g.Width() + x;
    IndexBound(g, CellsIterator(x, y));
    DivModUnique(k, g.Width(), x, y);
    assert Drain(g, Start())[k] == ItemAt(g, k);
  }

  /** No position is yielded twice. */
  lemma IterVisitsNoPositionTwice(g: Cells, j: nat, k: nat)
    requires g.Valid() && j < k < |Drain(g, Start())|
    ensures (Drain(g, Start())[j].0, Drain(g, Start())[j].1) !=
            (Drain(g, Start())[k].0, Drain(g, Start())[k].1)
  {
    IterYieldsEveryCell(g);
    var d := Drain(g, Start());
    assert d[j] == ItemAt(g, j) && d[k] == ItemAt(g, k);
    DivModInjective(j, k, g.Width());
  }

  /** Distinct indexes have distinct (mod, div) pairs. */
  lemma DivModInjective(j: nat, k: nat, w: nat)
    requires 0 < w
    ensures j != k ==> (j % w, j / w) != (k % w, k / w)
  {
    assert j == (j / w) * w + j % w;
    assert k == (k / w) * w + k % w;
  }

  /** Once exhausted, `next` returns `None` forever: the cursor does not
      move. */
  lemma ExhaustedStaysExhausted(g: Cells, it: CellsIterator, n: nat)
    requires g.Valid() && it.x < g.Width() && it.y >= g.Height()
    ensures Next(g, Run(g, it, n)).0.None?
    ensures Run(g, it, n) == it
  {
  }

  /** The cursor after n calls to `next`. */
  function Run(g: Cells, it: CellsIterator, n: nat): (r: CellsIterator)
    requires g.Valid() && it.x < g.Width()
    ensures r.x < g.Width()
    decreases n
  {
    if n == 0 then it else Run(g, Next(g, it).1, n - 1)
  }

  /** After all width * height items a fresh cursor rests at (0, height),
      where `next` yields nothing. */
  lemma {:induction false} RunToEnd(g: Cells, it: CellsIterator)
    requires g.Valid() && Reachable(g, it)
    ensures Run(g, it, Remaining(g, it)) == CellsIterator(0, g.Height())
    ensures Next(g, Run(g, it, Remaining(g, it))).0.None?
    decreases Remaining(g, it)
  {
    IndexBound(g, it);
    if it.y < g.Height() {
      RunToEnd(g, Next(g, it).1);
    }
  }

  /** `Iterator::size_hint`: lower bound 0 and, as upper bound, the number
      of cells on the board (not the number left, as a comment in the
      source admits); both bracket the items still to come. */
  function SizeHint(g: Cells, it: CellsIterator): (r: (nat, Option<nat>))
    requires g.Valid() && Reachable(g, it)
    ensures r == (0, Some(g.Width() * g.Height()))
    ensures r.0 <= |Drain(g, it)| <= r.1.value
    ensures it == Start() ==> r.1.value == |Drain(g, it)|
  {
    DrainFrom(g, it);
    (0, Some(|g.columns| * |g.columns[0]|))
  }
}
