/** `GameOfLife` of src/conway/mod.rs: a board together with the width and
    height it was made with, the double-buffered generation step `tick`,
    and the setup helpers `clear`, `randomize` and `glider`. */
module Life {
  import opened Outcomes
  import opened TeamCell
  import opened Grid

  datatype GameOfLife = GameOfLife(width: nat, height: nat, cells: Cells) {
    /** The stored dimensions are those of the board, which is valid. */
    predicate Valid()
    {
      cells.Valid() && width == cells.Width() && height == cells.Height()
    }
  }

  /** `GameOfLife::new`: panics exactly when `Cells::new` does; otherwise a
      dead, Neutral board whose dimensions are the stored ones. */
  function NewGame(width: nat, height: nat): (r: Outcome<GameOfLife>)
    ensures r.Panicked? <==> width < 2 || height < 2
    ensures r.Ok? ==> && r.value.Valid()
                      && r.value.width == width && r.value.height == height
                      && forall x, y :: r.value.cells.InBounds(x, y) ==>
                                          r.value.cells.At(x, y) == NewCell()
  {
    match New(width, height)
    case Panicked(why) => Panicked(why)
    case Ok(cells) => Ok(GameOfLife(width, height, cells))
  }

  // ---------------------------------------------------------------
  // Neighbour population

  /** `neighbors.iter().filter(|c| c.alive)`: the live cells, in order
      (`LiveOnlyMultiplicity` counts them). */
  function LiveOnly(cs: seq<Cell>): (r: seq<Cell>)
    ensures |r| <= |cs|
    ensures forall c :: c in r <==> c in cs && c.alive
  {
    if |cs| == 0 then []
    else
      assert cs == [cs[0]] + cs[1..];
      if cs[0].alive then [cs[0]] + LiveOnly(cs[1..])
      else LiveOnly(cs[1..])
  }

  /** Each live value is kept as often as it occurs and each dead one never,
      so the filter's length is the number of live entries. */
  lemma {:induction false} LiveOnlyMultiplicity(cs: seq<Cell>)
    ensures forall c :: multiset(LiveOnly(cs))[c] == if c.alive then multiset(cs)[c] else 0
  {
    if |cs| > 0 {
      assert cs == [cs[0]] + cs[1..];
      LiveOnlyMultiplicity(cs[1..]);
    }
  }

  lemma {:induction false} LiveOnlyAppend(a: seq<Cell>, b: seq<Cell>)
    ensures LiveOnly(a + b) == LiveOnly(a) + LiveOnly(b)
  {
    if |a| == 0 {
      assert a + b == b;
    } else {
      assert (a + b)[0] == a[0] && (a + b)[1..] == a[1..] + b;
      LiveOnlyAppend(a[1..], b);
    }
  }

  /** The parents `tick` hands to `inherit_from` for cell (x, y): its live
      neighbours, in the order `get_neighbors` returns them. */
  function LiveParents(g: Cells, x: int, y: int): (r: seq<Cell>)
    requires g.Valid() && g.InBounds(x, y)
    ensures |r| <= 8
    ensures forall i :: 0 <= i < |r| ==> r[i].alive
  {
    LiveOnly(g.GetNeighbors(x, y).value)
  }

  /** 1 if (x, y) is on the board and alive there, else 0. */
  function AliveAt(g: Cells, x: int, y: int): nat
    requires g.Valid()
  {
    if g.InBounds(x, y) && g.At(x, y).alive then 1 else 0
  }

  /** Life's neighbour count, written independently of the scan: the live
      cells among the eight positions around (cx, cy), off-board positions
      counting as dead. */
  function LiveNeighborCount(g: Cells, cx: int, cy: int): nat
    requires g.Valid()
  {
    AliveAt(g, cx - 1, cy - 1) + AliveAt(g, cx - 1, cy) + AliveAt(g, cx - 1, cy + 1) +
    AliveAt(g, cx, cy - 1)                              + AliveAt(g, cx, cy + 1) +
    AliveAt(g, cx + 1, cy - 1) + AliveAt(g, cx + 1, cy) + AliveAt(g, cx + 1, cy + 1)
  }

  /** The live cells one scan step keeps: at most the cell at (x, y). */
  lemma VisitPopulation(g: Cells, cx: int, cy: int, x: int, y: int)
    requires g.Valid()
    ensures forall p :: p in g.Visit(cx, cy, x, y) ==> g.InBounds(p.0, p.1)
    ensures |LiveOnly(g.CellsAt(g.Visit(cx, cy, x, y)))| ==
              if x == cx && y == cy then 0 else AliveAt(g, x, y)
  {
    var v := g.Visit(cx, cy, x, y);
    if |v| == 1 {
      assert LiveOnly(g.CellsAt(v)) == if g.At(x, y).alive then [g.At(x, y)] else [];
    }
  }

  /** One column of the scan contributes the live cells of that column. */
  lemma ColumnPopulation(g: Cells, cx: int, cy: int, x: int)
    requires g.Valid()
    ensures forall p :: p in g.VisitColumn(cx, cy, x) ==> g.InBounds(p.0, p.1)
    ensures |LiveOnly(g.CellsAt(g.VisitColumn(cx, cy, x)))| ==
              AliveAt(g, x, cy - 1) + (if x == cx then 0 else AliveAt(g, x, cy)) + AliveAt(g, x, cy + 1)
  {
    var a, b, c := g.Visit(cx, cy, x, cy - 1), g.Visit(cx, cy, x, cy), g.Visit(cx, cy, x, cy + 1);
    VisitPopulation(g, cx, cy, x, cy - 1);
    VisitPopulation(g, cx, cy, x, cy);
    VisitPopulation(g, cx, cy, x, cy + 1);
    LivePopulationAppend(g, a, b);
    LivePopulationAppend(g, a + b, c);
  }

  /** The live population of a concatenation is the sum of the parts'. */
  lemma LivePopulationAppend(g: Cells, a: seq<Pos>, b: seq<Pos>)
    requires g.Valid()
    requires forall p :: p in a ==> g.InBounds(p.0, p.1)
    requires forall p :: p in b ==> g.InBounds(p.0, p.1)
    ensures forall p :: p in a + b ==> g.InBounds(p.0, p.1)
    ensures |LiveOnly(g.CellsAt(a + b))| == |LiveOnly(g.CellsAt(a))| + |LiveOnly(g.CellsAt(b))|
  {
    assert g.CellsAt(a + b) == g.CellsAt(a) + g.CellsAt(b);
    LiveOnlyAppend(g.CellsAt(a), g.CellsAt(b));
  }

  /** The population `tick` computes is Life's neighbour count: the number
      of live cells among the eight around (x, y). */
  lemma PopulationIsLiveNeighborCount(g: Cells, x: int, y: int)
    requires g.Valid() && g.InBounds(x, y)
    ensures |LiveParents(g, x, y)| == LiveNeighborCount(g, x, y)
  {
    var a, b, c := g.VisitColumn(x, y, x - 1), g.VisitColumn(x, y, x), g.VisitColumn(x, y, x + 1);
    ColumnPopulation(g, x, y, x - 1);
    ColumnPopulation(g, x, y, x);
    ColumnPopulation(g, x, y, x + 1);
    LivePopulationAppend(g, a, b);
    LivePopulationAppend(g, a + b, c);
    assert g.GetNeighbors(x, y).value == g.CellsAt(a + b + c);
  }

  // ---------------------------------------------------------------
  // The life rule

  /** What `tick` writes for one cell, given the cell and its live
      parents: death by under- or overpopulation, birth with an inherited
      team, or the cell unchanged. */
  function Rule(c: Cell, parents: seq<Cell>): Cell
  {
    var population := |parents|;
    if c.alive && (population < 2 || population > 3) then c.(alive := false)
    else if !c.alive && population == 3 then
      ThreeParentsFit(parents);
      InheritFrom(c.(alive := true), parents)
    else c
  }

  /** Three parents never overflow the `u8` counters. */
  lemma ThreeParentsFit(parents: seq<Cell>)
    requires |parents| == 3
    ensures FitsCounters(parents)
  {
    var t := CountTeams(parents);
    assert t.red + t.blue + t.neutral == 3;
  }

  /** The rule in Life's own terms (B3/S23): the cell is alive next exactly
      when it is alive with 2 or 3 live neighbours or dead with exactly 3.
      A birth takes the team `inherit_from` picks; every other cell keeps
      its team, a dying one included, and a survivor is unchanged. */
  lemma RuleIsLife(c: Cell, parents: seq<Cell>)
    ensures Rule(c, parents).alive <==>
              (c.alive && 2 <= |parents| <= 3) || (!c.alive && |parents| == 3)
    ensures !c.alive && |parents| == 3 ==>
              FitsCounters(parents) && Rule(c, parents) == InheritFrom(c.(alive := true), parents)
    ensures !(!c.alive && |parents| == 3) ==> Rule(c, parents).team == c.team
    ensures c.alive && 2 <= |parents| <= 3 ==> Rule(c, parents) == c
  {
    if |parents| == 3 {
      ThreeParentsFit(parents);
    }
  }

  /** The generation after `g`, cell by cell, read from `g` alone. */
  function NextGeneration(g: Cells): Cells
    requires g.Valid()
  {
    Cells(seq(g.Width(), x requires 0 <= x < g.Width() =>
            seq(g.Height(), y requires 0 <= y < g.Height() =>
              Rule(g.At(x, y), LiveParents(g, x, y)))))
  }

  /** The body of the inner loop of `tick` at (x, y): count the live
      neighbours in the old board, then, through `get_mut` on the clone,
      kill the cell, give it birth and a team, or leave it be. Only (x, y)
      of the clone changes, and it becomes the rule's verdict on the old
      cell, `target[y]`, provided the clone still held the old cell there.
      (`target` is the rule's verdict on the whole of column x; it is
      passed whole so that callers never unfold the neighbour scan.) */
  method StepCell(current: Cells, newCells: Cells, x: nat, y: nat, ghost target: seq<Cell>) returns (next: Cells)
    requires current.Valid() && current.InBounds(x, y)
    requires newCells.Valid() && newCells.Width() == current.Width() && newCells.Height() == current.Height()
    requires newCells.At(x, y) == current.At(x, y)
    requires |target| == current.Height()
    requires forall j {:trigger LiveParents(current, x, j)} :: 0 <= j < current.Height() ==>
               target[j] == Rule(current.At(x, j), LiveParents(current, x, j))
    ensures next.Valid() && next.Width() == current.Width() && next.Height() == current.Height()
    ensures next.At(x, y) == target[y]
    ensures forall i, j :: newCells.InBounds(i, j) && (i, j) != (x, y) ==> next.At(i, j) == newCells.At(i, j)
  {
    var neighbors := current.GetNeighbors(x, y).value;
    var parents := LiveOnly(neighbors);
    var population := |parents|;
    var cell := current.Get(x, y).value;
    assert target[y] == Rule(cell, LiveParents(current, x, y));
    if cell.alive && (population < 2 || population > 3) {
      next := newCells.GetMut(x, y, (c: Cell) => c.(alive := false)).value;
    } else if !cell.alive && population == 3 {
      ThreeParentsFit(parents);
      next := newCells.GetMut(x, y, (c: Cell) => InheritFrom(c.(alive := true), parents)).value;
    } else {
      next := newCells;
    }
  }

  /** The inner loop of `tick`, `for y in 0..self.height`, over column x:
      afterwards column x holds `target`, the rule's verdict on each cell
      of the old column, and no other column has changed. */
  method StepColumn(current: Cells, newCells: Cells, x: nat, ghost target: seq<Cell>) returns (next: Cells)
    requires current.Valid() && 0 <= x < current.Width()
    requires newCells.Valid() && newCells.Width() == current.Width() && newCells.Height() == current.Height()
    requires forall j :: 0 <= j < current.Height() ==> newCells.At(x, j) == current.At(x, j)
    requires |target| == current.Height()
    requires forall j {:trigger LiveParents(current, x, j)} :: 0 <= j < current.Height() ==>
               target[j] == Rule(current.At(x, j), LiveParents(current, x, j))
    ensures next.Valid() && next.Width() == current.Width() && next.Height() == current.Height()
    ensures forall j :: 0 <= j < current.Height() ==> next.At(x, j) == target[j]
    ensures forall i, j :: newCells.InBounds(i, j) && i != x ==> next.At(i, j) == newCells.At(i, j)
  {
    next := newCells;
    var y := 0;
    while y < current.Height()
      invariant 0 <= y <= current.Height()
      invariant next.Valid() && next.Width() == current.Width() && next.Height() == current.Height()
      invariant forall j :: 0 <= j < y ==> next.At(x, j) == target[j]
      invariant forall j :: y <= j < current.Height() ==> next.At(x, j) == current.At(x, j)
      invariant forall i, j :: newCells.InBounds(i, j) && i != x ==> next.At(i, j) == newCells.At(i, j)
    {
      var prev := next;
      next := StepCell(current, prev, x, y, target);
      ColumnProgress(current, prev, next, x, y, target);
      y := y + 1;
    }
  }

  /** Writing the next cell of a column to its target keeps the cells
      written before it. */
  lemma ColumnProgress(current: Cells, prev: Cells, next: Cells, x: int, y: int, target: seq<Cell>)
    requires current.Valid() && 0 <= x < current.Width() && 0 <= y < current.Height() && |target| == current.Height()
    requires prev.Valid() && prev.Width() == current.Width() && prev.Height() == current.Height()
    requires next.Valid() && next.Width() == current.Width() && next.Height() == current.Height()
    requires forall j :: 0 <= j < y ==> prev.At(x, j) == target[j]
    requires forall i, j :: prev.InBounds(i, j) && (i, j) != (x, y) ==> next.At(i, j) == prev.At(i, j)
    requires next.At(x, y) == target[y]
    ensures forall j :: 0 <= j < y + 1 ==> next.At(x, j) == target[j]
  {
    forall j | 0 <= j < y + 1
      ensures next.At(x, j) == target[j]
    {
      if j < y {
        assert prev.InBounds(x, j);
      }
    }
  }

  /** `GameOfLife::tick`: every neighbour count and parent list is read from
      the old generation while the writes go to a clone, so the result is
      `NextGeneration` of the old board. No `unwrap` and no neighbour-count
      check can fail on the way. */
  method Tick(game: GameOfLife) returns (next: GameOfLife)
    requires game.Valid()
    ensures next.Valid() && next.width == game.width && next.height == game.height
    ensures forall x, y :: game.cells.InBounds(x, y) ==>
              next.cells.At(x, y) == Rule(game.cells.At(x, y), LiveParents(game.cells, x, y))
    ensures next.cells == NextGeneration(game.cells)
  {
    var current := game.cells;
    ghost var target := NextGeneration(current);
    NextGenerationAt(current);
    var newCells := current;
    var x := 0;
    while x < game.width
      invariant 0 <= x <= game.width
      invariant newCells.Valid() && newCells.Width() == current.Width() && newCells.Height() == current.Height()
      invariant forall i, j :: current.InBounds(i, j) && i < x ==> newCells.At(i, j) == target.At(i, j)
      invariant forall i, j :: current.InBounds(i, j) && i >= x ==> newCells.At(i, j) == current.At(i, j)
    {
      var prev := newCells;
      newCells := StepColumn(current, prev, x, target.columns[x]);
      TickProgress(current, prev, newCells, x, target);
      x := x + 1;
    }
    next := game.(cells := newCells);
    newCells.Extensional(target);
  }

  /** Writing column x to its target keeps the columns written before it
      and leaves those after it as they were. */
  lemma TickProgress(current: Cells, prev: Cells, next: Cells, x: int, target: Cells)
    requires current.Valid() && 0 <= x < current.Width()
    requires target.Valid() && target.Width() == current.Width() && target.Height() == current.Height()
    requires prev.Valid() && prev.Width() == current.Width() && prev.Height() == current.Height()
    requires next.Valid() && next.Width() == current.Width() && next.Height() == current.Height()
    requires forall i, j :: current.InBounds(i, j) && i < x ==> prev.At(i, j) == target.At(i, j)
    requires forall i, j :: current.InBounds(i, j) && i >= x ==> prev.At(i, j) == current.At(i, j)
    requires forall j :: 0 <= j < current.Height() ==> next.At(x, j) == target.columns[x][j]
    requires forall i, j :: prev.InBounds(i, j) && i != x ==> next.At(i, j) == prev.At(i, j)
    ensures forall i, j :: current.InBounds(i, j) && i < x + 1 ==> next.At(i, j) == target.At(i, j)
    ensures forall i, j :: current.InBounds(i, j) && i >= x + 1 ==> next.At(i, j) == current.At(i, j)
  {
    forall i, j | current.InBounds(i, j) && i < x + 1
      ensures next.At(i, j) == target.At(i, j)
    {
      if i < x {
        assert prev.InBounds(i, j);
      }
    }
    forall i, j | current.InBounds(i, j) && i >= x + 1
      ensures next.At(i, j) == current.At(i, j)
    {
      assert prev.InBounds(i, j);
    }
  }

  lemma NextGenerationAt(g: Cells)
    requires g.Valid()
    ensures NextGeneration(g).Valid()
    ensures NextGeneration(g).Width() == g.Width() && NextGeneration(g).Height() == g.Height()
    ensures forall x, y :: g.InBounds(x, y) ==>
              NextGeneration(g).At(x, y) == Rule(g.At(x, y), LiveParents(g, x, y))
  {
  }

  /** The three cases of `tick` for one cell, with the population stated
      as Life's neighbour count: overcrowded or lonely live cells die and
      keep their team; dead cells with exactly three live neighbours are
      born with the team their parents decide; every other cell is copied
      unchanged. */
  lemma NextGenerationCases(g: Cells, x: int, y: int)
    requires g.Valid() && g.InBounds(x, y)
    ensures NextGeneration(g).Valid() && NextGeneration(g).InBounds(x, y)
    ensures var c, n, r := g.At(x, y), LiveNeighborCount(g, x, y), NextGeneration(g).At(x, y);
            && (c.alive && (n < 2 || n > 3) ==> !r.alive && r.team == c.team)
            && (!c.alive && n == 3 ==>
                  FitsCounters(LiveParents(g, x, y)) &&
                  r == InheritFrom(c.(alive := true), LiveParents(g, x, y)))
            && ((c.alive && 2 <= n <= 3) || (!c.alive && n != 3) ==> r == c)
  {
    NextGenerationAt(g);
    PopulationIsLiveNeighborCount(g, x, y);
    RuleIsLife(g.At(x, y), LiveParents(g, x, y));
  }

  /** Some live cell of team `team` is one of the eight on-board neighbours
      of (x, y). */
  ghost predicate HasLiveNeighbor(g: Cells, x: int, y: int, team: Team)
    requires g.Valid()
  {
    exists p: Pos :: g.InBounds(p.0, p.1) && Adjacent(x, y, p) && g.At(p.0, p.1).alive && g.At(p.0, p.1).team == team
  }

  /** A team occurs among the parents `tick` passes to `inherit_from`
      exactly when a live neighbour on the board belongs to it. */
  lemma ParentTeams(g: Cells, x: int, y: int, team: Team)
    requires g.Valid() && g.InBounds(x, y)
    ensures HasTeam(LiveParents(g, x, y), team) <==> HasLiveNeighbor(g, x, y, team)
  {
    var ps := g.NeighborPositions(x, y);
    var cs := g.GetNeighbors(x, y).value;
    assert LiveParents(g, x, y) == LiveOnly(cs);
    LiveTeam(cs, team);
    g.NeighborPositionsExact(x, y);
    TeamAtPositions(g, x, y, ps, cs, team);
  }

  /** Cells read at exactly the on-board neighbours of (x, y) hold a live
      cell of `team` exactly when the board has such a neighbour. */
  lemma TeamAtPositions(g: Cells, x: int, y: int, ps: seq<Pos>, cs: seq<Cell>, team: Team)
    requires g.Valid() && |cs| == |ps|
    requires forall i :: 0 <= i < |ps| ==> g.InBounds(ps[i].0, ps[i].1) && cs[i] == g.At(ps[i].0, ps[i].1)
    requires forall p :: p in ps <==> g.InBounds(p.0, p.1) && Adjacent(x, y, p)
    ensures (exists i :: 0 <= i < |cs| && cs[i].alive && cs[i].team == team) <==> HasLiveNeighbor(g, x, y, team)
  {
    if exists i :: 0 <= i < |cs| && cs[i].alive && cs[i].team == team {
      var i :| 0 <= i < |cs| && cs[i].alive && cs[i].team == team;
      assert ps[i] in ps;
    }
    if HasLiveNeighbor(g, x, y, team) {
      var p: Pos :| g.InBounds(p.0, p.1) && Adjacent(x, y, p) && g.At(p.0, p.1).alive && g.At(p.0, p.1).team == team;
      assert p in ps;
      var j :| 0 <= j < |ps| && ps[j] == p;
      assert cs[j].alive && cs[j].team == team;
    }
  }

  /** The filter keeps a team exactly when some live entry belongs to it. */
  lemma LiveTeam(cs: seq<Cell>, team: Team)
    ensures HasTeam(LiveOnly(cs), team) <==> exists i :: 0 <= i < |cs| && cs[i].alive && cs[i].team == team
  {
    var r := LiveOnly(cs);
    if HasTeam(r, team) {
      var i :| 0 <= i < |r| && r[i].team == team;
      assert r[i] in r;
    }
    if exists i :: 0 <= i < |cs| && cs[i].alive && cs[i].team == team {
      var i :| 0 <= i < |cs| && cs[i].alive && cs[i].team == team;
      assert cs[i] in cs;
      assert cs[i] in r;
    }
  }

  /** A tick-level birth: a dead cell with exactly three live neighbours is
      alive next, Red exactly when some live neighbour is Red and none is
      Blue, Blue symmetrically, and Neutral when Red and Blue neighbours are
      both present or both absent. */
  lemma BirthTeam(g: Cells, x: int, y: int)
    requires g.Valid() && g.InBounds(x, y)
    requires !g.At(x, y).alive && LiveNeighborCount(g, x, y) == 3
    ensures NextGeneration(g).Valid() && NextGeneration(g).InBounds(x, y)
    ensures NextGeneration(g).At(x, y).alive
    ensures NextGeneration(g).At(x, y).team == Red <==>
              HasLiveNeighbor(g, x, y, Red) && !HasLiveNeighbor(g, x, y, Blue)
    ensures NextGeneration(g).At(x, y).team == Blue <==>
              HasLiveNeighbor(g, x, y, Blue) && !HasLiveNeighbor(g, x, y, Red)
    ensures NextGeneration(g).At(x, y).team == Neutral <==>
              (HasLiveNeighbor(g, x, y, Red) == HasLiveNeighbor(g, x, y, Blue))
  {
    NextGenerationCases(g, x, y);
    ParentTeams(g, x, y, Red);
    ParentTeams(g, x, y, Blue);
  }

  /** A live cell without live neighbours dies in the next generation. */
  lemma LonelyCellDies(g: Cells, x: int, y: int)
    requires g.Valid() && g.InBounds(x, y)
    requires g.At(x, y).alive && LiveNeighborCount(g, x, y) == 0
    ensures NextGeneration(g).Valid() && NextGeneration(g).InBounds(x, y)
    ensures !NextGeneration(g).At(x, y).alive
  {
    NextGenerationCases(g, x, y);
  }

  /** The board's live cells are exactly the 2 x 2 block with top-left
      corner (left, top). */
  ghost predicate OnlyBlock(g: Cells, left: int, top: int)
    requires g.Valid()
  {
    && g.InBounds(left, top) && g.InBounds(left + 1, top + 1)
    && forall x, y :: g.InBounds(x, y) ==>
         (g.At(x, y).alive <==> left <= x <= left + 1 && top <= y <= top + 1)
  }

  /** The neighbour count on a board holding only a block: 3 inside the
      block, at most 2 outside it. */
  lemma BlockNeighborCount(g: Cells, left: int, top: int, x: int, y: int)
    requires g.Valid() && OnlyBlock(g, left, top) && g.InBounds(x, y)
    ensures left <= x <= left + 1 && top <= y <= top + 1 ==> LiveNeighborCount(g, x, y) == 3
    ensures !(left <= x <= left + 1 && top <= y <= top + 1) ==> LiveNeighborCount(g, x, y) <= 2
  {
  }

  /** A lone block is a still life: the next generation equals the board,
      every team included. */
  lemma BlockIsStillLife(g: Cells, left: int, top: int)
    requires g.Valid() && OnlyBlock(g, left, top)
    ensures NextGeneration(g) == g
  {
    NextGenerationAt(g);
    forall x, y | g.InBounds(x, y)
      ensures NextGeneration(g).At(x, y) == g.At(x, y)
    {
      BlockNeighborCount(g, left, top, x, y);
      NextGenerationCases(g, x, y);
    }
    g.Extensional(NextGeneration(g));
  }

  /** The board after n generations. */
  function Generations(g: Cells, n: nat): (r: Cells)
    requires g.Valid()
    ensures r.Valid() && r.Width() == g.Width() && r.Height() == g.Height()
    decreases n
  {
    if n == 0 then g
    else
      NextGenerationAt(g);
      Generations(NextGeneration(g), n - 1)
  }

  /** A board the step leaves unchanged stays unchanged for ever. */
  lemma {:induction false} FixedPointLasts(g: Cells, n: nat)
    requires g.Valid() && NextGeneration(g) == g
    ensures Generations(g, n) == g
  {
    if n > 0 {
      FixedPointLasts(g, n - 1);
      assert Generations(g, n) == Generations(NextGeneration(g), n - 1);
    }
  }

  /** A lone block survives any number of ticks unchanged. */
  lemma BlockLastsForever(g: Cells, left: int, top: int, n: nat)
    requires g.Valid() && OnlyBlock(g, left, top)
    ensures Generations(g, n) == g
  {
    BlockIsStillLife(g, left, top);
    FixedPointLasts(g, n);
  }

  // ---------------------------------------------------------------
  // Setup helpers

  /** Every cell of the board is dead. */
  ghost predicate AllDead(g: Cells)
    requires g.Valid()
  {
    forall x, y :: g.InBounds(x, y) ==> !g.At(x, y).alive
  }

  /** `GameOfLife::clear`: every cell is set dead through `get_mut` and its
      team is left as it was. Clearing a board that is already all dead
      changes nothing, so clearing twice is clearing once. */
  method Clear(game: GameOfLife) returns (next: GameOfLife)
    requires game.Valid()
    ensures next.Valid() && next.width == game.width && next.height == game.height
    ensures AllDead(next.cells)
    ensures forall x, y :: game.cells.InBounds(x, y) ==>
              next.cells.At(x, y).team == game.cells.At(x, y).team
    ensures AllDead(game.cells) ==> next == game
  {
    var cells := game.cells;
    var x := 0;
    while x < game.width
      invariant 0 <= x <= game.width
      invariant cells.Valid() && cells.Width() == game.width && cells.Height() == game.height
      invariant forall i, j :: cells.InBounds(i, j) ==> cells.At(i, j).team == game.cells.At(i, j).team
      invariant forall i, j :: cells.InBounds(i, j) && i < x ==> !cells.At(i, j).alive
      invariant forall i, j :: cells.InBounds(i, j) && i >= x ==> cells.At(i, j) == game.cells.At(i, j)
    {
      var y := 0;
      while y < game.height
        invariant 0 <= y <= game.height
        invariant cells.Valid() && cells.Width() == game.width && cells.Height() == game.height
        invariant forall i, j :: cells.InBounds(i, j) ==> cells.At(i, j).team == game.cells.At(i, j).team
        invariant forall i, j :: cells.InBounds(i, j) && (i < x || (i == x && j < y)) ==> !cells.At(i, j).alive
        invariant forall i, j :: cells.InBounds(i, j) && (i > x || (i == x && j >= y)) ==>
                    cells.At(i, j) == game.cells.At(i, j)
      {
        cells := cells.GetMut(x, y, (c: Cell) => c.(alive := false)).value;
        y := y + 1;
      }
      x := x + 1;
    }
    next := game.(cells := cells);
    if AllDead(game.cells) {
      forall i, j | game.cells.InBounds(i, j)
        ensures cells.At(i, j) == game.cells.At(i, j)
      {
        assert !game.cells.At(i, j).alive;
      }
      game.cells.Extensional(cells);
    }
  }

  /** What one `rng.gen::<Cell>()` draws: whether the cell lives (the source
      compares an `f32` sample with 0.4) and whether it joins Red rather
      than Blue. */
  datatype Draw = Draw(lives: bool, red: bool)

  /** `<Cell as Rand>::rand` for a given draw: the team is always Red or
      Blue, never Neutral. */
  function RandomCell(d: Draw): (c: Cell)
    ensures c.alive == d.lives
    ensures c.team != Neutral
    ensures c.team == Red <==> d.red
  {
    Cell(d.lives, if d.red then Red else Blue)
  }

  /** `GameOfLife::randomize` with its random source made a parameter:
      `draws(x, y)` is what the generator yields when the loops reach
      (x, y). Every cell is replaced by its draw, so every cell, and in
      particular every live one, is Red or Blue. */
  method Randomize(game: GameOfLife, draws: (int, int) -> Draw) returns (next: GameOfLife)
    requires game.Valid()
    ensures next.Valid() && next.width == game.width && next.height == game.height
    ensures forall x, y :: next.cells.InBounds(x, y) ==>
              next.cells.At(x, y).alive == draws(x, y).lives &&
              next.cells.At(x, y).team != Neutral
  {
    var cells := game.cells;
    var x := 0;
    while x < game.width
      invariant 0 <= x <= game.width
      invariant cells.Valid() && cells.Width() == game.width && cells.Height() == game.height
      invariant forall i, j :: cells.InBounds(i, j) && i < x ==> cells.At(i, j) == RandomCell(draws(i, j))
    {
      var y := 0;
      while y < game.height
        invariant 0 <= y <= game.height
        invariant cells.Valid() && cells.Width() == game.width && cells.Height() == game.height
        invariant forall i, j :: cells.InBounds(i, j) && (i < x || (i == x && j < y)) ==>
                    cells.At(i, j) == RandomCell(draws(i, j))
      {
        cells := cells.Set(x, y, RandomCell(draws(x, y)));
        y := y + 1;
      }
      x := x + 1;
    }
    next := game.(cells := cells);
  }

  /** The five cells `glider` brings to life, in the order it visits them. */
  const GliderCells: seq<(int, int)> := [(2, 1), (3, 2), (3, 3), (2, 3), (1, 3)]

  /** `GameOfLife::glider`: clears the board, then brings the five glider
      cells to life through `get_mut(..).unwrap()`. The `unwrap` fails,
      and the call panics, exactly when the board is narrower or shorter
      than 4. Otherwise the live cells are exactly the glider's, and every
      team is left as it was. */
  method Glider(game: GameOfLife) returns (r: Outcome<GameOfLife>)
    requires game.Valid()
    ensures r.Ok? <==> game.width >= 4 && game.height >= 4
    ensures r.Panicked? ==> r.why == UnwrapOnNone
    ensures r.Ok? ==> && r.value.Valid()
                      && r.value.width == game.width && r.value.height == game.height
                      && forall x, y :: game.cells.InBounds(x, y) ==>
                           && (r.value.cells.At(x, y).alive <==> (x, y) in GliderCells)
                           && r.value.cells.At(x, y).team == game.cells.At(x, y).team
  {
    var cleared := Clear(game);
    var cells := cleared.cells;
    var k := 0;
    while k < |GliderCells|
      invariant 0 <= k <= |GliderCells|
      invariant GliderSoFar(game.cells, cells, k)
    {
      var (x, y) := GliderCells[k];
      var written := cells.GetMut(x, y, (c: Cell) => c.(alive := true));
      if written.None? {
        assert !(game.width >= 4 && game.height >= 4);
        return Panicked(UnwrapOnNone);
      }
      GliderStep(game.cells, cells, written.value, k);
      cells := written.value;
      k := k + 1;
    }
    assert GliderCells[..k] == GliderCells;
    assert cells.InBounds(GliderCells[1].0, GliderCells[1].1);
    assert cells.InBounds(GliderCells[3].0, GliderCells[3].1);
    r := Ok(game.(cells := cells));
  }

  /** After the first k glider cells: the board has the original's shape,
      those k positions exist and are exactly the live ones, and every team
      is the original's. */
  ghost predicate GliderSoFar(original: Cells, cells: Cells, k: nat)
    requires original.Valid() && k <= |GliderCells|
  {
    && cells.Valid() && cells.Width() == original.Width() && cells.Height() == original.Height()
    && (forall m :: 0 <= m < k ==> cells.InBounds(GliderCells[m].0, GliderCells[m].1))
    && forall i, j :: cells.InBounds(i, j) ==>
         && (cells.At(i, j).alive <==> (i, j) in GliderCells[..k])
         && cells.At(i, j).team == original.At(i, j).team
  }

  /** Bringing the k-th glider cell to life extends the pattern by one. */
  lemma GliderStep(original: Cells, before: Cells, after: Cells, k: nat)
    requires original.Valid() && k < |GliderCells|
    requires GliderSoFar(original, before, k)
    requires before.InBounds(GliderCells[k].0, GliderCells[k].1)
    requires after.Valid() && after.Width() == before.Width() && after.Height() == before.Height()
    requires after.At(GliderCells[k].0, GliderCells[k].1) ==
               before.At(GliderCells[k].0, GliderCells[k].1).(alive := true)
    requires forall i, j :: before.InBounds(i, j) && (i, j) != GliderCells[k] ==>
               after.At(i, j) == before.At(i, j)
    ensures GliderSoFar(original, after, k + 1)
  {
    assert GliderCells[..k + 1] == GliderCells[..k] + [GliderCells[k]];
  }
}
