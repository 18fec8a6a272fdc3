/** The glider that `GameOfLife::glider` seeds (src/conway/mod.rs) moves:
    four ticks carry it one cell right and one cell down, on every board of
    at least 5 x 5. The five phases are first stated on the unbounded plane
    and checked against Life's rule there; a tick of the board follows the
    plane because every phase lies well inside the board. */
module GliderMotion {
  import opened Grid
  import opened Life

  /** The live cells of the glider k ticks after it is seeded, on the
      unbounded plane. Phase 4 is phase 0 moved by (1, 1). */
  predicate InPhase(k: nat, x: int, y: int)
  {
    if k == 0 then Seed(x, y)
    else if k == 1 then
      (x == 1 && y == 2) || (x == 2 && y == 3) || (x == 2 && y == 4) || (x == 3 && y == 2) || (x == 3 && y == 3)
    else if k == 2 then
      (x == 1 && y == 3) || (x == 2 && y == 4) || (x == 3 && y == 2) || (x == 3 && y == 3) || (x == 3 && y == 4)
    else if k == 3 then
      (x == 2 && y == 2) || (x == 2 && y == 4) || (x == 3 && y == 3) || (x == 3 && y == 4) || (x == 4 && y == 3)
    else if k == 4 then
      Seed(x - 1, y - 1)
    else false
  }

  /** The five cells `glider` brings to life. */
  predicate Seed(x: int, y: int)
  {
    (x == 2 && y == 1) || (x == 3 && y == 2) || (x == 3 && y == 3) || (x == 2 && y == 3) || (x == 1 && y == 3)
  }

  /** `Seed` lists exactly the cells of `GliderCells`. */
  lemma SeedIsGlider()
    ensures forall x, y :: Seed(x, y) <==> (x, y) in GliderCells
  {
  }

  /** Every phase lies in the square 1..4 x 1..4. */
  lemma PhaseInSquare(k: nat, x: int, y: int)
    ensures InPhase(k, x, y) ==> 1 <= x <= 4 && 1 <= y <= 4
  {
  }

  /** 1 if (x, y) is alive in phase k, else 0. */
  function Listed(k: nat, x: int, y: int): nat
  {
    if InPhase(k, x, y) then 1 else 0
  }

  /** Live neighbours of (x, y) on the plane in phase k. */
  function PlaneNeighbors(k: nat, x: int, y: int): nat
  {
    Listed(k, x - 1, y - 1) + Listed(k, x - 1, y) + Listed(k, x - 1, y + 1) +
    Listed(k, x, y - 1)                           + Listed(k, x, y + 1) +
    Listed(k, x + 1, y - 1) + Listed(k, x + 1, y) + Listed(k, x + 1, y + 1)
  }

  /** B3/S23 on the plane: (x, y) is alive in the generation after phase k. */
  predicate PlaneRule(k: nat, x: int, y: int)
  {
    var n := PlaneNeighbors(k, x, y);
    (InPhase(k, x, y) && 2 <= n <= 3) || (!InPhase(k, x, y) && n == 3)
  }

  /** Life's rule takes phase k to phase k + 1 at every position (x, y) of
      the plane; the fourth step ends at the seed moved by (1, 1). */
  lemma PlaneStep(k: nat, x: int, y: int)
    requires k < 4
    ensures InPhase(k + 1, x, y) <==> PlaneRule(k, x, y)
  {
  }

  /** The live cells of `g` are exactly those of phase k. */
  ghost predicate LiveAsPhase(g: Cells, k: nat)
    requires g.Valid()
  {
    forall x, y :: g.InBounds(x, y) ==> (g.At(x, y).alive <==> InPhase(k, x, y))
  }

  /** On a board of at least 5 x 5 whose live cells are phase k, one tick
      leaves exactly the cells of phase k + 1 alive. */
  lemma TickFollowsPlane(g: Cells, k: nat)
    requires g.Valid() && g.Width() >= 5 && g.Height() >= 5 && k < 4
    requires LiveAsPhase(g, k)
    ensures NextGeneration(g).Valid()
    ensures NextGeneration(g).Width() == g.Width() && NextGeneration(g).Height() == g.Height()
    ensures LiveAsPhase(NextGeneration(g), k + 1)
  {
    NextGenerationAt(g);
    forall x, y | g.InBounds(x, y)
      ensures NextGeneration(g).At(x, y).alive <==> InPhase(k + 1, x, y)
    {
      CellFollowsPlane(g, k, x, y);
    }
  }

  /** One cell of that tick: it lives next exactly when the plane rule
      says so. */
  lemma CellFollowsPlane(g: Cells, k: nat, x: int, y: int)
    requires g.Valid() && g.Width() >= 5 && g.Height() >= 5 && k < 4
    requires LiveAsPhase(g, k) && g.InBounds(x, y)
    ensures NextGeneration(g).Valid() && NextGeneration(g).InBounds(x, y)
    ensures NextGeneration(g).At(x, y).alive <==> InPhase(k + 1, x, y)
  {
    NextGenerationCases(g, x, y);
    CountIsPlane(g, k, x, y);
    PlaneStep(k, x, y);
  }

  /** The board's neighbour count is the plane's: every phase lies on a
      board of at least 5 x 5, so off-board positions are dead in both. */
  lemma CountIsPlane(g: Cells, k: nat, x: int, y: int)
    requires g.Valid() && g.Width() >= 5 && g.Height() >= 5
    requires LiveAsPhase(g, k)
    ensures LiveNeighborCount(g, x, y) == PlaneNeighbors(k, x, y)
  {
    AliveIsListed(g, k, x - 1, y - 1);
    AliveIsListed(g, k, x - 1, y);
    AliveIsListed(g, k, x - 1, y + 1);
    AliveIsListed(g, k, x, y - 1);
    AliveIsListed(g, k, x, y + 1);
    AliveIsListed(g, k, x + 1, y - 1);
    AliveIsListed(g, k, x + 1, y);
    AliveIsListed(g, k, x + 1, y + 1);
  }

  /** One position of that count: alive on the board exactly when listed
      in the phase, off-board positions being outside every phase. */
  lemma AliveIsListed(g: Cells, k: nat, a: int, b: int)
    requires g.Valid() && g.Width() >= 5 && g.Height() >= 5
    requires LiveAsPhase(g, k)
    ensures AliveAt(g, a, b) == Listed(k, a, b)
  {
    PhaseInSquare(k, a, b);
  }

  /** Four generations from phase 0 reach phase 4. */
  lemma FourTicks(g: Cells)
    requires g.Valid() && g.Width() >= 5 && g.Height() >= 5
    requires LiveAsPhase(g, 0)
    ensures Generations(g, 4).Valid() && LiveAsPhase(Generations(g, 4), 4)
  {
    var g1 := NextGeneration(g);
    TickFollowsPlane(g, 0);
    var g2 := NextGeneration(g1);
    TickFollowsPlane(g1, 1);
    var g3 := NextGeneration(g2);
    TickFollowsPlane(g2, 2);
    var g4 := NextGeneration(g3);
    TickFollowsPlane(g3, 3);
    assert Generations(g, 4) == g4 by {
      assert Generations(g, 4) == Generations(g1, 3);
      assert Generations(g1, 3) == Generations(g2, 2);
      assert Generations(g2, 2) == Generations(g3, 1);
      assert Generations(g3, 1) == Generations(g4, 0);
    }
  }

  /** Four ticks move a lone glider, as `glider` seeds it on a board of at
      least 5 x 5, one cell right and one cell down; nothing else is
      alive. */
  lemma GliderTranslates(g: Cells)
    requires g.Valid() && g.Width() >= 5 && g.Height() >= 5
    requires forall x, y :: g.InBounds(x, y) ==> (g.At(x, y).alive <==> (x, y) in GliderCells)
    ensures forall x, y :: g.InBounds(x, y) ==>
              (Generations(g, 4).At(x, y).alive <==> (x - 1, y - 1) in GliderCells)
  {
    SeedIsGlider();
    FourTicks(g);
  }

  /** `glider` followed by four calls of `tick`, on a board of at least
      5 x 5: no `unwrap` fails, and the live cells are the glider's moved
      one cell right and one cell down. */
  method GliderFlight(game: GameOfLife) returns (next: GameOfLife)
    requires game.Valid() && game.width >= 5 && game.height >= 5
    ensures next.Valid() && next.width == game.width && next.height == game.height
    ensures forall x, y :: game.cells.InBounds(x, y) ==>
              (next.cells.At(x, y).alive <==> (x - 1, y - 1) in GliderCells)
  {
    var seeded := Glider(game);
    var g0 := seeded.value;
    var g1 := Tick(g0);
    var g2 := Tick(g1);
    var g3 := Tick(g2);
    next := Tick(g3);
    GliderTranslates(g0.cells);
    assert next.cells == Generations(g0.cells, 4) by {
      assert Generations(g0.cells, 4) == Generations(g1.cells, 3);
      assert Generations(g1.cells, 3) == Generations(g2.cells, 2);
      assert Generations(g2.cells, 2) == Generations(g3.cells, 1);
      assert Generations(g3.cells, 1) == Generations(next.cells, 0);
    }
  }
}
