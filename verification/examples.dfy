/** Patterns of the catalogue evolving on grids of every admissible size: the
    blinker oscillates with period two and the glider moves one cell down and
    one cell right every four generations. Also the interleaving that makes
    the barrier strategy, as scheduled in the source, leave the rule. */
module Examples {
  import opened Grids
  import opened Neighbours
  import opened Generation
  import opened Schedulers
  import opened Patterns
  import opened Barrier

  /** A horizontal bar of three cells on row 1, columns 0 to 2. */
  function BarAcross(n: nat): (g: Grid)
    ensures IsGrid(g, n)
  {
    seq(n, x => seq(n, y => if x == 1 && y <= 2 then 1 else 0))
  }

  /** A vertical bar of three cells on column 1, rows 0 to 2. */
  function BarUpright(n: nat): (g: Grid)
    ensures IsGrid(g, n)
  {
    seq(n, x => seq(n, y => if x <= 2 && y == 1 then 1 else 0))
  }

  /** The catalogue's blinker, resized into any grid, is the horizontal bar. */
  lemma BlinkerIsBarAcross(n: nat)
    requires n >= 3
    ensures Resize(Blinker, n) == BarAcross(n)
  {
    var r, h := Resize(Blinker, n), BarAcross(n);
    forall x | 0 <= x < n ensures r[x] == h[x] {
    }
  }

  lemma BarTurnsUpright(n: nat)
    requires n >= 3
    ensures Step(BarAcross(n), n) == BarUpright(n)
  {
    var h, v := BarAcross(n), BarUpright(n);
    forall x, y | InBounds(n, x, y) ensures v[x][y] == Rule(h[x][y], MooreSum(h, n, x, y)) {
    }
    StepFromNeighbourTerms(h, n, v);
  }

  lemma BarTurnsAcross(n: nat)
    requires n >= 3
    ensures Step(BarUpright(n), n) == BarAcross(n)
  {
    var h, v := BarAcross(n), BarUpright(n);
    forall x, y | InBounds(n, x, y) ensures h[x][y] == Rule(v[x][y], MooreSum(v, n, x, y)) {
    }
    StepFromNeighbourTerms(v, n, h);
  }

  /** The blinker has period two on every grid it fits in: it differs from
      itself after one generation and is back after two. */
  lemma BlinkerHasPeriodTwo(n: nat)
    requires n >= 3
    ensures Generations(Resize(Blinker, n), n, 1) != Resize(Blinker, n)
    ensures Generations(Resize(Blinker, n), n, 2) == Resize(Blinker, n)
  {
    BlinkerIsBarAcross(n);
    BarTurnsUpright(n);
    BarTurnsAcross(n);
    assert BarUpright(n)[0][1] != BarAcross(n)[0][1];
  }

  /** The start-up path: choosing "Blinker" from the catalogue places the
      horizontal bar, whatever the coin, and that population oscillates. */
  lemma StartedBlinkerHasPeriodTwo(n: nat, coin: (nat, nat) -> bool)
    requires n >= 3
    ensures InitializePopulation(n, "Blinker", Catalogue(), coin) == BarAcross(n)
    ensures Generations(InitializePopulation(n, "Blinker", Catalogue(), coin), n, 2) == BarAcross(n)
  {
    assert "Blinker" in Catalogue() && Catalogue()["Blinker"] == Blinker;
    BlinkerIsBarAcross(n);
    BlinkerHasPeriodTwo(n);
  }

  /** The four phases of a glider whose bounding box starts at (dx, dy). */
  function GliderPhase0(n: nat, dx: int, dy: int): (g: Grid)
    ensures IsGrid(g, n)
  {
    seq(n, x => seq(n, y =>
      var a, b := x - dx, y - dy;
      if (a == 1 && b == 1) || (a == 2 && b == 2) || (a == 3 && 0 <= b <= 2) then 1 else 0))
  }

  function GliderPhase1(n: nat, dx: int, dy: int): (g: Grid)
    ensures IsGrid(g, n)
  {
    seq(n, x => seq(n, y =>
      var a, b := x - dx, y - dy;
      if (a == 2 && (b == 0 || b == 2)) || (a == 3 && 1 <= b <= 2) || (a == 4 && b == 1) then 1 else 0))
  }

  function GliderPhase2(n: nat, dx: int, dy: int): (g: Grid)
    ensures IsGrid(g, n)
  {
    seq(n, x => seq(n, y =>
      var a, b := x - dx, y - dy;
      if (a == 2 && b == 2) || (a == 3 && (b == 0 || b == 2)) || (a == 4 && 1 <= b <= 2) then 1 else 0))
  }

  function GliderPhase3(n: nat, dx: int, dy: int): (g: Grid)
    ensures IsGrid(g, n)
  {
    seq(n, x => seq(n, y =>
      var a, b := x - dx, y - dy;
      if (a == 2 && b == 1) || (a == 3 && 2 <= b <= 3) || (a == 4 && 1 <= b <= 2) then 1 else 0))
  }

  /** The catalogue's glider, resized into a grid of at least 4 rows, is
      phase 0 at offset (0, 0). */
  lemma GliderIsPhase0(n: nat)
    requires n >= 4
    ensures Resize(Glider, n) == GliderPhase0(n, 0, 0)
  {
    var r, g := Resize(Glider, n), GliderPhase0(n, 0, 0);
    forall x | 0 <= x < n ensures r[x] == g[x] {
    }
  }

  lemma GliderStep0(n: nat, dx: nat, dy: nat)
    requires n >= 5 + dx && n >= 4 + dy
    ensures Step(GliderPhase0(n, dx, dy), n) == GliderPhase1(n, dx, dy)
  {
    var p, q := GliderPhase0(n, dx, dy), GliderPhase1(n, dx, dy);
    forall x, y | InBounds(n, x, y) ensures q[x][y] == Rule(p[x][y], MooreSum(p, n, x, y)) {
    }
    StepFromNeighbourTerms(p, n, q);
  }

  lemma GliderStep1(n: nat, dx: nat, dy: nat)
    requires n >= 5 + dx && n >= 4 + dy
    ensures Step(GliderPhase1(n, dx, dy), n) == GliderPhase2(n, dx, dy)
  {
    var p, q := GliderPhase1(n, dx, dy), GliderPhase2(n, dx, dy);
    forall x, y | InBounds(n, x, y) ensures q[x][y] == Rule(p[x][y], MooreSum(p, n, x, y)) {
    }
    StepFromNeighbourTerms(p, n, q);
  }

  lemma GliderStep2(n: nat, dx: nat, dy: nat)
    requires n >= 5 + dx && n >= 4 + dy
    ensures Step(GliderPhase2(n, dx, dy), n) == GliderPhase3(n, dx, dy)
  {
    var p, q := GliderPhase2(n, dx, dy), GliderPhase3(n, dx, dy);
    forall x, y | InBounds(n, x, y) ensures q[x][y] == Rule(p[x][y], MooreSum(p, n, x, y)) {
    }
    StepFromNeighbourTerms(p, n, q);
  }

  lemma GliderStep3(n: nat, dx: nat, dy: nat)
    requires n >= 5 + dx && n >= 4 + dy
    ensures Step(GliderPhase3(n, dx, dy), n) == GliderPhase0(n, dx + 1, dy + 1)
  {
    var p, q := GliderPhase3(n, dx, dy), GliderPhase0(n, dx + 1, dy + 1);
    forall x, y | InBounds(n, x, y) ensures q[x][y] == Rule(p[x][y], MooreSum(p, n, x, y)) {
    }
    StepFromNeighbourTerms(p, n, q);
  }

  /** A glider with a free row below it and a free column to its right is,
      four generations later, the same glider one cell down and one cell right. */
  lemma GliderMovesDiagonally(n: nat, dx: nat, dy: nat)
    requires n >= 5 + dx && n >= 4 + dy
    ensures Generations(GliderPhase0(n, dx, dy), n, 4) == GliderPhase0(n, dx + 1, dy + 1)
  {
    var g := GliderPhase0(n, dx, dy);
    GliderStep0(n, dx, dy);
    assert Generations(g, n, 1) == GliderPhase1(n, dx, dy);
    GliderStep1(n, dx, dy);
    assert Generations(g, n, 2) == GliderPhase2(n, dx, dy);
    GliderStep2(n, dx, dy);
    assert Generations(g, n, 3) == GliderPhase3(n, dx, dy);
    GliderStep3(n, dx, dy);
  }

  /** The catalogue's glider, on any grid of at least 5 rows, has moved by
      (1, 1) after four generations. */
  lemma CatalogueGliderMoves(n: nat)
    requires n >= 5
    ensures Generations(Resize(Glider, n), n, 4) == GliderPhase0(n, 1, 1)
  {
    GliderIsPhase0(n);
    GliderMovesDiagonally(n, 0, 0);
  }

  /** A single worker that counts before the handoff is enough to go wrong:
      after the first cycle turns the blinker upright, the worker on (1, 0)
      still counts the horizontal bar, sees one live neighbour instead of
      three, and the cell that should be born stays dead. */
  lemma StaleWorkerBreaksBarrierTick(n: nat)
    requires n >= 3
    ensures StaleBarrierTick(BarAcross(n), BarUpright(n), n, {Pos(1, 0)}) != Step(BarUpright(n), n)
  {
    var h, v := BarAcross(n), BarUpright(n);
    BarTurnsAcross(n);
    assert Step(v, n)[1][0] == 1;
    CountIsMooreSum(h, n, 1, 0);
    assert MooreSum(h, n, 1, 0) == 1;
    assert StaleCounts(h, v, n, {Pos(1, 0)})[1][0] == 1;
    assert StaleBarrierTick(h, v, n, {Pos(1, 0)})[1][0] == 0;
  }
}
