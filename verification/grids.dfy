/** Square integer matrices: the population (0 = dead, 1 = alive) and the
    neighbour-count buffer of the simulation, both indexed `g[x][y]`. */
module Grids {

  /** A cell position: row `x`, column `y`. */
  datatype Pos = Pos(x: int, y: int)

  type Grid = seq<seq<int>>

  /** `g` is an n-by-n matrix. */
  predicate IsGrid(g: Grid, n: int)
  {
    |g| == n && forall i :: 0 <= i < n ==> |g[i]| == n
  }

  predicate InBounds(n: int, x: int, y: int)
  {
    0 <= x < n && 0 <= y < n
  }

  /** Every entry is 0 (dead) or 1 (alive). */
  predicate IsBinary(g: Grid)
  {
    forall i, j :: 0 <= i < |g| && 0 <= j < |g[i]| ==> g[i][j] == 0 || g[i][j] == 1
  }

  /** Every entry is 0. */
  predicate IsEmpty(g: Grid)
  {
    forall i, j :: 0 <= i < |g| && 0 <= j < |g[i]| ==> g[i][j] == 0
  }

  /** The n-by-n zero matrix, `[[0] * n for _ in range(n)]`. */
  function Zeros(n: nat): (z: Grid)
    ensures IsGrid(z, n) && IsEmpty(z)
  {
    seq(n, _ => seq(n, _ => 0))
  }

  /** The entry at (a, b), or 0 when (a, b) lies outside the grid: the grid
      is clipped at its edges, never wrapped around. */
  function At(g: Grid, n: int, a: int, b: int): int
    requires IsGrid(g, n)
  {
    if InBounds(n, a, b) then g[a][b] else 0
  }

  /** `g` with the single entry (x, y) replaced by `v`. */
  function Put(g: Grid, n: int, x: int, y: int, v: int): (r: Grid)
    requires IsGrid(g, n) && InBounds(n, x, y)
    ensures IsGrid(r, n)
    ensures r[x][y] == v
    ensures forall a, b :: InBounds(n, a, b) && (a != x || b != y) ==> r[a][b] == g[a][b]
  {
    g[x := g[x][y := v]]
  }
}
