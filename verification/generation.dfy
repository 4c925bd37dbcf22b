/** The rule engine: one generation of Conway's Game of Life, built from the
    current population and a fully written neighbour-count buffer. */
module Generation {
  import opened Grids
  import opened Neighbours

  /** The next state of one cell. The source tests `population == 1` and
      `population == 0` literally, so a cell holding any other value dies. */
  function Rule(state: int, count: int): (r: int)
    ensures r == 0 || r == 1
    ensures (state == 0 || state == 1) ==> (r == 1 <==> count == 3 || (state == 1 && count == 2))
    ensures state != 0 && state != 1 ==> r == 0
  {
    if (state == 1 && (count == 2 || count == 3)) || (state == 0 && count == 3) then 1 else 0
  }

  /** The comprehension that builds the next population: one entry per cell
      of `p`, each read from `p` and from the count buffer `v`. */
  function NextGeneration(p: Grid, v: Grid): (r: Grid)
    requires |v| >= |p|
    requires forall x :: 0 <= x < |p| ==> |v[x]| >= |p[x]|
    ensures |r| == |p| && forall x :: 0 <= x < |p| ==> |r[x]| == |p[x]|
    ensures IsBinary(r)
    ensures forall x, y :: 0 <= x < |p| && 0 <= y < |p[x]| ==> r[x][y] == Rule(p[x][y], v[x][y])
  {
    seq(|p|, x requires 0 <= x < |p| =>
      seq(|p[x]|, y requires 0 <= y < |p[x]| => Rule(p[x][y], v[x][y])))
  }

  /** The count buffer as it stands once every cell's count has been written. */
  function CountGrid(p: Grid, n: nat): (v: Grid)
    requires IsGrid(p, n)
    ensures IsGrid(v, n)
    ensures forall x, y :: InBounds(n, x, y) ==> v[x][y] == Count(p, n, x, y)
  {
    seq(n, x requires 0 <= x < n => seq(n, y requires 0 <= y < n => Count(p, n, x, y)))
  }

  /** One generation: counts for every cell, then the rule. */
  function Step(p: Grid, n: nat): (r: Grid)
    requires IsGrid(p, n)
    ensures IsGrid(r, n) && IsBinary(r)
  {
    NextGeneration(p, CountGrid(p, n))
  }

  /** Conway's rule on the population itself: a cell is alive in the next
      generation exactly when it has three live neighbours, or it is alive and
      has two. */
  lemma StepIsConway(p: Grid, n: nat, x: int, y: int)
    requires IsGrid(p, n) && IsBinary(p) && InBounds(n, x, y)
    ensures Step(p, n)[x][y] == 1 <==>
              |LiveNeighbours(p, n, x, y)| == 3 || (p[x][y] == 1 && |LiveNeighbours(p, n, x, y)| == 2)
    ensures |LiveNeighbours(p, n, x, y)| == 3 ==> Step(p, n)[x][y] == 1
  {
    CountIsLiveNeighbours(p, n, x, y);
  }

  /** A cell of the next generation from the eight neighbour terms. */
  lemma StepCell(p: Grid, n: nat, x: int, y: int)
    requires IsGrid(p, n) && InBounds(n, x, y)
    ensures Step(p, n)[x][y] == Rule(p[x][y], MooreSum(p, n, x, y))
  {
    CountIsMooreSum(p, n, x, y);
  }

  /** A grid whose every cell is the rule applied to the eight neighbour
      terms of `p` is the next generation of `p`. */
  lemma StepFromNeighbourTerms(p: Grid, n: nat, q: Grid)
    requires IsGrid(p, n) && IsGrid(q, n)
    requires forall x, y :: InBounds(n, x, y) ==> q[x][y] == Rule(p[x][y], MooreSum(p, n, x, y))
    ensures Step(p, n) == q
  {
    var r := Step(p, n);
    forall x | 0 <= x < n ensures r[x] == q[x] {
      forall y | 0 <= y < n ensures r[x][y] == q[x][y] {
        StepCell(p, n, x, y);
      }
    }
  }

  /** The next state of a cell depends only on the cell and its eight
      neighbours. */
  lemma StepIsLocal(p: Grid, q: Grid, n: nat, x: int, y: int)
    requires IsGrid(p, n) && IsGrid(q, n) && InBounds(n, x, y)
    requires p[x][y] == q[x][y]
    requires forall a, b :: InBounds(n, a, b) && IsNeighbour(x, y, a, b) ==> p[a][b] == q[a][b]
    ensures Step(p, n)[x][y] == Step(q, n)[x][y]
  {
    CountSeesOnlyNeighbours(p, q, n, x, y);
  }

  /** `k` generations of `p`. */
  function Generations(p: Grid, n: nat, k: nat): (r: Grid)
    requires IsGrid(p, n)
    ensures IsGrid(r, n)
    ensures k > 0 ==> IsBinary(r)
  {
    if k == 0 then p else Step(Generations(p, n, k - 1), n)
  }

  /** The empty population has no live neighbours anywhere and stays empty. */
  lemma EmptyStepsToEmpty(n: nat)
    ensures Step(Zeros(n), n) == Zeros(n)
  {
    var z := Zeros(n);
    forall x, y | InBounds(n, x, y) ensures z[x][y] == Rule(z[x][y], MooreSum(z, n, x, y)) {
    }
    StepFromNeighbourTerms(z, n, z);
  }

  /** The empty population is a fixed point. */
  lemma {:induction false} EmptyStaysEmpty(n: nat, k: nat)
    ensures Generations(Zeros(n), n, k) == Zeros(n)
  {
    if k > 0 {
      EmptyStaysEmpty(n, k - 1);
      EmptyStepsToEmpty(n);
    }
  }
}
