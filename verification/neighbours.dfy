/** The neighbour counter of `update_neighbors`: the number of live cells in
    the 3x3 Moore neighbourhood of a cell, clipped at the grid's edges. */
module Neighbours {
  import opened Grids

  /** Sum of row `x + i` of the 3x3 window around (x, y) over the columns
      `y - 1 .. y + j - 1`; `j` runs from -1 (nothing summed) to 2 (whole row),
      like the inner loop variable of the source. */
  function RowSum(p: Grid, n: int, x: int, y: int, i: int, j: int): (s: int)
    requires IsGrid(p, n)
    requires -1 <= j <= 2
    ensures IsBinary(p) ==> 0 <= s <= j + 1
    decreases j + 1
  {
    if j == -1 then 0 else RowSum(p, n, x, y, i, j - 1) + At(p, n, x + i, y + j - 1)
  }

  /** Sum of the rows `x - 1 .. x + i - 1` of the window; `i` runs from -1 to 2,
      like the outer loop variable of the source. */
  function WindowSum(p: Grid, n: int, x: int, y: int, i: int): (s: int)
    requires IsGrid(p, n)
    requires -1 <= i <= 2
    ensures IsBinary(p) ==> 0 <= s <= 3 * (i + 1)
    decreases i + 1
  {
    if i == -1 then 0 else WindowSum(p, n, x, y, i - 1) + RowSum(p, n, x, y, i - 1, 2)
  }

  /** The neighbour count of (x, y): the clipped window sum minus the centre. */
  function Count(p: Grid, n: int, x: int, y: int): (c: int)
    requires IsGrid(p, n) && InBounds(n, x, y)
    ensures IsBinary(p) ==> 0 <= c <= 8
  {
    assert RowSum(p, n, x, y, 0, 2) == At(p, n, x, y - 1) + p[x][y] + At(p, n, x, y + 1);
    WindowSum(p, n, x, y, 2) - p[x][y]
  }

  /** The same count written as the eight neighbour terms. */
  function MooreSum(p: Grid, n: int, x: int, y: int): int
    requires IsGrid(p, n)
  {
    At(p, n, x - 1, y - 1) + At(p, n, x - 1, y) + At(p, n, x - 1, y + 1)
    + At(p, n, x, y - 1) + At(p, n, x, y + 1)
    + At(p, n, x + 1, y - 1) + At(p, n, x + 1, y) + At(p, n, x + 1, y + 1)
  }

  /** (a, b) is one of the eight cells around (x, y) in the plane (no wrap-around). */
  predicate IsNeighbour(x: int, y: int, a: int, b: int)
  {
    -1 <= a - x <= 1 && -1 <= b - y <= 1 && (a != x || b != y)
  }

  /** The live cells of the grid that are neighbours of (x, y). */
  function LiveNeighbours(p: Grid, n: int, x: int, y: int): set<Pos>
    requires IsGrid(p, n)
  {
    set a, b | x - 1 <= a <= x + 1 && y - 1 <= b <= y + 1 && IsNeighbour(x, y, a, b)
                && InBounds(n, a, b) && p[a][b] == 1 :: Pos(a, b)
  }

  /** The live cells in row `x + i` of the window, columns `y - 1 .. y + j - 1`. */
  function LiveInRow(p: Grid, n: int, x: int, y: int, i: int, j: int): (s: set<Pos>)
    requires IsGrid(p, n)
    requires -1 <= j <= 2
    ensures forall c :: c in s <==> c.x == x + i && y - 1 <= c.y < y + j && At(p, n, c.x, c.y) == 1
    ensures IsBinary(p) ==> |s| == RowSum(p, n, x, y, i, j)
    decreases j + 1
  {
    if j == -1 then {}
    else
      var s := LiveInRow(p, n, x, y, i, j - 1);
      if At(p, n, x + i, y + j - 1) == 1 then s + {Pos(x + i, y + j - 1)} else s
  }

  /** The live cells in rows `x - 1 .. x + i - 1` of the window. */
  function LiveInWindow(p: Grid, n: int, x: int, y: int, i: int): (s: set<Pos>)
    requires IsGrid(p, n)
    requires -1 <= i <= 2
    ensures forall c :: c in s <==> x - 1 <= c.x < x + i && y - 1 <= c.y <= y + 1 && At(p, n, c.x, c.y) == 1
    ensures IsBinary(p) ==> |s| == WindowSum(p, n, x, y, i)
    decreases i + 1
  {
    if i == -1 then {}
    else
      var s := LiveInWindow(p, n, x, y, i - 1);
      var row := LiveInRow(p, n, x, y, i - 1, 2);
      assert s !! row;
      s + row
  }

  /** The live neighbours are the live cells of the window other than the centre. */
  lemma LiveNeighboursAreWindowWithoutCentre(p: Grid, n: int, x: int, y: int)
    requires IsGrid(p, n) && InBounds(n, x, y)
    ensures LiveNeighbours(p, n, x, y) == LiveInWindow(p, n, x, y, 2) - {Pos(x, y)}
  {
  }

  /** The centre belongs to the live cells of its window exactly when it is alive. */
  lemma CentreInWindow(p: Grid, n: int, x: int, y: int)
    requires IsGrid(p, n) && InBounds(n, x, y)
    ensures Pos(x, y) in LiveInWindow(p, n, x, y, 2) <==> p[x][y] == 1
  {
  }

  /** Removing an element shrinks a set by one exactly when it was there. */
  lemma RemoveOne<T>(s: set<T>, e: T)
    ensures |s - {e}| == if e in s then |s| - 1 else |s|
  {
  }

  /** On a 0/1 grid the count is the number of live neighbours. */
  lemma CountIsLiveNeighbours(p: Grid, n: int, x: int, y: int)
    requires IsGrid(p, n) && InBounds(n, x, y) && IsBinary(p)
    ensures Count(p, n, x, y) == |LiveNeighbours(p, n, x, y)|
  {
    var w := LiveInWindow(p, n, x, y, 2);
    LiveNeighboursAreWindowWithoutCentre(p, n, x, y);
    CentreInWindow(p, n, x, y);
    RemoveOne(w, Pos(x, y));
  }

  /** The count is the sum of the eight clipped neighbour terms. */
  lemma CountIsMooreSum(p: Grid, n: int, x: int, y: int)
    requires IsGrid(p, n) && InBounds(n, x, y)
    ensures Count(p, n, x, y) == MooreSum(p, n, x, y)
  {
  }

  /** The count agrees with both of its independent definitions. */
  lemma CountPartners(p: Grid, n: int, x: int, y: int)
    requires IsGrid(p, n) && InBounds(n, x, y)
    ensures Count(p, n, x, y) == MooreSum(p, n, x, y)
    ensures IsBinary(p) ==> Count(p, n, x, y) == |LiveNeighbours(p, n, x, y)|
  {
    CountIsMooreSum(p, n, x, y);
    if IsBinary(p) {
      CountIsLiveNeighbours(p, n, x, y);
    }
  }

  /** Only the eight neighbours matter: two grids that agree on the neighbours
      of (x, y) give (x, y) the same count, whatever the centre and the rest of
      the grid hold. */
  lemma CountSeesOnlyNeighbours(p: Grid, q: Grid, n: int, x: int, y: int)
    requires IsGrid(p, n) && IsGrid(q, n) && InBounds(n, x, y)
    requires forall a, b :: InBounds(n, a, b) && IsNeighbour(x, y, a, b) ==> p[a][b] == q[a][b]
    ensures Count(p, n, x, y) == Count(q, n, x, y)
  {
    CountIsMooreSum(p, n, x, y);
    CountIsMooreSum(q, n, x, y);
    assert IsNeighbour(x, y, x - 1, y - 1) && IsNeighbour(x, y, x - 1, y) && IsNeighbour(x, y, x - 1, y + 1);
    assert IsNeighbour(x, y, x, y - 1) && IsNeighbour(x, y, x, y + 1);
    assert IsNeighbour(x, y, x + 1, y - 1) && IsNeighbour(x, y, x + 1, y) && IsNeighbour(x, y, x + 1, y + 1);
  }

  /** Every neighbour does contribute: reviving one dead neighbour of (x, y)
      raises its count by exactly one. */
  lemma CountSeesEachNeighbour(p: Grid, n: int, x: int, y: int, a: int, b: int)
    requires IsGrid(p, n) && InBounds(n, x, y) && InBounds(n, a, b)
    requires IsNeighbour(x, y, a, b) && p[a][b] == 0
    ensures Count(Put(p, n, a, b, 1), n, x, y) == Count(p, n, x, y) + 1
  {
    var q := Put(p, n, a, b, 1);
    CountIsMooreSum(p, n, x, y);
    CountIsMooreSum(q, n, x, y);
    forall c, d ensures At(q, n, c, d) == At(p, n, c, d) + (if c == a && d == b then 1 else 0) {
    }
  }

  /** No wrap-around: whatever the corner (0, 0) holds, it adds nothing to the
      count of a cell on the last row or the last column once n >= 3. */
  lemma CornerDoesNotWrap(p: Grid, n: int, x: int, y: int, v: int)
    requires IsGrid(p, n) && n >= 3 && InBounds(n, x, y)
    requires x == n - 1 || y == n - 1
    ensures Count(Put(p, n, 0, 0, v), n, x, y) == Count(p, n, x, y)
  {
    CountSeesOnlyNeighbours(p, Put(p, n, 0, 0, v), n, x, y);
  }

  /** Models `update_neighbors(x, y)`: the two nested loops over the offsets
      -1..1 accumulating the in-bounds cells, the subtraction of the centre,
      and the write of the result into `voisins[x][y]`. The worker loop of the
      barrier strategy repeats exactly these statements. */
  method UpdateNeighbors(p: Grid, n: int, voisins: Grid, x: int, y: int) returns (r: Grid)
    requires IsGrid(p, n) && IsGrid(voisins, n) && InBounds(n, x, y)
    ensures IsGrid(r, n)
    ensures r[x][y] == MooreSum(p, n, x, y)
    ensures IsBinary(p) ==> r[x][y] == |LiveNeighbours(p, n, x, y)|
    ensures forall a, b :: InBounds(n, a, b) && (a != x || b != y) ==> r[a][b] == voisins[a][b]
    ensures r == Put(voisins, n, x, y, Count(p, n, x, y))
  {
    var count := 0;
    var i := -1;
    while i < 2
      invariant -1 <= i <= 2
      invariant count == WindowSum(p, n, x, y, i)
    {
      var j := -1;
      while j < 2
        invariant -1 <= j <= 2
        invariant count == WindowSum(p, n, x, y, i) + RowSum(p, n, x, y, i, j)
      {
        if 0 <= x + i < n && 0 <= y + j < n {
          count := count + p[x + i][y + j];
        }
        j := j + 1;
      }
      i := i + 1;
    }
    count := count - p[x][y];
    assert count == Count(p, n, x, y);
    CountPartners(p, n, x, y);
    r := Put(voisins, n, x, y, count);
  }
}
