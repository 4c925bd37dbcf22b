/** The sequential and the burst-parallel strategies, reduced to their
    sequential meaning: the neighbour-count buffer is filled by one
    `update_neighbors` write per cell, in whatever order the workers happen to
    finish, and the rule engine then builds the next population from the
    finished buffer. */
module Schedulers {
  import opened Grids
  import opened Neighbours
  import opened Generation

  /** Every position in `order` is a cell of the n-by-n grid. */
  predicate WithinGrid(order: seq<Pos>, n: int)
  {
    forall k :: 0 <= k < |order| ==> InBounds(n, order[k].x, order[k].y)
  }

  /** `order` writes every cell of the n-by-n grid at least once and nothing
      outside it: the per-cell tasks of one tick, in completion order. */
  predicate Covers(order: seq<Pos>, n: int)
  {
    WithinGrid(order, n) && forall x, y :: 0 <= x < n && 0 <= y < n ==> Pos(x, y) in order
  }

  /** The buffer after the per-cell writes in `order` have been applied to `v`
      one after the other, each one `update_neighbors` on its own cell. */
  function Fill(p: Grid, n: nat, v: Grid, order: seq<Pos>): (r: Grid)
    requires IsGrid(p, n) && IsGrid(v, n) && WithinGrid(order, n)
    ensures IsGrid(r, n)
    ensures forall x, y :: InBounds(n, x, y) ==>
              r[x][y] == if Pos(x, y) in order then Count(p, n, x, y) else v[x][y]
    decreases |order|
  {
    if order == [] then v
    else
      var c := order[|order| - 1];
      assert forall d :: d in order <==> d in order[..|order| - 1] || d == c;
      Put(Fill(p, n, v, order[..|order| - 1]), n, c.x, c.y, Count(p, n, c.x, c.y))
  }

  /** Order independence: once every cell has been written, the buffer holds
      the full count grid, whatever the order of the writes and whatever the
      buffer held before. */
  lemma AnyOrderFillsCounts(p: Grid, n: nat, v: Grid, order: seq<Pos>)
    requires IsGrid(p, n) && IsGrid(v, n) && Covers(order, n)
    ensures Fill(p, n, v, order) == CountGrid(p, n)
  {
    var r := Fill(p, n, v, order);
    var c := CountGrid(p, n);
    forall x | 0 <= x < n ensures r[x] == c[x] {
      forall y | 0 <= y < n ensures r[x][y] == c[x][y] {
        assert Pos(x, y) in order;
      }
    }
  }

  /** One tick of the burst-parallel strategy: one thread per cell, all
      joined, then the rule. The threads may finish in any order. */
  function FanOutTick(p: Grid, n: nat, v: Grid, order: seq<Pos>): (r: Grid)
    requires IsGrid(p, n) && IsGrid(v, n) && Covers(order, n)
    ensures r == Step(p, n)
  {
    AnyOrderFillsCounts(p, n, v, order);
    NextGeneration(p, Fill(p, n, v, order))
  }

  /** One tick of the sequential strategy: the double loop calling
      `update_neighbors(i, j)` for every cell, then the rule. */
  method SequentialTick(p: Grid, n: nat, voisins: Grid) returns (next: Grid, counts: Grid)
    requires IsGrid(p, n) && IsGrid(voisins, n)
    ensures counts == CountGrid(p, n)
    ensures next == Step(p, n)
  {
    counts := voisins;
    var i := 0;
    while i < n
      invariant 0 <= i <= n
      invariant IsGrid(counts, n)
      invariant forall a, b :: InBounds(n, a, b) ==>
                  counts[a][b] == if a < i then Count(p, n, a, b) else voisins[a][b]
    {
      var j := 0;
      while j < n
        invariant 0 <= j <= n
        invariant IsGrid(counts, n)
        invariant forall a, b :: InBounds(n, a, b) ==>
                    counts[a][b] == if a < i || (a == i && b < j) then Count(p, n, a, b) else voisins[a][b]
      {
        counts := UpdateNeighbors(p, n, counts, i, j);
        j := j + 1;
      }
      i := i + 1;
    }
    var full := CountGrid(p, n);
    forall a | 0 <= a < n ensures counts[a] == full[a] {
    }
    next := NextGeneration(p, counts);
  }

  /** The sequential simulation run for `k` ticks; each tick is re-scheduled
      by the timer after the previous one has finished. */
  method SequentialRun(p: Grid, n: nat, k: nat) returns (q: Grid)
    requires IsGrid(p, n)
    ensures q == Generations(p, n, k)
  {
    q := p;
    var voisins := Zeros(n);
    var t := 0;
    while t < k
      invariant 0 <= t <= k
      invariant IsGrid(voisins, n)
      invariant q == Generations(p, n, t)
    {
      q, voisins := SequentialTick(q, n, voisins);
      t := t + 1;
    }
  }
}
