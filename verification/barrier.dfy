/** The barrier strategy: persistent workers, one per cell, meet the
    coordinator at a barrier once per cycle. Modelled twice: with the
    population handoff completed before the workers count again, and as the
    source schedules it, where a released worker may count the previous
    population. */
module Barrier {
  import opened Grids
  import opened Neighbours
  import opened Generation
  import opened Schedulers

  /** Every cycle of `cycles` is a covering interleaving of the n-by-n grid. */
  predicate EveryCycleCovers(cycles: seq<seq<Pos>>, n: int)
  {
    forall k :: 0 <= k < |cycles| ==> Covers(cycles[k], n)
  }

  /** One barrier cycle in which every worker counts the installed
      population `q`: the workers write their cells' counts into the buffer
      `v` in the interleaving `order`, the barrier is passed, and the
      coordinator applies the rule. This holds of the first cycle of the
      source and of every cycle once the handoff precedes the recount; later
      cycles as the source schedules them are `StaleBarrierTick`. Returns the
      next population and the buffer the workers leave behind. */
  method BarrierCycle(q: Grid, n: nat, v: Grid, order: seq<Pos>) returns (r: Grid, counts: Grid)
    requires IsGrid(q, n) && IsGrid(v, n) && Covers(order, n)
    ensures counts == CountGrid(q, n)
    ensures r == Step(q, n)
  {
    counts := Fill(q, n, v, order);
    AnyOrderFillsCounts(q, n, v, order);
    r := NextGeneration(q, counts);
  }

  /** The barrier strategy with the population handoff completed before the
      workers count again: cycle `k` lets every persistent worker write its
      cell in the interleaving `cycles[k]`, after which the coordinator applies
      the rule and installs the result before releasing the workers again.
      The count buffer carries over from cycle to cycle. Returns the
      population after all cycles. */
  method BarrierRun(p: Grid, n: nat, voisins: Grid, cycles: seq<seq<Pos>>) returns (q: Grid)
    requires IsGrid(p, n) && IsGrid(voisins, n)
    requires EveryCycleCovers(cycles, n)
    ensures q == Generations(p, n, |cycles|)
  {
    q := p;
    var v := voisins;
    var k := 0;
    while k < |cycles|
      invariant 0 <= k <= |cycles|
      invariant IsGrid(q, n) && IsGrid(v, n)
      invariant q == Generations(p, n, k)
    {
      q, v := BarrierCycle(q, n, v, cycles[k]);
      k := k + 1;
    }
  }

  /** The count buffer as the barrier strategy can leave it when the workers
      restart counting as soon as the barrier releases them: the workers on
      the cells of `stale` run before the coordinator installs `cur` and count
      the previous population `prev`; the others count `cur`. */
  function StaleCounts(prev: Grid, cur: Grid, n: nat, stale: set<Pos>): (v: Grid)
    requires IsGrid(prev, n) && IsGrid(cur, n)
    ensures IsGrid(v, n)
    ensures forall x, y :: InBounds(n, x, y) && Pos(x, y) !in stale ==> v[x][y] == Count(cur, n, x, y)
    ensures forall x, y :: InBounds(n, x, y) && Pos(x, y) in stale ==> v[x][y] == Count(prev, n, x, y)
  {
    seq(n, x requires 0 <= x < n => seq(n, y requires 0 <= y < n =>
      if Pos(x, y) in stale then Count(prev, n, x, y) else Count(cur, n, x, y)))
  }

  /** One barrier cycle as the source schedules it: the rule is applied to the
      installed population `cur` and to counts some of which may have been
      taken from `prev`. Without stale workers it is one generation. */
  function StaleBarrierTick(prev: Grid, cur: Grid, n: nat, stale: set<Pos>): (r: Grid)
    requires IsGrid(prev, n) && IsGrid(cur, n)
    ensures IsGrid(r, n)
    ensures stale == {} ==> r == Step(cur, n)
    ensures prev == cur ==> r == Step(cur, n)
  {
    var v := StaleCounts(prev, cur, n, stale);
    assert stale == {} || prev == cur ==> v == CountGrid(cur, n) by {
      if stale == {} || prev == cur {
        var c := CountGrid(cur, n);
        assert forall x | 0 <= x < n :: v[x] == c[x];
      }
    }
    NextGeneration(cur, v)
  }
}
