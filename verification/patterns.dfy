/** Starting populations: named patterns copied into the top-left corner of
    an n-by-n grid, or a random fill. */
module Patterns {
  import opened Grids

  /** The pattern matrix placed at the top-left of an n-by-n grid of zeros,
      truncated where it does not fit. Rows may have different lengths. */
  function Resize(pattern: seq<seq<int>>, n: nat): (r: Grid)
    ensures IsGrid(r, n)
    ensures forall i, j :: InBounds(n, i, j) && i < |pattern| && j < |pattern[i]| ==> r[i][j] == pattern[i][j]
    ensures forall i, j :: InBounds(n, i, j) && !(i < |pattern| && j < |pattern[i]|) ==> r[i][j] == 0
    ensures IsBinary(pattern) ==> IsBinary(r)
  {
    seq(n, i requires 0 <= i < n => seq(n, j requires 0 <= j < n =>
      if i < |pattern| && j < |pattern[i]| then pattern[i][j] else 0))
  }

  /** Models the copy loop of `initialize_population`: an n-by-n grid of
      zeros, then `resized[i][j] = pattern[i][j]` for every `i` below
      `min(n, len(pattern))` and every `j` below `min(n, len(pattern[i]))`. */
  method ResizePattern(pattern: seq<seq<int>>, n: nat) returns (resized: Grid)
    ensures IsGrid(resized, n)
    ensures forall i, j :: 0 <= i < n && 0 <= j < n && i < |pattern| && j < |pattern[i]| ==>
              resized[i][j] == pattern[i][j]
    ensures forall i, j :: 0 <= i < n && 0 <= j < n && !(i < |pattern| && j < |pattern[i]|) ==>
              resized[i][j] == 0
    ensures resized == Resize(pattern, n)
  {
    resized := Zeros(n);
    var rows := if n < |pattern| then n else |pattern|;
    var i := 0;
    while i < rows
      invariant 0 <= i <= rows
      invariant IsGrid(resized, n)
      invariant forall a, b :: InBounds(n, a, b) ==>
                  resized[a][b] == if a < i && b < |pattern[a]| then pattern[a][b] else 0
    {
      var cols := if n < |pattern[i]| then n else |pattern[i]|;
      var j := 0;
      while j < cols
        invariant 0 <= j <= cols
        invariant IsGrid(resized, n)
        invariant forall a, b :: InBounds(n, a, b) ==>
                    resized[a][b] == if (a < i && b < |pattern[a]|) || (a == i && b < j) then pattern[a][b] else 0
      {
        resized := Put(resized, n, i, j, pattern[i][j]);
        j := j + 1;
      }
      i := i + 1;
    }
    var expected := Resize(pattern, n);
    forall a | 0 <= a < n ensures resized[a] == expected[a] {
    }
  }

  /** A pattern that already is an n-by-n grid is left as it is. */
  lemma ResizeKeepsFittingGrid(g: Grid, n: nat)
    requires IsGrid(g, n)
    ensures Resize(g, n) == g
  {
    var r := Resize(g, n);
    forall i | 0 <= i < n ensures r[i] == g[i] {
    }
  }

  /** Resizing is idempotent. */
  lemma ResizeIdempotent(pattern: seq<seq<int>>, n: nat)
    ensures Resize(Resize(pattern, n), n) == Resize(pattern, n)
  {
    ResizeKeepsFittingGrid(Resize(pattern, n), n);
  }

  /** Going through a larger grid first loses nothing: truncating to m and
      then to n <= m is truncating to n. */
  lemma ResizeThroughLarger(pattern: seq<seq<int>>, m: nat, n: nat)
    requires n <= m
    ensures Resize(Resize(pattern, m), n) == Resize(pattern, n)
  {
    var r := Resize(Resize(pattern, m), n);
    var s := Resize(pattern, n);
    forall i | 0 <= i < n ensures r[i] == s[i] {
    }
  }

  /** The small patterns of the catalogue. */
  const Glider: seq<seq<int>> := [[0, 0, 0], [0, 1, 0], [0, 0, 1], [1, 1, 1]]
  const Blinker: seq<seq<int>> := [[0, 0, 0], [1, 1, 1]]
  const Toad: seq<seq<int>> := [[0, 0, 0, 0], [0, 1, 1, 1], [1, 1, 1, 0]]
  const Beacon: seq<seq<int>> := [[0, 0, 0, 0], [1, 1, 0, 0], [1, 1, 0, 0], [0, 0, 1, 1], [0, 0, 1, 1]]

  /** The pattern catalogue without its two large entries. */
  function Catalogue(): (table: map<string, seq<seq<int>>>)
    ensures forall name :: name in table ==> IsBinary(table[name])
  {
    map["Glider" := Glider, "Blinker" := Blinker, "Toad" := Toad, "Beacon" := Beacon]
  }

  /** Models `initialize_population(n, pattern)`: "Random" fills each cell
      with the caller's coin (the random choice between 0 and 1); a name of
      the table is resized into the grid; any other name gives an empty grid. */
  function InitializePopulation(n: nat, name: string, table: map<string, seq<seq<int>>>,
                                coin: (nat, nat) -> bool): (g: Grid)
    ensures IsGrid(g, n)
    ensures name == "Random" ==> IsBinary(g)
    ensures name == "Random" ==> forall i, j :: InBounds(n, i, j) ==> (g[i][j] == 1 <==> coin(i, j))
    ensures name != "Random" && name in table ==> g == Resize(table[name], n)
    ensures name != "Random" && name !in table ==> IsEmpty(g)
    ensures name != "Random" && name in table && IsBinary(table[name]) ==> IsBinary(g)
  {
    if name == "Random" then
      seq(n, i requires 0 <= i < n => seq(n, j requires 0 <= j < n => if coin(i, j) then 1 else 0))
    else if name in table then
      Resize(table[name], n)
    else
      Zeros(n)
  }
}
