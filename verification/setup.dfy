/** Simulation start-up: the grid dimension read from the user's entry, the
    starting population and the empty neighbour-count buffer. */
module Setup {
  import opened Grids
  import opened Patterns

  predicate IsDigit(c: char)
  {
    '0' <= c <= '9'
  }

  /** The value of one digit. */
  function DigitOf(c: char): (d: nat)
    requires IsDigit(c)
    ensures d <= 9
  {
    c as int - '0' as int
  }

  /** A non-empty string of ASCII digits: what `str.isdigit` accepts here. */
  predicate IsDigitString(s: string)
  {
    |s| > 0 && forall k :: 0 <= k < |s| ==> IsDigit(s[k])
  }

  /** 10 to the power `k`. */
  function Pow10(k: nat): (p: nat)
    ensures p >= 1
  {
    if k == 0 then 1 else 10 * Pow10(k - 1)
  }

  /** The decimal value of a string of digits, as `int(s)` reads it (leading
      zeros allowed): below 10^|s|, and the value of the last digit alone for
      a one-character string. */
  function DigitsValue(s: string): (v: nat)
    requires forall k :: 0 <= k < |s| ==> IsDigit(s[k])
    ensures v < Pow10(|s|)
    ensures |s| == 1 ==> v == DigitOf(s[0])
    decreases |s|
  {
    if s == [] then 0 else 10 * DigitsValue(s[..|s| - 1]) + DigitOf(s[|s| - 1])
  }

  /** The decimal spelling of `k`, without leading zeros. */
  function Decimal(k: nat): (s: string)
    ensures |s| > 0
    ensures forall i :: 0 <= i < |s| ==> IsDigit(s[i])
    decreases k
  {
    var d := ['0' + (k % 10) as char];
    if k < 10 then d else Decimal(k / 10) + d
  }

  /** Reading back a decimal spelling gives the number spelled. */
  lemma {:induction false} DecimalRoundTrip(k: nat)
    ensures IsDigitString(Decimal(k))
    ensures DigitsValue(Decimal(k)) == k
  {
    var s := Decimal(k);
    if k >= 10 {
      DecimalRoundTrip(k / 10);
      assert s[..|s| - 1] == Decimal(k / 10);
    }
  }

  /** The two large patterns for which the grid is widened to at least 50. */
  predicate NeedsRoom(pattern: string)
  {
    pattern == "Glider Gun" || pattern == "Loafer Synth"
  }

  /** Models the choice of `n` in `init_simulation`: a digit string is clamped
      to [25, 100], anything else becomes 25, and the two large patterns
      raise it to at least 50. */
  function Dimension(entry: string, pattern: string): (n: nat)
    ensures 25 <= n <= 100
    ensures NeedsRoom(pattern) ==> n >= 50
    ensures !IsDigitString(entry) ==> n == if NeedsRoom(pattern) then 50 else 25
    ensures IsDigitString(entry) && 25 <= DigitsValue(entry) <= 100 && !NeedsRoom(pattern) ==>
              n == DigitsValue(entry)
    ensures IsDigitString(entry) && 50 <= DigitsValue(entry) <= 100 ==> n == DigitsValue(entry)
  {
    var clamped :=
      if IsDigitString(entry) then
        var v := DigitsValue(entry);
        if v > 100 then 100 else if v < 25 then 25 else v
      else 25;
    if NeedsRoom(pattern) && clamped < 50 then 50 else clamped
  }

  /** A larger entered number never gives a smaller grid. */
  lemma DimensionMonotone(a: string, b: string, pattern: string)
    requires IsDigitString(a) && IsDigitString(b)
    requires DigitsValue(a) <= DigitsValue(b)
    ensures Dimension(a, pattern) <= Dimension(b, pattern)
  {
  }

  /** Typing any dimension the menu allows is honoured exactly (for the large
      patterns, any from 50 up). */
  lemma DimensionHonoursEntry(k: nat, pattern: string)
    requires 25 <= k <= 100
    requires NeedsRoom(pattern) ==> k >= 50
    ensures Dimension(Decimal(k), pattern) == k
  {
    DecimalRoundTrip(k);
  }

  /** The state `init_simulation` leaves behind. */
  datatype Simulation = Simulation(n: nat, population: Grid, voisins: Grid)

  /** Models `init_simulation` without its widgets: the dimension, the
      starting population of the chosen pattern and the zeroed count buffer. */
  function InitSimulation(entry: string, pattern: string, table: map<string, seq<seq<int>>>,
                          coin: (nat, nat) -> bool): (s: Simulation)
    ensures s.n == Dimension(entry, pattern)
    ensures 25 <= s.n <= 100
    ensures NeedsRoom(pattern) ==> s.n >= 50
    ensures IsGrid(s.population, s.n) && IsGrid(s.voisins, s.n) && IsEmpty(s.voisins)
    ensures pattern != "Random" && pattern !in table ==> IsEmpty(s.population)
    ensures pattern == "Random" ==> IsBinary(s.population)
    ensures pattern == "Random" ==>
              forall i, j :: InBounds(s.n, i, j) ==> (s.population[i][j] == 1 <==> coin(i, j))
    ensures pattern != "Random" && pattern in table ==>
              forall i, j :: InBounds(s.n, i, j) ==>
                s.population[i][j] == if i < |table[pattern]| && j < |table[pattern][i]| then table[pattern][i][j] else 0
  {
    var n := Dimension(entry, pattern);
    Simulation(n, InitializePopulation(n, pattern, table, coin), Zeros(n))
  }
}
