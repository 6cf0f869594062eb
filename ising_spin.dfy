/**
 * The spin-lattice (Ising) kernel: an n-by-n toroidal grid of +1/-1 spins,
 * initialised and updated with one LCG draw per cell, in the fixed traversal
 * order "outer loop over the column x, inner loop over the row y", with cell
 * (x, y) stored at linear index y*n+x.
 */
module IsingSpin {
  import opened Rng
  import Float32
  import opened TrialStatistics
  import opened Arith

  /** The persisted input of one simulation. */
  datatype IsingSpinInput = IsingSpinInput(
    n: u32,
    seed: u32,
    maxTime: u32,
    repeats: u32,
    probs: seq<u32>)

  /** A cell starts at +1 when its draw is below this value. */
  const InitThreshold: int := 0x8000_1000

  /** Entries of the flip-probability table. */
  const TableSize: nat := 10

  predicate IsSpin(c: int)
  {
    c == 1 || c == -1
  }

  predicate AllSpins(g: seq<int>)
  {
    forall i :: 0 <= i < |g| ==> IsSpin(g[i])
  }

  // ---------------------------------------------------------------------------
  // Grid layout and traversal order

  /** Linear index of the cell in column `x`, row `y`. */
  function Cell(n: nat, x: nat, y: nat): nat
  {
    y * n + x
  }

  /**
   * Position of cell `i` in the traversal (outer loop over x, inner loop over
   * y): the number of draws a sweep makes before it reaches the cell.
   */
  function DrawOrder(n: nat, i: nat): nat
    requires i < n * n
  {
    (i % n) * n + i / n
  }

  /** Cell (x, y) lies in the grid, has column x and row y, and is visited x*n+y-th. */
  lemma CellLayout(n: nat, x: nat, y: nat)
    requires x < n && y < n
    ensures Cell(n, x, y) < n * n
    ensures Cell(n, x, y) % n == x && Cell(n, x, y) / n == y
    ensures DrawOrder(n, Cell(n, x, y)) == x * n + y
  {
    DigitBound(n, y, x);
    DivModUnique(Cell(n, x, y), n, y, x);
  }

  /** Every cell index splits into a column and a row inside the grid. */
  lemma CellOf(n: nat, i: nat)
    requires i < n * n
    ensures n > 0 && i % n < n && i / n < n
    ensures Cell(n, i % n, i / n) == i
    ensures DrawOrder(n, i) < n * n
  {
    assert n > 0;
    var x, y := i % n, i / n;
    assert i == y * n + x;
    if y >= n {
      MulMonotone(n, y, n);
    }
    DigitBound(n, x, y);
  }

  /** Only cell (x, y) is visited x*n+y-th. */
  lemma DrawOrderUnique(n: nat, x: nat, y: nat)
    requires x < n && y < n
    ensures forall i :: 0 <= i < n * n && DrawOrder(n, i) == x * n + y ==> i == Cell(n, x, y)
  {
    forall i | 0 <= i < n * n && DrawOrder(n, i) == x * n + y
      ensures i == Cell(n, x, y)
    {
      DrawOrderAt(n, i, x, y);
    }
  }

  lemma DrawOrderAt(n: nat, i: nat, x: nat, y: nat)
    requires x < n && y < n && i < n * n && DrawOrder(n, i) == x * n + y
    ensures i == Cell(n, x, y)
  {
    CellOf(n, i);
    DigitsUnique(n, i % n, i / n, x, y);
  }

  // ---------------------------------------------------------------------------
  // Toroidal neighbourhood and the flip-probability table

  /** Index read for the west neighbour (ising_spin.hpp `W`). */
  function West(n: nat, x: nat, y: nat): nat
    requires x < n
  {
    if x == 0 then y * n + n - 1 else y * n + x - 1
  }

  /** Index read for the east neighbour (`E`). */
  function East(n: nat, x: nat, y: nat): nat
    requires x < n
  {
    if x == n - 1 then y * n + 0 else y * n + x + 1
  }

  /** Index read for the north neighbour (`N`). */
  function North(n: nat, x: nat, y: nat): nat
    requires y < n
  {
    if y == 0 then (n - 1) * n + x else (y - 1) * n + x
  }

  /** Index read for the south neighbour (`S`). */
  function South(n: nat, x: nat, y: nat): nat
    requires y < n
  {
    if y == n - 1 then 0 * n + x else (y + 1) * n + x
  }

  /** `(a + n - 1) % n` and `(a + 1) % n` are the predecessor and successor of `a` modulo n. */
  lemma WrapAround(n: nat, a: nat)
    requires a < n
    ensures (a + n - 1) % n == (if a == 0 then n - 1 else a - 1)
    ensures (a + 1) % n == (if a == n - 1 then 0 else a + 1)
  {
    if a == 0 { DivModUnique(a + n - 1, n, 0, n - 1); } else { DivModUnique(a + n - 1, n, 1, a - 1); }
    if a == n - 1 { DivModUnique(a + 1, n, 1, 0); } else { DivModUnique(a + 1, n, 0, a + 1); }
  }

  /**
   * The four neighbour reads are the cells one column or one row away with
   * wrap-around modulo n, so every read lies inside the grid.
   */
  lemma NeighboursToroidal(n: nat, x: nat, y: nat)
    requires x < n && y < n
    ensures West(n, x, y) == Cell(n, (x + n - 1) % n, y)
    ensures East(n, x, y) == Cell(n, (x + 1) % n, y)
    ensures North(n, x, y) == Cell(n, x, (y + n - 1) % n)
    ensures South(n, x, y) == Cell(n, x, (y + 1) % n)
    ensures West(n, x, y) < n * n && East(n, x, y) < n * n
    ensures North(n, x, y) < n * n && South(n, x, y) < n * n
  {
    WrapAround(n, x);
    WrapAround(n, y);
    CellLayout(n, (x + n - 1) % n, y);
    CellLayout(n, (x + 1) % n, y);
    CellLayout(n, x, (y + n - 1) % n);
    CellLayout(n, x, (y + 1) % n);
  }

  /** C++ `/` on `int`, which truncates toward zero. */
  function TruncDiv(a: int, b: int): int
    requires b > 0
  {
    if a >= 0 then a / b else -((-a) / b)
  }

  /** Truncating division leaves a remainder with the sign of `a`, smaller than `b` in magnitude. */
  lemma TruncDivTowardZero(a: int, b: int)
    requires b > 0
    ensures a >= 0 ==> 0 <= a - TruncDiv(a, b) * b < b
    ensures a < 0 ==> -b < a - TruncDiv(a, b) * b <= 0
  {
  }

  /** `(nhood+4)/2 + 5*(C+1)/2`, the row of the probability table. */
  function TableIndex(nhood: int, c: int): int
  {
    TruncDiv(nhood + 4, 2) + TruncDiv(5 * (c + 1), 2)
  }

  /**
   * With +1/-1 spins the neighbour sum is one of -4, -2, 0, 2, 4 and the table
   * index lies in [0, 10): the first five entries serve a -1 centre, the last
   * five a +1 centre.
   */
  lemma TableIndexInRange(w: int, e: int, no: int, so: int, c: int)
    requires IsSpin(w) && IsSpin(e) && IsSpin(no) && IsSpin(so) && IsSpin(c)
    ensures w + e + no + so in {-4, -2, 0, 2, 4}
    ensures 0 <= TableIndex(w + e + no + so, c) < TableSize
    ensures TableIndex(w + e + no + so, c) == (w + e + no + so + 4) / 2 + (if c == 1 then 5 else 0)
  {
  }

  /**
   * The table index of neighbour sum `2*i-4` and centre spin `2*j-1` is `i+5*j`,
   * the layout in which the input generator fills the table.
   */
  lemma TableIndexLayout(i: nat, j: nat)
    requires i < 5 && j < 2
    ensures TableIndex(2 * i - 4, 2 * j - 1) == i + 5 * j
  {
  }

  /**
   * The flip test `seed < prob`: the probability was stored into a `float`,
   * and the draw is converted to `float` for the comparison.
   */
  predicate Flips(draw: u32, prob: u32): (f: bool)
    ensures prob < Float32.Significand ==> (f <==> draw < prob)
  {
    Float32.RoundToFloat(draw) < Float32.RoundToFloat(prob)
  }

  /** A cell only flips when its draw is below the table entry. */
  lemma FlipsOnlyBelow(draw: u32, prob: u32)
    ensures Flips(draw, prob) ==> draw < prob
  {
    if prob <= draw {
      Float32.RoundMonotone(prob, draw);
    }
  }

  /** Rounding makes a draw below the table entry fail to flip: 2^24 against 2^24+1. */
  lemma FlipsRoundingExample()
    ensures 0x100_0000 < 0x100_0001 && !Flips(0x100_0000, 0x100_0001)
  {
    assert Float32.RoundToFloat(0x100_0000) == 0x100_0000;
    assert Float32.RoundToFloat(0x100_0001) == 0x100_0000;
  }

  // ---------------------------------------------------------------------------
  // Specification of one sweep

  /** Initial spin for a draw: +1 below the threshold, -1 otherwise. */
  function InitSpin(draw: u32): (c: int)
    ensures IsSpin(c)
  {
    if draw < InitThreshold then 1 else -1
  }

  /** The grid `init` produces from the n*n draws it makes: cell i gets the draw of its traversal position. */
  function InitGrid(n: nat, draws: seq<u32>): (g: seq<int>)
    requires |draws| == n * n
    ensures |g| == n * n && AllSpins(g)
  {
    seq(n * n, i requires 0 <= i < n * n =>
      CellOf(n, i);
      InitSpin(draws[DrawOrder(n, i)]))
  }

  /** Cell (x, y) of the initial grid is +1 exactly when draw number x*n+y is below the threshold. */
  lemma InitGridCell(n: nat, draws: seq<u32>, x: nat, y: nat)
    requires x < n && y < n && |draws| == n * n
    ensures Cell(n, x, y) < n * n && x * n + y < n * n
    ensures InitGrid(n, draws)[Cell(n, x, y)] == 1 <==> draws[x * n + y] < InitThreshold
  {
    CellLayout(n, x, y);
    CellOf(n, Cell(n, x, y));
  }

  /** The updated spin of cell (x, y) of `g`, given the draw that the sweep makes at it. */
  function NewSpin(n: nat, probs: seq<u32>, g: seq<int>, x: nat, y: nat, draw: u32): (c: int)
    requires x < n && y < n && |g| == n * n && |probs| == TableSize && AllSpins(g)
    ensures Cell(n, x, y) < n * n
    ensures c == g[Cell(n, x, y)] || c == -g[Cell(n, x, y)]
  {
    NeighboursToroidal(n, x, y);
    CellLayout(n, x, y);
    var nhood := g[West(n, x, y)] + g[East(n, x, y)] + g[North(n, x, y)] + g[South(n, x, y)];
    var c := g[Cell(n, x, y)];
    TableIndexInRange(g[West(n, x, y)], g[East(n, x, y)], g[North(n, x, y)], g[South(n, x, y)], c);
    if Flips(draw, probs[TableIndex(nhood, c)]) then -c else c
  }

  /**
   * One synchronous sweep over the n*n draws it makes: every cell is updated
   * from `g` alone, the i-th visited cell with the i-th draw.
   */
  function StepGrid(n: nat, probs: seq<u32>, g: seq<int>, draws: seq<u32>): (r: seq<int>)
    requires |g| == n * n && |probs| == TableSize && AllSpins(g) && |draws| == n * n
    ensures |r| == n * n
  {
    seq(n * n, i requires 0 <= i < n * n =>
      CellOf(n, i);
      NewSpin(n, probs, g, i % n, i / n, draws[DrawOrder(n, i)]))
  }

  /** Cell (x, y) after a sweep is the update of (x, y) with draw number x*n+y. */
  lemma StepGridCell(n: nat, probs: seq<u32>, g: seq<int>, draws: seq<u32>, x: nat, y: nat)
    requires x < n && y < n && |g| == n * n && |probs| == TableSize && AllSpins(g) && |draws| == n * n
    ensures Cell(n, x, y) < n * n && x * n + y < n * n
    ensures StepGrid(n, probs, g, draws)[Cell(n, x, y)] == NewSpin(n, probs, g, x, y, draws[x * n + y])
  {
    CellLayout(n, x, y);
    var i := Cell(n, x, y);
    CellOf(n, i);
    var r := StepGrid(n, probs, g, draws);
    assert i % n == x && i / n == y && DrawOrder(n, i) == x * n + y;
    assert r[i] == NewSpin(n, probs, g, i % n, i / n, draws[DrawOrder(n, i)]);
  }

  /** A sweep writes every cell as its old spin or that spin negated. */
  lemma StepKeepsOrNegates(n: nat, probs: seq<u32>, g: seq<int>, draws: seq<u32>, i: nat)
    requires i < n * n && |g| == n * n && |probs| == TableSize && AllSpins(g) && |draws| == n * n
    ensures StepGrid(n, probs, g, draws)[i] in {g[i], -g[i]}
  {
    CellOf(n, i);
    var x, y := i % n, i / n;
    assert Cell(n, x, y) == i;
    StepGridCell(n, probs, g, draws, x, y);
  }

  /** A sweep of a grid of spins yields a grid of spins. */
  lemma StepGridSpins(n: nat, probs: seq<u32>, g: seq<int>, draws: seq<u32>)
    requires |g| == n * n && |probs| == TableSize && AllSpins(g) && |draws| == n * n
    ensures AllSpins(StepGrid(n, probs, g, draws))
  {
    forall i | 0 <= i < n * n
      ensures IsSpin(StepGrid(n, probs, g, draws)[i])
    {
      StepKeepsOrNegates(n, probs, g, draws, i);
    }
  }

  /** The sum of the spins, accumulated from the front as `std::accumulate` does. */
  function Count(g: seq<int>): (s: int)
    ensures AllSpins(g) ==> -|g| <= s <= |g|
  {
    if g == [] then 0 else Count(g[..|g| - 1]) + g[|g| - 1]
  }

  /** The spin sum is the number of +1 cells minus the number of -1 cells. */
  lemma {:induction false} CountIsBalance(g: seq<int>)
    requires AllSpins(g)
    ensures Count(g) == multiset(g)[1] as int - multiset(g)[-1] as int
  {
    if g != [] {
      var h := g[..|g| - 1];
      CountIsBalance(h);
      assert g == h + [g[|g| - 1]];
    }
  }

  // ---------------------------------------------------------------------------
  // Trials and the accumulated statistics

  /** The grid after `t` further sweeps of `g`, the first of which starts at cursor `seed`. */
  function Evolve(n: nat, probs: seq<u32>, g: seq<int>, seed: u32, t: nat): (r: seq<int>)
    requires |g| == n * n && |probs| == TableSize && AllSpins(g)
    ensures |r| == n * n && AllSpins(r)
    decreases t
  {
    if t == 0 then g
    else
      var draws := Draws(seed, n * n);
      StepGridSpins(n, probs, g, draws);
      Evolve(n, probs, StepGrid(n, probs, g, draws), LcgPow(seed, n * n), t - 1)
  }

  /** The first of t+1 sweeps uses the first block of n*n draws; the other t continue from there. */
  lemma EvolveFirst(n: nat, probs: seq<u32>, g: seq<int>, seed: u32, t: nat)
    requires |g| == n * n && |probs| == TableSize && AllSpins(g)
    ensures StepGrid.requires(n, probs, g, Draws(seed, n * n))
    ensures AllSpins(StepGrid(n, probs, g, Draws(seed, n * n)))
    ensures Evolve(n, probs, g, seed, t + 1)
            == Evolve(n, probs, StepGrid(n, probs, g, Draws(seed, n * n)), LcgPow(seed, n * n), t)
  {
    StepGridSpins(n, probs, g, Draws(seed, n * n));
  }

  /** After one block of n*n draws, t-1 further blocks bring the cursor t blocks on. */
  lemma BlockOffset(seed: u32, n: nat, t: nat)
    requires t > 0
    ensures LcgPow(LcgPow(seed, n * n), (t - 1) * (n * n)) == LcgPow(seed, t * (n * n))
  {
    var m, k := n * n, t - 1;
    assert t * m == m + k * m;
    LcgPowAdd(seed, m, k * m);
  }

  /** Sweep number t+1 starts where the first t sweeps left the cursor, t blocks of n*n draws on. */
  lemma {:induction false} EvolveLast(n: nat, probs: seq<u32>, g: seq<int>, seed: u32, t: nat)
    requires |g| == n * n && |probs| == TableSize && AllSpins(g)
    ensures Evolve(n, probs, g, seed, t + 1)
            == StepGrid(n, probs, Evolve(n, probs, g, seed, t), Draws(LcgPow(seed, t * (n * n)), n * n))
    decreases t
  {
    EvolveFirst(n, probs, g, seed, t);
    if t > 0 {
      var next, seed' := StepGrid(n, probs, g, Draws(seed, n * n)), LcgPow(seed, n * n);
      EvolveFirst(n, probs, g, seed, t - 1);
      EvolveLast(n, probs, next, seed', t - 1);
      BlockOffset(seed, n, t);
    } else {
      assert t * (n * n) == 0;
    }
  }

  /**
   * The grid of a trial with seed `s` after `t` sweeps: `init` makes the first
   * n*n draws and sweep number t (from 1) makes the next block of n*n draws.
   */
  function GridAt(n: nat, probs: seq<u32>, s: u32, t: nat): (g: seq<int>)
    requires |probs| == TableSize
    ensures |g| == n * n && AllSpins(g)
  {
    Evolve(n, probs, InitGrid(n, Draws(s, n * n)), LcgPow(s, n * n), t)
  }

  /** A trial's grid after sweep t+1 is one sweep of its grid after sweep t with the (t+1)-th block of draws. */
  lemma GridAtNext(n: nat, probs: seq<u32>, s: u32, t: nat)
    requires |probs| == TableSize
    ensures GridAt(n, probs, s, t + 1)
            == StepGrid(n, probs, GridAt(n, probs, s, t), Draws(LcgPow(s, (t + 1) * (n * n)), n * n))
  {
    EvolveLast(n, probs, InitGrid(n, Draws(s, n * n)), LcgPow(s, n * n), t);
    BlockOffset(s, n, t + 1);
  }

  /** The spin sum a trial with seed `s` records after sweep t+1; it lies in [-n*n, n*n]. */
  function Observable(n: nat, probs: seq<u32>, s: u32, t: nat): (c: int)
    requires |probs| == TableSize
    ensures -(n * n) <= c <= n * n
  {
    Count(GridAt(n, probs, s, t + 1))
  }

  /** The spin sums recorded after sweep t+1 by the trials with the given seeds, in trial order. */
  function Observables(n: nat, probs: seq<u32>, seeds: seq<u32>, t: nat): (obs: seq<int>)
    requires |probs| == TableSize
    ensures |obs| == |seeds|
    ensures forall r :: 0 <= r < |seeds| ==> -(n * n) <= obs[r] <= n * n
  {
    if seeds == [] then []
    else Observables(n, probs, seeds[..|seeds| - 1], t) + [Observable(n, probs, seeds[|seeds| - 1], t)]
  }

  /** Recording one more trial extends the recorded values by that trial's value. */
  lemma ObservablesSnoc(n: nat, probs: seq<u32>, seeds: seq<u32>, i: nat, t: nat)
    requires |probs| == TableSize && i < |seeds|
    ensures Observables(n, probs, seeds[..i + 1], t)
              == Observables(n, probs, seeds[..i], t) + [Observable(n, probs, seeds[i], t)]
  {
    assert seeds[..i + 1][..i] == seeds[..i];
  }

  /** One more trial adds its recorded value to the total and its square to the total of squares. */
  lemma TotalsSnoc(n: nat, probs: seq<u32>, seeds: seq<u32>, i: nat, t: nat)
    requires |probs| == TableSize && i < |seeds|
    ensures Sum(Observables(n, probs, seeds[..i + 1], t))
            == Sum(Observables(n, probs, seeds[..i], t)) + Observable(n, probs, seeds[i], t)
    ensures SumOfSquares(Observables(n, probs, seeds[..i + 1], t))
            == SumOfSquares(Observables(n, probs, seeds[..i], t)) + Observable(n, probs, seeds[i], t) * Observable(n, probs, seeds[i], t)
  {
    ObservablesSnoc(n, probs, seeds, i, t);
    SumSnoc(Observables(n, probs, seeds[..i], t), Observable(n, probs, seeds[i], t));
  }

  /** The r-th recorded value is the value recorded by the trial with the r-th seed. */
  lemma {:induction false} ObservablesAt(n: nat, probs: seq<u32>, seeds: seq<u32>, t: nat)
    requires |probs| == TableSize
    ensures forall r :: 0 <= r < |seeds| ==> Observables(n, probs, seeds, t)[r] == Observable(n, probs, seeds[r], t)
  {
    if seeds != [] {
      var p := seeds[..|seeds| - 1];
      ObservablesAt(n, probs, p, t);
      assert forall r :: 0 <= r < |p| ==> p[r] == seeds[r];
    }
  }

  // ---------------------------------------------------------------------------
  // The all-zero table: nothing ever flips

  /** A cell keeps its spin when its draw is not below any table entry. */
  lemma NewSpinKeeps(n: nat, probs: seq<u32>, g: seq<int>, x: nat, y: nat, draw: u32)
    requires x < n && y < n && |g| == n * n && |probs| == TableSize && AllSpins(g)
    requires forall k :: 0 <= k < TableSize ==> !Flips(draw, probs[k])
    ensures Cell(n, x, y) < n * n
    ensures NewSpin(n, probs, g, x, y, draw) == g[Cell(n, x, y)]
  {
    NeighboursToroidal(n, x, y);
    CellLayout(n, x, y);
    var w, e, no, so, c := g[West(n, x, y)], g[East(n, x, y)], g[North(n, x, y)], g[South(n, x, y)], g[Cell(n, x, y)];
    TableIndexInRange(w, e, no, so, c);
    var k := TableIndex(w + e + no + so, c);
    assert NewSpin(n, probs, g, x, y, draw) == if Flips(draw, probs[k]) then -c else c;
    assert !Flips(draw, probs[k]);
  }

  /** The table whose every entry is 0: no draw is below any of its entries. */
  const ZeroTable: seq<u32> := seq(TableSize, _ => 0)

  /** With the all-zero table a sweep leaves cell i as it was. */
  lemma ZeroTableKeepsCell(n: nat, g: seq<int>, draws: seq<u32>, i: nat)
    requires i < n * n && |g| == n * n && AllSpins(g) && |draws| == n * n
    ensures StepGrid(n, ZeroTable, g, draws)[i] == g[i]
  {
    CellOf(n, i);
    var x, y := i % n, i / n;
    StepGridCell(n, ZeroTable, g, draws, x, y);
    var draw := draws[x * n + y];
    forall k | 0 <= k < TableSize
      ensures !Flips(draw, ZeroTable[k])
    {
      FlipsOnlyBelow(draw, ZeroTable[k]);
    }
    NewSpinKeeps(n, ZeroTable, g, x, y, draw);
  }

  /** With the all-zero table a sweep changes nothing. */
  lemma ZeroTableNeverFlips(n: nat, g: seq<int>, draws: seq<u32>)
    requires |g| == n * n && AllSpins(g) && |draws| == n * n
    ensures StepGrid(n, ZeroTable, g, draws) == g
  {
    forall i | 0 <= i < n * n
      ensures StepGrid(n, ZeroTable, g, draws)[i] == g[i]
    {
      ZeroTableKeepsCell(n, g, draws, i);
    }
  }

  /** With the all-zero table any number of sweeps leaves a grid as it was. */
  lemma {:induction false} ZeroTableFrozen(n: nat, g: seq<int>, seed: u32, t: nat)
    requires |g| == n * n && AllSpins(g)
    ensures Evolve(n, ZeroTable, g, seed, t) == g
    decreases t
  {
    if t == 0 {
      assert Evolve(n, ZeroTable, g, seed, 0) == g;
    } else {
      var draws, seed' := Draws(seed, n * n), LcgPow(seed, n * n);
      calc {
        Evolve(n, ZeroTable, g, seed, t);
        Evolve(n, ZeroTable, StepGrid(n, ZeroTable, g, draws), seed', t - 1);
        { ZeroTableNeverFlips(n, g, draws); }
        Evolve(n, ZeroTable, g, seed', t - 1);
        { ZeroTableFrozen(n, g, seed', t - 1); }
        g;
      }
    }
  }

  /** With the all-zero table a trial records the spin sum of its initial grid after every sweep. */
  lemma ZeroTableObservable(n: nat, s: u32, t: nat)
    ensures Observable(n, ZeroTable, s, t) == Count(InitGrid(n, Draws(s, n * n)))
  {
    ZeroTableFrozen(n, InitGrid(n, Draws(s, n * n)), LcgPow(s, n * n), t + 1);
  }

  /** With the all-zero table the trials record the spin sums of their initial grids. */
  lemma ZeroTableObservables(n: nat, seeds: seq<u32>, t: nat)
    ensures forall r :: 0 <= r < |seeds| ==>
              Observables(n, ZeroTable, seeds, t)[r] == Count(InitGrid(n, Draws(seeds[r], n * n)))
  {
    ObservablesAt(n, ZeroTable, seeds, t);
    forall r | 0 <= r < |seeds|
      ensures Observable(n, ZeroTable, seeds[r], t) == Count(InitGrid(n, Draws(seeds[r], n * n)))
    {
      ZeroTableObservable(n, seeds[r], t);
    }
  }

  /** The 1x1 grid starts at +1 exactly when its seed is below the threshold. */
  lemma SingleCellInit(s: u32)
    ensures Count(InitGrid(1, Draws(s, 1))) == InitSpin(s)
  {
    var g := InitGrid(1, Draws(s, 1));
    assert g == [InitSpin(s)] by {
      assert DrawOrder(1, 0) == 0;
    }
    assert g[..0] == [];
  }

  /**
   * On a 1x1 lattice with the all-zero table, trials whose seeds are below the
   * threshold record +1 after every sweep.
   */
  lemma LowSeedTrialsRecordOnes(seeds: seq<u32>, t: nat)
    requires forall r :: 0 <= r < |seeds| ==> seeds[r] < InitThreshold
    ensures AllOnes(Observables(1, ZeroTable, seeds, t))
  {
    ZeroTableObservables(1, seeds, t);
    forall r | 0 <= r < |seeds|
      ensures Count(InitGrid(1, Draws(seeds[r], 1))) == 1
    {
      SingleCellInit(seeds[r]);
    }
  }

  /**
   * The source's normalisation reached from the kernel: on a 1x1 lattice with
   * the all-zero table, when there are more trials than time steps and every
   * trial seed lies below the threshold, the totals `ReferenceExecute`
   * accumulates leave a negative value under the root at every time step once
   * they are divided by `maxTime`.
   */
  lemma AsWrittenVarianceNegative(seeds: seq<u32>, maxTime: nat, sums: seq<int>, sumSquares: seq<int>, t: nat)
    requires 0 < maxTime < |seeds| && forall r :: 0 <= r < |seeds| ==> seeds[r] < InitThreshold
    requires |sums| == maxTime && |sumSquares| == maxTime && t < maxTime
    requires forall k :: 0 <= k < maxTime ==>
               sums[k] == Sum(Observables(1, ZeroTable, seeds, k))
               && sumSquares[k] == SumOfSquares(Observables(1, ZeroTable, seeds, k))
    ensures FinalizeAsWritten(sums, sumSquares, maxTime).variances[t] < 0.0
  {
    LowSeedTrialsRecordOnes(seeds, t);
    NegativeVarianceAsWritten(Observables(1, ZeroTable, seeds, t), sums, sumSquares, maxTime, t);
  }

  /**
   * With a negative value under the root treated as zero, the same trials get
   * a standard deviation of 0 instead of the `sqrt` of a negative number.
   */
  lemma ClampedStddevZero(seeds: seq<u32>, maxTime: nat, sums: seq<int>, sumSquares: seq<int>, t: nat)
    requires 0 < maxTime < |seeds| && forall r :: 0 <= r < |seeds| ==> seeds[r] < InitThreshold
    requires |sums| == maxTime && |sumSquares| == maxTime && t < maxTime
    requires forall k :: 0 <= k < maxTime ==>
               sums[k] == Sum(Observables(1, ZeroTable, seeds, k))
               && sumSquares[k] == SumOfSquares(Observables(1, ZeroTable, seeds, k))
    ensures FinalizeClamped(sums, sumSquares, maxTime).variances[t] == 0.0
  {
    AsWrittenVarianceNegative(seeds, maxTime, sums, sumSquares, t);
  }

  /**
   * The totals that `ReferenceExecute` accumulates are bounded by the lattice
   * size and the number of trials: every spin sum lies in [-n*n, n*n], so the
   * sum over `repeats` trials lies within `repeats * n*n` of zero and the sum
   * of squares is at most `repeats * (n*n)^2`. The `double` accumulators hold
   * these integers exactly while that bound stays below 2^53.
   */
  lemma TotalsBounded(n: nat, probs: seq<u32>, seeds: seq<u32>, t: nat)
    requires |probs| == TableSize
    ensures -(|seeds| * (n * n)) <= Sum(Observables(n, probs, seeds, t)) <= |seeds| * (n * n)
    ensures 0 <= SumOfSquares(Observables(n, probs, seeds, t)) <= |seeds| * ((n * n) * (n * n))
  {
    var obs := Observables(n, probs, seeds, t);
    SumBounds(obs, n * n);
    SumOfSquaresBound(obs, n * n);
  }

  /**
   * Normalised by the number of trials, the totals `ReferenceExecute`
   * accumulates never leave a negative value under the root, for any lattice,
   * table, time step and trial seeds.
   */
  lemma TrialVarianceNonNegative(n: nat, probs: seq<u32>, seeds: seq<u32>, sums: seq<int>, sumSquares: seq<int>, t: nat)
    requires |probs| == TableSize && |seeds| > 0
    requires |sumSquares| == |sums| && t < |sums|
    requires forall k :: 0 <= k < |sums| ==>
               sums[k] == Sum(Observables(n, probs, seeds, k))
               && sumSquares[k] == SumOfSquares(Observables(n, probs, seeds, k))
    ensures Finalize(sums, sumSquares, |seeds|).variances[t] >= 0.0
  {
    FinalizeVarianceNonNegative(Observables(n, probs, seeds, t), sums, sumSquares, t);
  }

  // ---------------------------------------------------------------------------
  // The imperative kernels

  /** The cells of `a` visited before traversal position k hold their values in `target`. */
  predicate Done(n: nat, a: seq<int>, target: seq<int>, k: nat)
  {
    |a| == n * n && |target| == n * n
    && forall i :: 0 <= i < n * n && DrawOrder(n, i) < k ==> a[i] == target[i]
  }

  /** Writing the target value of cell (x, y), visited x*n+y-th, extends the finished prefix by one. */
  lemma DoneNext(n: nat, a: seq<int>, target: seq<int>, x: nat, y: nat)
    requires x < n && y < n && Done(n, a, target, x * n + y)
    ensures Cell(n, x, y) < n * n
    ensures Done(n, a[Cell(n, x, y) := target[Cell(n, x, y)]], target, x * n + y + 1)
  {
    CellLayout(n, x, y);
    DrawOrderUnique(n, x, y);
  }

  /** Writing the initial spin of cell (x, y), from the draw at its traversal position, extends `init` by one cell. */
  lemma InitNextCell(n: nat, seed: u32, a: seq<int>, x: nat, y: nat)
    requires x < n && y < n && Done(n, a, InitGrid(n, Draws(seed, n * n)), x * n + y)
    ensures Cell(n, x, y) < n * n
    ensures Done(n, a[Cell(n, x, y) := InitSpin(LcgPow(seed, x * n + y))],
                 InitGrid(n, Draws(seed, n * n)), x * n + y + 1)
  {
    var draws := Draws(seed, n * n);
    InitGridCell(n, draws, x, y);
    DrawsAt(seed, n * n, x * n + y);
    DoneNextValue(n, a, InitGrid(n, draws), x, y, InitSpin(LcgPow(seed, x * n + y)));
  }

  /** Writing the update of cell (x, y), with the draw at its traversal position, extends a sweep by one cell. */
  lemma StepNextCell(n: nat, probs: seq<u32>, g: seq<int>, seed: u32, a: seq<int>, x: nat, y: nat)
    requires x < n && y < n && |g| == n * n && |probs| == TableSize && AllSpins(g)
    requires Done(n, a, StepGrid(n, probs, g, Draws(seed, n * n)), x * n + y)
    ensures Cell(n, x, y) < n * n
    ensures Done(n, a[Cell(n, x, y) := NewSpin(n, probs, g, x, y, LcgPow(seed, x * n + y))],
                 StepGrid(n, probs, g, Draws(seed, n * n)), x * n + y + 1)
  {
    var draws := Draws(seed, n * n);
    var v := NewSpin(n, probs, g, x, y, LcgPow(seed, x * n + y));
    StepGridCell(n, probs, g, draws, x, y);
    DrawsAt(seed, n * n, x * n + y);
    DoneNextValue(n, a, StepGrid(n, probs, g, draws), x, y, v);
  }

  /** Writing value `v`, which is the target of cell (x, y), extends the finished prefix by one. */
  lemma DoneNextValue(n: nat, a: seq<int>, target: seq<int>, x: nat, y: nat, v: int)
    requires x < n && y < n && Cell(n, x, y) < n * n && Done(n, a, target, x * n + y)
    requires target[Cell(n, x, y)] == v
    ensures Done(n, a[Cell(n, x, y) := v], target, x * n + y + 1)
  {
    DoneNext(n, a, target, x, y);
  }

  /** Once every traversal position is done, the grid is the target. */
  lemma DoneAll(n: nat, a: seq<int>, target: seq<int>)
    requires Done(n, a, target, n * n)
    ensures a == target
  {
    forall i | 0 <= i < n * n
      ensures a[i] == target[i]
    {
      CellOf(n, i);
    }
  }

  /** `init`: fill `out` with the initial grid, advancing the cursor once per cell. */
  method Init(n: nat, seed: u32, out: array<int>) returns (seed': u32)
    requires out.Length == n * n
    modifies out
    ensures out[..] == InitGrid(n, Draws(seed, n * n))
    ensures seed' == LcgPow(seed, n * n)
  {
    ghost var draws := Draws(seed, n * n);
    ghost var target := InitGrid(n, draws);
    seed' := seed;
    ghost var pos: nat := 0;
    var x := 0;
    while x < n
      invariant 0 <= x <= n && pos == x * n
      invariant seed' == LcgPow(seed, pos)
      invariant Done(n, out[..], target, pos)
    {
      var y := 0;
      while y < n
        invariant 0 <= y <= n && pos == x * n + y
        invariant seed' == LcgPow(seed, pos)
        invariant Done(n, out[..], target, pos)
      {
        InitNextCell(n, seed, out[..], x, y);
        out[Cell(n, x, y)] := if seed' < InitThreshold then 1 else -1;
        LcgPowNext(seed, pos);
        seed' := Lcg(seed');
        y, pos := y + 1, pos + 1;
      }
      assert pos == (x + 1) * n;
      x := x + 1;
    }
    DoneAll(n, out[..], target);
  }

  /**
   * `step`: one synchronous sweep from `inp` into the distinct buffer `out`,
   * advancing the cursor exactly once per cell, flip or no flip.
   */
  method Step(n: nat, probs: seq<u32>, seed: u32, inp: array<int>, out: array<int>) returns (seed': u32)
    requires inp != out && inp.Length == n * n && out.Length == n * n
    requires |probs| == TableSize && AllSpins(inp[..])
    modifies out
    ensures inp[..] == old(inp[..])
    ensures out[..] == StepGrid(n, probs, old(inp[..]), Draws(seed, n * n))
    ensures seed' == LcgPow(seed, n * n)
  {
    ghost var g := inp[..];
    ghost var draws := Draws(seed, n * n);
    ghost var target := StepGrid(n, probs, g, draws);
    seed' := seed;
    ghost var pos: nat := 0;
    var x := 0;
    while x < n
      invariant 0 <= x <= n && pos == x * n
      invariant inp[..] == g
      invariant seed' == LcgPow(seed, pos)
      invariant Done(n, out[..], target, pos)
    {
      var y := 0;
      while y < n
        invariant 0 <= y <= n && pos == x * n + y
        invariant inp[..] == g
        invariant seed' == LcgPow(seed, pos)
        invariant Done(n, out[..], target, pos)
      {
        var c := UpdateCell(n, probs, seed', inp, x, y);
        ghost var before := out[..];
        StepNextCell(n, probs, g, seed, before, x, y);
        out[Cell(n, x, y)] := c;
        assert out[..] == before[Cell(n, x, y) := c];
        LcgPowNext(seed, pos);
        seed' := Lcg(seed');
        y, pos := y + 1, pos + 1;
      }
      assert pos == (x + 1) * n;
      x := x + 1;
    }
    DoneAll(n, out[..], target);
  }

  /** The body of `step` for cell (x, y): read the four neighbours, look up the table, flip or keep. */
  method UpdateCell(n: nat, probs: seq<u32>, draw: u32, inp: array<int>, x: nat, y: nat) returns (c: int)
    requires x < n && y < n && inp.Length == n * n
    requires |probs| == TableSize && AllSpins(inp[..])
    ensures c == NewSpin(n, probs, inp[..], x, y, draw)
  {
    CellLayout(n, x, y);
    NeighboursToroidal(n, x, y);
    var w := inp[West(n, x, y)];
    var e := inp[East(n, x, y)];
    var no := inp[North(n, x, y)];
    var so := inp[South(n, x, y)];
    var nhood := w + e + no + so;
    c := inp[Cell(n, x, y)];
    TableIndexInRange(w, e, no, so, c);
    var index := TableIndex(nhood, c);
    if Flips(draw, probs[index]) {
      c := c * -1;
    }
  }

  /** After sweep number t the cursor has advanced by t+1 blocks of n*n draws. */
  lemma SweepCursor(s: u32, n: nat, t: nat)
    ensures LcgPow(LcgPow(s, t * (n * n)), n * n) == LcgPow(s, (t + 1) * (n * n))
  {
    var m := n * n;
    assert t * m + m == (t + 1) * m;
    LcgPowAdd(s, t * m, m);
  }

  /**
   * One trial of `ReferenceExecute`: `init` from cursor `s` into buffer `a`,
   * then `maxTime` sweeps that swap the two buffers, adding the spin sum after
   * sweep t+1 and its square into `sums[t]` and `sumSquares[t]`.
   */
  method Trial(n: nat, probs: seq<u32>, maxTime: nat, s: u32, a: array<int>, b: array<int>, sums: seq<int>, sumSquares: seq<int>)
    returns (sums': seq<int>, sumSquares': seq<int>)
    requires a != b && a.Length == n * n && b.Length == n * n && |probs| == TableSize
    requires |sums| == maxTime && |sumSquares| == maxTime
    modifies a, b
    ensures |sums'| == maxTime && |sumSquares'| == maxTime
    ensures forall t :: 0 <= t < maxTime ==>
              sums'[t] == sums[t] + Observable(n, probs, s, t)
              && sumSquares'[t] == sumSquares[t] + Observable(n, probs, s, t) * Observable(n, probs, s, t)
  {
    var current, next := a, b;
    var seed := Init(n, s, current);
    assert (0 + 1) * (n * n) == n * n;
    sums', sumSquares' := sums, sumSquares;
    var t := 0;
    while t < maxTime
      invariant 0 <= t <= maxTime
      invariant {current, next} == {a, b}
      invariant current[..] == GridAt(n, probs, s, t)
      invariant seed == LcgPow(s, (t + 1) * (n * n))
      invariant |sums'| == maxTime && |sumSquares'| == maxTime
      invariant forall k :: 0 <= k < t ==>
                  sums'[k] == sums[k] + Observable(n, probs, s, k)
                  && sumSquares'[k] == sumSquares[k] + Observable(n, probs, s, k) * Observable(n, probs, s, k)
      invariant forall k :: t <= k < maxTime ==> sums'[k] == sums[k] && sumSquares'[k] == sumSquares[k]
    {
      seed := Step(n, probs, seed, current, next);
      GridAtNext(n, probs, s, t);
      SweepCursor(s, n, t + 1);
      current, next := next, current;
      var countPositive := Count(current[..]);
      assert countPositive == Observable(n, probs, s, t);
      sums' := sums'[t := sums'[t] + countPositive];
      sumSquares' := sumSquares'[t := sumSquares'[t] + countPositive * countPositive];
      t := t + 1;
    }
  }

  /**
   * `ReferenceExecute` up to the final statistics: trial i starts from
   * `trialSeeds[i]` (the i-th output of the seeding generator), and the
   * per-step totals are the sums of the recorded spin sums and of their
   * squares over all trials.
   */
  method ReferenceExecute(input: IsingSpinInput, trialSeeds: seq<u32>) returns (sums: seq<int>, sumSquares: seq<int>)
    requires |input.probs| == TableSize && |trialSeeds| == input.repeats
    ensures |sums| == input.maxTime && |sumSquares| == input.maxTime
    ensures forall t :: 0 <= t < input.maxTime ==>
              sums[t] == Sum(Observables(input.n, input.probs, trialSeeds, t))
              && sumSquares[t] == SumOfSquares(Observables(input.n, input.probs, trialSeeds, t))
  {
    var n: nat := input.n;
    var probs := input.probs;
    var current := new int[n * n];
    var next := new int[n * n];
    sums := seq(input.maxTime, _ => 0);
    sumSquares := seq(input.maxTime, _ => 0);
    var i := 0;
    while i < input.repeats
      invariant 0 <= i <= input.repeats
      invariant |sums| == input.maxTime && |sumSquares| == input.maxTime
      invariant forall k :: 0 <= k < input.maxTime ==>
                  sums[k] == Sum(Observables(n, probs, trialSeeds[..i], k))
                  && sumSquares[k] == SumOfSquares(Observables(n, probs, trialSeeds[..i], k))
    {
      var sums', sumSquares' := Trial(n, probs, input.maxTime, trialSeeds[i], current, next, sums, sumSquares);
      forall k | 0 <= k < input.maxTime
        ensures sums'[k] == Sum(Observables(n, probs, trialSeeds[..i + 1], k))
        ensures sumSquares'[k] == SumOfSquares(Observables(n, probs, trialSeeds[..i + 1], k))
      {
        TotalsSnoc(n, probs, trialSeeds, i, k);
      }
      sums, sumSquares := sums', sumSquares';
      i := i + 1;
    }
    assert trialSeeds[..input.repeats] == trialSeeds;
  }
}
