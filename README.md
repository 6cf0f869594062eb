# puzzler kernels in Dafny

This project models the reference implementations of three puzzles from the
`puzzler` coursework framework. It proves that each imperative kernel computes
the value of a functional specification, and it proves properties of those
specifications.

- **Ising spin** (`ising_spin.hpp`). An n-by-n toroidal lattice of +1/-1 spins.
  - `init` seeds the lattice.
  - `step` updates it by one synchronous heat-bath sweep. Each cell reads its four wrapped neighbours, looks up a 10-entry flip table, and flips when the current LCG draw, converted to `float`, is below the entry converted to `float`. For entries below 2^24 this is the plain integer comparison (`IsingSpin.Flips`).
  - `count` sums the spins.
  - `ReferenceExecute` runs `repeats` independent trials of `maxTime` sweeps each. It accumulates per-step totals of the spin sum and of its square, then turns them into means and standard deviations.
  - The 32-bit LCG `x*1664525+1013904223` consumes exactly one draw per cell in `init` and in every sweep. The model pins down that order, and proves the jump-ahead formula that lets any position of the draw sequence be computed directly.
- **Random walk** (`random_walk.hpp`).
  - A graph of `dd_node_t` nodes (id, edge list, visit counter).
  - `numSamples` walks of `lengthWalks` steps. Each walk increments the counter of every node it visits and leaves along edge `rng % degree`, with the same LCG.
  - The counters are turned into a `(count, id)` histogram, which is sorted in descending order.
  - Also the input check on node ids and edge targets, and the output comparison.
- **Logic simulation** (`logic_sim.hpp`). A synchronous circuit of flip-flops and two-input XOR gates.
  - `calcSrc` evaluates a source recursively.
  - `next` computes the state after one clock edge.
  - `ReferenceExecute` runs `clockCycles` edges.
  - Also the state-size check and the output comparison.
  - In the code, a source below the number of flip-flops names a flip-flop, and a larger one names gate `src - flipFlops`. The comment on the input fields says instead that negative sources are flip-flops. The model follows the code: a negative `int32_t` source is passed as `unsigned`, becomes `2^32 + src`, and makes `at` throw whenever the circuit has at most 2^31 sources (flip-flops plus gates). A thrown exception is modelled as `None`.

Modules:

- `Rng`: the LCG, the n-th draw, and jump-ahead.
- `Float32`: the `uint32_t` to `float` conversion used by the flip test.
- `TrialStatistics`: totals, mean and variance.
- `IsingSpin`, `RandomWalk`, `LogicSim`: the three kernels.
- `Results`: `Option` and `Outcome`.
- `Arith`: shared arithmetic facts.

The outputs of `std::mt19937` are parameters of the model:

- In Ising spin, `trialSeeds[i]` is the i-th output, which seeds trial i.
- In random walk, `samples[k]` is the pair of outputs (walk seed, start draw) taken by sample k.

## Model

| member | source | states |
|---|---|---|
| Rng.Lcg | include/puzzler/puzzles/ising_spin.hpp:95-98 | one draw `x*1664525+1013904223` wrapping modulo 2^32 (also `step` at random_walk.hpp:105-108); multiplier and increment are odd, so the lowest bit of the cursor alternates from draw to draw |
| Rng.LcgPowNext | include/puzzler/puzzles/ising_spin.hpp:95-98 | proof step: the defining equation of the cursor, one more draw applies `lcg` once more |
| Rng.LcgPowAdd | include/puzzler/puzzles/ising_spin.hpp:95-98 | `a` draws followed by `b` draws land where `a + b` draws do |
| Rng.DrawsAt | include/puzzler/puzzles/ising_spin.hpp:129-133 | the k-th value a loop of draws sees is `lcg` applied k times to the starting seed |
| Rng.LcgJumpAhead | include/puzzler/puzzles/ising_spin.hpp:92-98 | k draws compose to one affine map `x -> (A_k*x + C_k) mod 2^32`, so any position of the sequence is computable directly |
| Rng.JumpStep | include/puzzler/puzzles/random_walk.hpp:105-108 | one more draw after the affine map `(m, c)` is the affine map `(m*a mod 2^32, (c*a+b) mod 2^32)` |
| Float32.RoundToFloat | include/puzzler/puzzles/ising_spin.hpp:165-167 | the `uint32_t` to `float` conversion of the table entry and of the draw: exact below 2^24, and never below 2^24 from there on |
| Float32.RoundToFloatNearest | include/puzzler/puzzles/ising_spin.hpp:165-167 | converting a `uint32_t` to `float` gives a multiple of the last significand bit's weight within half that weight of the value |
| Float32.RoundMonotone | include/puzzler/puzzles/ising_spin.hpp:165-167 | conversion to `float` never reverses the order of two values |
| TrialStatistics.Sum | include/puzzler/puzzles/ising_spin.hpp:239 | definition: the running total `sums[t] += countPositive` over the trials, in trial order (no contract of its own; its properties are the lemmas below) |
| TrialStatistics.SumOfSquares | include/puzzler/puzzles/ising_spin.hpp:240 | the accumulated squares are never negative |
| TrialStatistics.SumSnoc | include/puzzler/puzzles/ising_spin.hpp:238-240 | proof step: the defining equations of both totals, one more trial adds its value to the total and its square to the total of squares |
| TrialStatistics.SumBounds | include/puzzler/puzzles/ising_spin.hpp:238-239 | values bounded by b in absolute value give a total bounded by count*b |
| TrialStatistics.SumOfSquaresBound | include/puzzler/puzzles/ising_spin.hpp:238-240 | values bounded by b in absolute value give a sum of squares of at most count*b*b |
| TrialStatistics.CauchySchwarz | include/puzzler/puzzles/ising_spin.hpp:238-240 | count times the total of squares is at least the squared total |
| TrialStatistics.Mean | include/puzzler/puzzles/ising_spin.hpp:251 | the mean times the divisor gives back the total |
| TrialStatistics.Variance | include/puzzler/puzzles/ising_spin.hpp:251-252 | the value under the square root, mean square less squared mean; non-negative whenever `count * totalSquares >= total^2`, the bound any `count` recorded values satisfy |
| TrialStatistics.FinalizeAsWritten | include/puzzler/puzzles/ising_spin.hpp:248-254 | one mean and one variance per time step, for any `maxTime` including 0, with every mean equal to the step's total over `maxTime` |
| TrialStatistics.FinalizeClamped | include/puzzler/puzzles/ising_spin.hpp:248-254 | the documented treatment of the root: the as-written means, and variances that are never negative, equal to the as-written value where that is non-negative and 0 where it is negative |
| TrialStatistics.Finalize | include/puzzler/puzzles/ising_spin.hpp:248-254 | the same statistics normalised by the number of trials: every mean is the step's total over `repeats` |
| TrialStatistics.FinalizeVarianceNonNegative | include/puzzler/puzzles/ising_spin.hpp:251-252 | normalised by the number of trials, the value under the square root is never negative |
| TrialStatistics.SumOfOnes | include/puzzler/puzzles/ising_spin.hpp:238-240 | trials that all record +1 make both totals equal to the number of trials |
| TrialStatistics.NegativeVarianceAsWritten | include/puzzler/puzzles/ising_spin.hpp:251-252 | with more trials than `maxTime`, all recording +1, the value under the square root is negative |
| IsingSpin.CellLayout | include/puzzler/puzzles/ising_spin.hpp:129-131 | cell (x, y) at `y*n+x` lies in the grid, has column x and row y, and is the (x*n+y)-th cell visited |
| IsingSpin.CellOf | include/puzzler/puzzles/ising_spin.hpp:129-131 | every index below n*n is the cell of exactly one column and row of the grid |
| IsingSpin.DrawOrderUnique | include/puzzler/puzzles/ising_spin.hpp:129-133 | no two cells are visited at the same position of the sweep |
| IsingSpin.DrawOrderAt | include/puzzler/puzzles/ising_spin.hpp:129-133 | the cell visited at position x*n+y is cell (x, y) |
| IsingSpin.West | include/puzzler/puzzles/ising_spin.hpp:156 | definition of the `W` read, with its `x==0` special case; `NeighboursToroidal` states what it reads |
| IsingSpin.East | include/puzzler/puzzles/ising_spin.hpp:157 | definition of the `E` read, with its `x==n-1` special case; `NeighboursToroidal` states what it reads |
| IsingSpin.North | include/puzzler/puzzles/ising_spin.hpp:158 | definition of the `N` read, with its `y==0` special case; `NeighboursToroidal` states what it reads |
| IsingSpin.South | include/puzzler/puzzles/ising_spin.hpp:159 | definition of the `S` read, with its `y==n-1` special case; `NeighboursToroidal` states what it reads |
| IsingSpin.WrapAround | include/puzzler/puzzles/ising_spin.hpp:156-159 | the edge cases of the neighbour reads are predecessor and successor modulo n |
| IsingSpin.NeighboursToroidal | include/puzzler/puzzles/ising_spin.hpp:156-159 | W, E, N and S read the cells one column or row away with wrap-around, always inside the grid |
| IsingSpin.TruncDiv | include/puzzler/puzzles/ising_spin.hpp:164 | definition of C++ `/` on `int`, which rounds toward zero; `TruncDivTowardZero` states it |
| IsingSpin.TruncDivTowardZero | include/puzzler/puzzles/ising_spin.hpp:164 | the remainder of the truncating division has the sign of the dividend and is smaller than the divisor in magnitude |
| IsingSpin.TableIndex | include/puzzler/puzzles/ising_spin.hpp:164 | definition of `(nhood+4)/2 + 5*(C+1)/2` with truncating division; its range and layout are `TableIndexInRange` and `TableIndexLayout` |
| IsingSpin.TableIndexInRange | include/puzzler/puzzles/ising_spin.hpp:160-165 | with +1/-1 spins the neighbour sum is even in [-4, 4] and the table index lies in [0, 10): first half for a -1 centre, second half for +1 |
| IsingSpin.TableIndexLayout | include/puzzler/puzzles/ising_spin.hpp:281-292 | the index the sweep computes for neighbour sum `2i-4` and spin `2j-1` is the slot `i+5j` the input generator fills |
| IsingSpin.Flips | include/puzzler/puzzles/ising_spin.hpp:165-167 | the flip test `seed < prob` on the `float` values of draw and entry; for entries below 2^24 it is exactly the integer comparison |
| IsingSpin.FlipsOnlyBelow | include/puzzler/puzzles/ising_spin.hpp:165-169 | a cell flips only when its draw is below the table entry |
| IsingSpin.FlipsRoundingExample | include/puzzler/puzzles/ising_spin.hpp:165-169 | because of the `float` rounding, draw 2^24 does not flip against entry 2^24+1 |
| IsingSpin.InitSpin | include/puzzler/puzzles/ising_spin.hpp:131 | a draw below 0x80001000 gives +1 and any other -1: always a spin |
| IsingSpin.InitGrid | include/puzzler/puzzles/ising_spin.hpp:122-135 | `init` produces n*n cells, all spins |
| IsingSpin.InitGridCell | include/puzzler/puzzles/ising_spin.hpp:129-133 | cell (x, y) starts at +1 exactly when draw number x*n+y is below 0x80001000 |
| IsingSpin.NewSpin | include/puzzler/puzzles/ising_spin.hpp:156-171 | the updated cell is the old spin or its negation |
| IsingSpin.StepGrid | include/puzzler/puzzles/ising_spin.hpp:146-176 | a sweep yields one value per cell |
| IsingSpin.StepGridCell | include/puzzler/puzzles/ising_spin.hpp:154-173 | after a sweep, cell (x, y) is its update from the old grid with draw number x*n+y |
| IsingSpin.StepKeepsOrNegates | include/puzzler/puzzles/ising_spin.hpp:162-171 | every cell is kept or negated by a sweep |
| IsingSpin.StepGridSpins | include/puzzler/puzzles/ising_spin.hpp:146-176 | a sweep maps a grid of spins to a grid of spins |
| IsingSpin.Count | include/puzzler/puzzles/ising_spin.hpp:137-144 | the spin sum of a grid of spins lies in [-n*n, n*n] |
| IsingSpin.CountIsBalance | include/puzzler/puzzles/ising_spin.hpp:137-144 | the spin sum is the number of +1 cells minus the number of -1 cells |
| IsingSpin.Evolve | include/puzzler/puzzles/ising_spin.hpp:227-236 | any number of sweeps keeps a grid of n*n spins |
| IsingSpin.EvolveFirst | include/puzzler/puzzles/ising_spin.hpp:227-236 | proof step: one unfolding of `Evolve`, the first of several sweeps takes the first n*n draws, and the rest continue from the cursor it leaves |
| IsingSpin.BlockOffset | include/puzzler/puzzles/ising_spin.hpp:227-236 | after one block of n*n draws, t-1 more blocks put the cursor t blocks on |
| IsingSpin.EvolveLast | include/puzzler/puzzles/ising_spin.hpp:227-236 | sweep t+1 uses exactly the (t+1)-th block of n*n draws after the starting cursor |
| IsingSpin.GridAt | include/puzzler/puzzles/ising_spin.hpp:225-236 | a trial's grid at every time is a grid of n*n spins |
| IsingSpin.GridAtNext | include/puzzler/puzzles/ising_spin.hpp:225-236 | a trial's grid after sweep t+1 is one sweep of its grid after sweep t, with draws (t+1)*n*n onwards from the trial seed |
| IsingSpin.Observable | include/puzzler/puzzles/ising_spin.hpp:237-239 | the value a trial records after a sweep lies in [-n*n, n*n] |
| IsingSpin.Observables | include/puzzler/puzzles/ising_spin.hpp:220-240 | one recorded value per trial, each in [-n*n, n*n] |
| IsingSpin.ObservablesSnoc | include/puzzler/puzzles/ising_spin.hpp:220-240 | proof step: the defining equation of `Observables`, one more trial appends its own value to the recorded values |
| IsingSpin.TotalsSnoc | include/puzzler/puzzles/ising_spin.hpp:237-240 | one more trial adds its value and its square to the two totals |
| IsingSpin.ObservablesAt | include/puzzler/puzzles/ising_spin.hpp:220-240 | the r-th recorded value belongs to the trial seeded with the r-th seed |
| IsingSpin.NewSpinKeeps | include/puzzler/puzzles/ising_spin.hpp:165-171 | a draw not below any table entry keeps the cell |
| IsingSpin.ZeroTableKeepsCell | include/puzzler/puzzles/ising_spin.hpp:146-176 | with an all-zero table a sweep keeps every cell |
| IsingSpin.ZeroTableNeverFlips | include/puzzler/puzzles/ising_spin.hpp:146-176 | with an all-zero table a sweep is the identity |
| IsingSpin.ZeroTableFrozen | include/puzzler/puzzles/ising_spin.hpp:227-236 | with an all-zero table any number of sweeps is the identity |
| IsingSpin.ZeroTableObservable | include/puzzler/puzzles/ising_spin.hpp:225-239 | with an all-zero table a trial records the spin sum of its initial grid at every step |
| IsingSpin.ZeroTableObservables | include/puzzler/puzzles/ising_spin.hpp:220-240 | with an all-zero table every trial records the spin sum of its own initial grid |
| IsingSpin.SingleCellInit | include/puzzler/puzzles/ising_spin.hpp:129-133 | a 1x1 lattice starts at +1 exactly when its seed is below 0x80001000 |
| IsingSpin.LowSeedTrialsRecordOnes | include/puzzler/puzzles/ising_spin.hpp:220-240 | on a 1x1 lattice with an all-zero table, trials seeded below 0x80001000 record +1 at every step |
| IsingSpin.AsWrittenVarianceNegative | include/puzzler/puzzles/ising_spin.hpp:251-252 | with the totals `ReferenceExecute` accumulates, dividing by `maxTime` yields a negative variance for such trials when `repeats > maxTime` |
| IsingSpin.ClampedStddevZero | include/puzzler/puzzles/ising_spin.hpp:251-252 | for the same trials, treating the negative value under the root as zero reports a variance of 0 instead of the root of a negative number |
| IsingSpin.TotalsBounded | include/puzzler/puzzles/ising_spin.hpp:238-240 | each step's total over the trials lies within `repeats*n*n` of zero and its sum of squares is at most `repeats*(n*n)^2`, so the `double` accumulators are exact while `repeats*n^4` stays below 2^53 |
| IsingSpin.TrialVarianceNonNegative | include/puzzler/puzzles/ising_spin.hpp:251-252 | with the same totals, dividing by the number of trials never yields a negative variance, for any lattice, table and seeds |
| IsingSpin.Init | include/puzzler/puzzles/ising_spin.hpp:122-135 | `init` writes the initial grid of the first n*n draws and advances the seed by n*n draws |
| IsingSpin.UpdateCell | include/puzzler/puzzles/ising_spin.hpp:156-171 | the loop body of `step` computes the cell's new spin from the old grid and the draw |
| IsingSpin.Step | include/puzzler/puzzles/ising_spin.hpp:146-176 | `step` writes the sweep of the input grid into the other buffer, with the next n*n draws; it leaves the input unchanged and advances the seed by n*n |
| IsingSpin.SweepCursor | include/puzzler/puzzles/ising_spin.hpp:227-236 | after sweep t the seed has advanced by t+1 blocks of n*n draws |
| IsingSpin.Trial | include/puzzler/puzzles/ising_spin.hpp:221-241 | one trial adds, at every time step, the spin sum after that sweep and its square to the two totals |
| IsingSpin.ReferenceExecute | include/puzzler/puzzles/ising_spin.hpp:204-243 | the per-step totals are the sum and the sum of squares of the values the trials record, trial i seeded by the i-th seed |
| RandomWalk.NextNode | include/puzzler/puzzles/random_walk.hpp:121-124 | the node a walk moves to is one of the current node's edges, edge `rng % degree` |
| RandomWalk.Visits | include/puzzler/puzzles/random_walk.hpp:114-126 | a walk of `length` steps visits `length` nodes, all inside the node table |
| RandomWalk.VisitsDraw | include/puzzler/puzzles/random_walk.hpp:118-125 | a walk starts at `start`, and step k moves along edge `(k-th draw) % degree` of the node visited at step k |
| RandomWalk.VisitsSameEdges | include/puzzler/puzzles/random_walk.hpp:114-126 | a walk depends only on the edge lists, not on ids or counters |
| RandomWalk.Bump | include/puzzler/puzzles/random_walk.hpp:119 | a counter increment keeps the size of the node table |
| RandomWalk.Tally | include/puzzler/puzzles/random_walk.hpp:114-126 | counting a path's visits keeps the size of the node table |
| RandomWalk.TallySnoc | include/puzzler/puzzles/random_walk.hpp:118-119 | proof step: the defining equation of `Tally`, one more visit is one more counter increment |
| RandomWalk.TallyCount | include/puzzler/puzzles/random_walk.hpp:119 | every counter grows by the number of visits to its node, modulo 2^32, and ids and edges stay |
| RandomWalk.TallyKeepsGraph | include/puzzler/puzzles/random_walk.hpp:119 | counting leaves ids and edge lists unchanged |
| RandomWalk.TallyTwice | include/puzzler/puzzles/random_walk.hpp:164-170 | counting one path and then another equals counting the concatenated path |
| RandomWalk.TotalCountBump | include/puzzler/puzzles/random_walk.hpp:119 | an increment that does not wrap raises the total of all counters by one |
| RandomWalk.TallyTotal | include/puzzler/puzzles/random_walk.hpp:114-126 | without wrap-around a path raises the total of all counters by its length |
| RandomWalk.TallySnocTotal | include/puzzler/puzzles/random_walk.hpp:118-119 | one more visit that does not wrap raises the total by one |
| RandomWalk.NoWrapPrefix | include/puzzler/puzzles/random_walk.hpp:119 | absence of wrap-around on a path carries over to its prefixes |
| RandomWalk.Walk | include/puzzler/puzzles/random_walk.hpp:114-126 | `random_walk` leaves every counter raised by the visits of the specified walk, in the same node table |
| RandomWalk.Validate | include/puzzler/puzzles/random_walk.hpp:58-65 | the check accepts exactly the graphs with `id == index` and in-range edges, and otherwise reports the complaint about the first bad node, ids before edges |
| RandomWalk.ValidWalkDefined | include/puzzler/puzzles/random_walk.hpp:58-65 | on an accepted graph whose nodes all have edges, every walk from a node of the table stays inside the table |
| RandomWalk.ValidWalkStaysInside | include/puzzler/puzzles/random_walk.hpp:114-126 | on an accepted graph, a walk from a node of the table is defined exactly when every node it reaches before its last step has an edge; edge-less nodes it never reaches do not matter |
| RandomWalk.Histogram | include/puzzler/puzzles/random_walk.hpp:175-177 | one histogram entry per node |
| RandomWalk.ResetCounts | include/puzzler/puzzles/random_walk.hpp:178 | resetting keeps one node per node |
| RandomWalk.BuildHistogram | include/puzzler/puzzles/random_walk.hpp:175-179 | the histogram holds `(count_i, i)` in node order, and the counters are reset to 0 |
| RandomWalk.SortDescending | include/puzzler/puzzles/random_walk.hpp:181 | the histogram ends in non-increasing lexicographic order, as a permutation of itself |
| RandomWalk.Insert | include/puzzler/puzzles/random_walk.hpp:181 | one insertion step extends the sorted prefix, permutes the array and leaves the entries after position i as they were |
| RandomWalk.SortedUnique | include/puzzler/puzzles/random_walk.hpp:181 | two descending histograms with the same entries are equal, so the result does not depend on the sorting algorithm |
| RandomWalk.AllVisitsShape | include/puzzler/puzzles/random_walk.hpp:164-170 | the samples make `numSamples * lengthWalks` visits, all inside the table |
| RandomWalk.SamplesTotal | include/puzzler/puzzles/random_walk.hpp:164-170 | without wrap-around the sampling raises the total of all counters by `numSamples * lengthWalks` |
| RandomWalk.WalkSample | include/puzzler/puzzles/random_walk.hpp:165-169 | sample i adds the visits of its walk to the counters |
| RandomWalk.WalkAll | include/puzzler/puzzles/random_walk.hpp:164-170 | the sampling loop adds all samples' visits, one walk after another |
| RandomWalk.ReferenceExecute | include/puzzler/puzzles/random_walk.hpp:136-192 | the output is sorted descending and is a permutation of the histogram of the counters after all walks; by `SortedUnique` it is the unique such sequence |
| RandomWalk.Equals | include/puzzler/puzzles/random_walk.hpp:91-95 | the output comparison, entry by entry, holds exactly for equal histograms |
| LogicSim.ToUnsigned | include/puzzler/puzzles/logic_sim.hpp:90-97 | a non-negative source is unchanged; a negative one becomes at least 2^31 and congruent to itself modulo 2^32 |
| LogicSim.CalcSrc | include/puzzler/puzzles/logic_sim.hpp:90-100 | a flip-flop source yields its state bit; an index past the last gate throws |
| LogicSim.CalcSrcRankFree | include/puzzler/puzzles/logic_sim.hpp:90-100 | a source's value does not depend on which acyclicity certificate is used |
| LogicSim.CalcSrcLinear | include/puzzler/puzzles/logic_sim.hpp:90-100 | whether a source throws does not depend on the state, and its value on `s1 xor s2` is the XOR of its values on each |
| LogicSim.Load | include/puzzler/puzzles/logic_sim.hpp:106 | flip-flop i loads `calcSrc` of its source: the bit of flip-flop j when the source is j, and a throw when the source is negative and the circuit has fewer than 2^31 sources |
| LogicSim.NextState | include/puzzler/puzzles/logic_sim.hpp:102-109 | one cycle succeeds exactly when every flip-flop's source evaluates, and then flip-flop i holds its source's value |
| LogicSim.Next | include/puzzler/puzzles/logic_sim.hpp:102-109 | `next` computes the one-cycle state, or throws exactly when some source throws |
| LogicSim.NextLinear | include/puzzler/puzzles/logic_sim.hpp:102-109 | one cycle is linear over GF(2) and throws independently of the state |
| LogicSim.Run | include/puzzler/puzzles/logic_sim.hpp:126-139 | any number of cycles keeps the number of flip-flops |
| LogicSim.RunAdd | include/puzzler/puzzles/logic_sim.hpp:126-139 | running a cycles and then b more is running a+b cycles |
| LogicSim.RunLinear | include/puzzler/puzzles/logic_sim.hpp:126-139 | any number of cycles is linear over GF(2) |
| LogicSim.ReferenceExecute | include/puzzler/puzzles/logic_sim.hpp:119-144 | the output is the state after `clockCycles` cycles: the input state for zero cycles, and always of the same size |
| LogicSim.Validate | include/puzzler/puzzles/logic_sim.hpp:47-48 | an input is accepted exactly when the state has one bit per flip-flop |
| LogicSim.ValidatedRuns | include/puzzler/puzzles/logic_sim.hpp:47-48 | an accepted acyclic input runs with states of one bit per flip-flop |
| LogicSim.Equals | include/puzzler/puzzles/logic_sim.hpp:76-80 | the output comparison, bit by bit, holds exactly for equal states |

## Left out

- `std::mt19937` is not modelled. Its outputs are parameters: `trialSeeds` for Ising spin, and `samples` (walk seed, start draw) for random walk.
- Floating point output of Ising spin:
  - `sqrt` is not modelled.
  - The 1e-9 tolerance of `IsingSpinOutput::Equals` is not modelled.
  - `FinalizeAsWritten` and `Finalize` compute means and variances over exact reals instead of `double`.
- IsingSpin.ReferenceExecute:
  - It returns the exact integer totals. The source accumulates them in `double`, which is exact while the totals stay below 2^53; `IsingSpin.TotalsBounded` shows that this holds whenever `repeats * n^4` is below 2^53.
  - The final division loop (lines 250-254) is stated by `TrialStatistics.FinalizeAsWritten` rather than run by the method.
- IsingSpin.ReferenceExecute requires a table of exactly 10 entries, and so do the other Ising members. The code never checks the table size:
  - a shorter table would be read out of bounds;
  - a longer table is accepted by the code, which reads only its first 10 entries, but the model excludes it.
- IsingSpin.Init, IsingSpin.Step and IsingSpin.ReferenceExecute treat `n` as unbounded. They do not model the overflow of `n*n` in 32 bits, nor the conversion of `n` to `int`.
- IsingSpin.Flips assumes comparisons are evaluated in single precision (`FLT_EVAL_METHOD == 0`).
- Not modelled from ising_spin.hpp:
  - `dump`;
  - the logging;
  - the unused copy of `random_walk` (lines 182-194);
  - the dead `seed=lcg(seed)` at line 243, which is overwritten by the next trial's seed.
- RandomWalk.Walk requires its walk to be defined (`WalkDefined`). The model does not cover walks that reach a node with an empty edge list (remainder by zero) or an edge out of range, both undefined behaviour in the source. On a validated graph, `ValidWalkStaysInside` shows that only the nodes the walk reaches need an edge.
- RandomWalk.ReferenceExecute requires `SamplesDefined`. This excludes samples taken on an empty node table (`rng() % 0`).
- RandomWalk.ReferenceExecute requires at most 2^32 nodes, so that `uint32_t(i)` does not wrap.
- RandomWalk.ReferenceExecute models `std::sort` by an insertion sort. The contract states sortedness and permutation, and `SortedUnique` shows that this fixes the output.
- RandomWalk.TallyTotal and RandomWalk.SamplesTotal hold only when no counter wraps past 2^32. `TallyCount` covers the wrapping case.
- RandomWalk.Validate models a thrown `runtime_error` as a `Fail` outcome. Deserialisation is left out.
- LogicSim.CalcSrc requires a rank certificate that every gate reads only lower-ranked gates or indices outside the gate list.
  - Every gate list with a cycle is excluded. That includes lists on which the source stops by throwing before it reaches the cycle: with one flip-flop and the single gate `(5, 1)`, `calcSrc(1)` reads source 5 first, and `at(4)` throws, although the gate reads itself through its second input.
  - The certificate also covers gates no flip-flop reads, so a cycle among unread gates excludes an input the source evaluates without trouble.
- LogicSim.Next requires the flip-flop list and the state to have the same size. The source reads `flipFlopInputs[i]` unchecked; `Validate` is the check that guarantees it.
- The bit packing of `std::vector<bool>` is not modelled; states are sequences of booleans.
- Not modelled:
  - input generation (`CreateInput`);
  - persistence and logging;
  - the `julia` puzzle;
  - the provider wrappers.

## Findings

| source | as written | input that shows it | evidently intended | confidence | as-written member | corrected member |
|---|---|---|---|---|---|---|
| include/puzzler/puzzles/ising_spin.hpp:251-252 | the per-step totals over `repeats` trials are divided by `maxTime`, and the root is taken of `sumSquares/maxTime - (sums/maxTime)^2` without a check; the value under the root can be negative, and `sqrt` then gives NaN | n=1, maxTime=1, repeats=4, an all-zero table, every trial seed below 0x80001000: each trial records +1, so the value under the root is 4 - 16 = -12 and `stddevs[0]` is NaN. The input generator's own choice maxTime=n, repeats=3+sqrt(n) has repeats > maxTime for n <= 4 | the documented behaviour keeps the `maxTime` divisor on purpose, for output parity, and treats a negative value under the root as zero, so the defect is the missing clamp and the intended output is a standard deviation of 0 (`TrialStatistics.FinalizeClamped`, with `IsingSpin.ClampedStddevZero` for this input). The conventional statistic over the trials would divide by `repeats` instead, and then the value is never negative (`IsingSpin.TrialVarianceNonNegative`); the documented behaviour rules that change out | medium, not executed | IsingSpin.AsWrittenVarianceNegative | TrialStatistics.FinalizeClamped |
