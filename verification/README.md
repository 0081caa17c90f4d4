# Greedy gnomes, modelled in Dafny

A gnome starts in the top-left cell (0, 0) of a rectangular grid. Each cell
is either a rock or a passable cell holding a non-negative amount of gold.
The gnome moves only RIGHT or DOWN, never off the grid and never onto a rock,
and it may stop anywhere. It collects the gold of every cell it visits, the
start cell included. `gnomes_algs.hpp` solves this problem twice:

* `greedy_gnomes_exhaustive` enumerates bit patterns. For each length `i` up
  to `rows + columns - 2` and each `bit < 2^i` it builds a candidate from
  `i + 1` step attempts. An attempt moves RIGHT when bit `k` is set and RIGHT
  is valid. Otherwise it moves DOWN when DOWN is valid, and otherwise it does
  not move. The solver keeps the candidate with strictly more gold.
* `greedy_gnomes_dyn_prog` fills a row-major table of optional paths and then
  scans the table for the path with the most gold.

Files:

* `grids.dfy` (module `Grids`): the grid as a rectangular `seq<seq<Cell>>`
  with `Cell = Rock | Gold(amount: nat)`.
* `paths.dfy` (module `Paths`): a path is a value `Path(row, col, steps, gold)`,
  so copying a path gives an independent value. `ValidPath` is the path's
  invariant over its grid: the position is where the steps lead, every
  visited cell is on the grid and not a rock, and `gold` is the sum over the
  visited cells.
* `exhaustive.dfy` (module `ExhaustiveSearch`): the exhaustive solver.
* `dyn_prog.dfy` (module `DynamicProgramming`): the table fill and the scan.
* `agreement.dfy` (module `Agreement`): both solvers return the same gold.
* `wrappers.dfy` (module `Wrappers`): `Option`, used for absent table entries.

The main results:

* Every path either solver builds is valid.
* Each table entry is optimal for its cell: it is absent exactly when no
  valid route reaches the cell. Otherwise it ends at the cell with the most
  gold of any valid route there.
* The dynamic-programming result is the first maximum of the table in
  row-major order, and no valid route collects more gold.
* The exhaustive search is not a search over all move sequences: an invalid
  RIGHT falls back to DOWN, and a step may be skipped. It still finds the
  optimum. A valid route `s` is retraced by the candidate of length `|s|`
  whose bit `k` is set exactly where step `k` of `s` is RIGHT (`Encode`).
  The extra last attempt of that candidate can only add gold.
* Therefore the two solvers agree on the gold they collect.

## Model

| member | source | states |
|---|---|---|
| `Paths.Fresh` | gnomes_algs.hpp:39 | A fresh path satisfies the path invariant. It has no steps and holds the gold of the origin. |
| `Paths.IsStepValid` | gnomes_algs.hpp:48-50 | On a valid path, a step is valid exactly when appending it gives a valid route: the new cell is on the grid and is not a rock. |
| `Paths.AddStep` | gnomes_algs.hpp:49-51 | A valid step appends the direction to the steps, keeps the path invariant and never lowers the gold. |
| `ExhaustiveSearch.Pow2` | gnomes_algs.hpp:42 | `pow(2, i)` as an exact integer, at least 1, so every length has at least one pattern. |
| `ExhaustiveSearch.Pow2SingleBit` | gnomes_algs.hpp:42 | 2^n is `1 << n`: bit n is its only set bit. |
| `ExhaustiveSearch.MaxSteps` | gnomes_algs.hpp:37 | On a non-empty grid, no valid route takes more than `rows + columns - 2` steps. |
| `ExhaustiveSearch.Bit` | gnomes_algs.hpp:47 | A set bit means the number is positive. |
| `ExhaustiveSearch.BitIsShift` | gnomes_algs.hpp:47 | `Bit(n, k)` holds exactly when `(n / 2^k) % 2 == 1`, that is `((n >> k) & 1) == 1`. |
| `ExhaustiveSearch.HighBitClear` | gnomes_algs.hpp:42-48 | Every pattern below 2^i has bit i clear, so the last of the i + 1 attempts never asks for RIGHT. |
| `ExhaustiveSearch.Attempt` | gnomes_algs.hpp:47-51 | The step rule: RIGHT when the bit is set and RIGHT is valid, else DOWN when DOWN is valid, else no move. The path stays valid and its gold does not drop. |
| `ExhaustiveSearch.Attempts` | gnomes_algs.hpp:44-52 | After n attempts from a fresh path, the path is valid and has at most n steps. |
| `ExhaustiveSearch.Candidate` | gnomes_algs.hpp:44-52 | Candidate (i, bit) is a valid in-bounds, rock-free path with at most i + 1 steps. |
| `ExhaustiveSearch.EncodeBit` | gnomes_algs.hpp:47 | Bit k of the encoding of a route, `(bit >> k) & 1`, is set exactly when step k of the route is RIGHT. The encoding is below 2 to the power of the route's length. |
| `ExhaustiveSearch.AttemptsReplay` | gnomes_algs.hpp:45-52 | Driving the attempts with the encoding of a valid route retraces that route step by step. |
| `ExhaustiveSearch.CandidateDominates` | gnomes_algs.hpp:40-52 | Every valid route has at most rows + columns - 2 steps. Its encoding is within the enumerated range, and the candidate built from that encoding collects at least the route's gold. |
| `ExhaustiveSearch.BuildCandidate` | gnomes_algs.hpp:44-52 | The inner loop builds exactly candidate (i, bit). |
| `ExhaustiveSearch.KeptStep` | gnomes_algs.hpp:53-54 | Comparing one candidate with strict `<` keeps the loop invariant. The best path beats or ties every candidate compared so far and the seed. It is the earliest candidate with its gold, and the seed is replaced only on strictly more gold. |
| `ExhaustiveSearch.KeptNextLength` | gnomes_algs.hpp:40-42 | Finishing all 2^i patterns of length i is the start of length i + 1. |
| `ExhaustiveSearch.GreedyGnomesExhaustive` | gnomes_algs.hpp:30-58 | Requires a non-empty grid and rows + columns - 2 < 64. The result is valid and has at least the fresh path's gold and every candidate's gold. It is the fresh path, or the first enumerated candidate with that gold. It is optimal over all valid routes. |
| `DynamicProgramming.Better` | gnomes_algs.hpp:99-111 | Absent exactly when both candidates are absent. Otherwise it is one of them, with gold at least each present one's, and from above on a tie. |
| `DynamicProgramming.DpEntry` | gnomes_algs.hpp:70-111 | A rock's entry is absent. A present entry is a valid path ending at its own cell. |
| `DynamicProgramming.DpEntryOptimal` | gnomes_algs.hpp:71-115 | With a passable origin, an entry is absent exactly when no valid route reaches the cell. Otherwise it has the most gold of any valid route to the cell. |
| `DynamicProgramming.CombineNeighbours` | gnomes_algs.hpp:87-111 | Extending the present neighbours by one step onto a passable cell, and keeping the better one, gives the cell's entry. |
| `DynamicProgramming.FillTable` | gnomes_algs.hpp:67-115 | The table is newly allocated and has the grid's shape. Every cell (i, j) holds `DpEntry(g, i, j)`. |
| `DynamicProgramming.ScanTable` | gnomes_algs.hpp:117-127 | The result is a present entry with gold at least every present entry's. It is the first such entry in row-major order. |
| `DynamicProgramming.GreedyGnomesDynProg` | gnomes_algs.hpp:61-128 | Requires a non-empty grid with a passable origin. The result is optimal over all valid routes. It is the first table entry, in row-major order, with that gold. |
| `Agreement.OptimalGoldUnique` | gnomes_algs.hpp:30-128 | Two optimal paths over one grid collect the same gold. |
| `Agreement.SolversAgree` | gnomes_algs.hpp:30-128 | On a grid both solvers accept, they return paths with equal gold. |

## Left out

* `gnomes_types.hpp` is not part of this model. `grid` and `path` are modelled
  from how `gnomes_algs.hpp` uses them (`rows`, `columns`, `get`,
  `is_step_valid`, `add_step`, `total_gold`, copy by value). A fresh path is
  taken to hold the origin's gold, and a rock origin gives 0 gold.
* Grid loading, printing and timing are not modelled.
* `pow(2, i) - 1` at gnomes_algs.hpp:42 is a floating-point value. The model
  uses the integer 2^i, so `bit` runs over 0 to 2^i - 1. In the source, for i
  of 54 or more, both sides of `bit <= pow(2, i) - 1` are rounded to double
  with ties to even. The loop then also visits every `bit` from 2^i up to
  2^i + 2^(i-53): three extra patterns at i = 54 and 1025 at i = 63. Each of
  them has bit i set, so their last attempt may move RIGHT. These candidates
  are compared too. They cannot raise the gold above the optimum, but they
  can change which path is returned. They are not modelled.
* The `assert` calls that abort the process are modelled as `requires`
  clauses. The same holds for the null dereference of `a[0][0]` at
  gnomes_algs.hpp:118 when the origin is a rock.
* The heap-allocated `path *` values, their leaks and the variable-length
  stack array are not modelled. The table is an
  `array2<Option<Path>>`, and every cell is written before it is read.
* The `size_t` width is not modelled: the preconditions keep every index and
  every `bit` below 2^64. The gold total is an unbounded `nat`.
* The candidate loop (gnomes_algs.hpp:44-52) and the per-cell choice
  (gnomes_algs.hpp:87-111) sit in their own methods, `BuildCandidate` and
  `CombineNeighbours`. In the source they are inline.
* Running-time claims (exponential vs. rows times columns) are not modelled.
