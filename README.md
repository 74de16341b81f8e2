# Fractional allocation solver, modelled in Dafny

The program divides a fixed total quantity of a resource among three or more uses so that
the total revenue is largest. It has two parts, and this project models both:

- **The enumerator** `iterateFixedQuantity(totalQuantity, interval, numDimensions)`. It
  works like an odometer over one list that it changes in place. Entry 0 holds what is
  left of the total (the residual). Entries 1 .. N-1 are digits. Each step grows the
  lowest digit that still has room by one interval and resets the digits below it. Then
  entry 0 is recomputed as the residual. The enumerator stops when the last entry is
  within one interval of the total.
- **The search.** It refuses fewer than three uses. It walks every configuration the
  enumerator yields, with the interval set to one hundredth of the total. It adds up each
  use's revenue, `h * q * (m * (q * h) + b)`, and keeps a copy of the first configuration
  whose revenue is largest.

The modules follow the program:

- `Simplex` (simplex.dfy) holds the helper `sum` as a loop (`Sum`) and the step of the
  enumerator as pure functions on snapshots: `Scan` follows the `for`/`break` scan and
  `Step` adds the residual. It also holds what one step does to a configuration.
- `SimplexRank` (rank.dfy) gives the termination measure. The digits are read as a number
  in a base larger than any digit. That number is bounded, and every step raises it.
- `Enumeration` (enumeration.dfy) holds the generator as a class over an `array<real>`.
  The constructor is the setup plus the first `yield`. `HasNext` is the `while` test.
  `Next` is one pass of the loop body, proved to equal `Step`. The predicates `IsRun` and
  `IsEnumeration` describe the sequence of snapshots the generator yields. Lemmas about
  those predicates cover determinism, termination, strict progress and the worked example.
- `Allocation` (allocation.dfy) holds uses, prices, revenue and the search method `Search`.
  The search drives an `Enumerator` exactly as the `for` loop drives the generator.
- `Wrappers` (wrappers.dfy) holds `Option` and `Result`.

Quantities are exact `real` numbers. The search's `maxConfig = configuration.copy()` is a
sequence value in the model, so the kept configuration cannot change when the generator
later mutates its list.

Where the code's own comments and its behaviour part ways, the model follows the code:

- The comment on the `while` test (fractional-allocation-solver.py:20) reads as if the
  loop runs until the last entry has taken up the entire total. The test is a strict `>`
  against one interval, and the scan on line 22 grows a digit only when the total exceeds
  that digit and the digits above it by MORE than one interval. So the last entry never
  absorbs the whole total, and no configuration after the first has a zero residual. For
  total 10, interval 2 and three uses, the generator yields 15 configurations from
  `[10, 0, 0]` to `[2, 0, 8]`, not the 21 grid points of the simplex; `[0, 0, 10]` is never
  yielded (`Enumeration.TenInStepsOfTwoIsTheEnumeration`). In general the yielded
  configurations are exactly the admissible ones: entries adding up to the total, digits
  on the interval grid, and a positive residual unless the configuration is the first
  (`Enumeration.EnumerationCovers`).
- Neither the generator nor the search checks its total or interval. With a total of zero
  or less, the search's interval `total / 100` makes the `while` test fail at once. The
  only configuration is then `[total, 0, ..., 0]`, and `Search` returns it. The
  enumerator's constructor requires a positive interval or a failing first test, because
  otherwise the loop would never stop.
- The residual on line 27 is not clamped, and nothing guards the price evaluation. With
  exact reals the residual is never negative after the first step
  (`Simplex.StepKeepsAdmissible`).

## Model

| member | source | states |
|---|---|---|
| `Simplex.Sum` | fractional-allocation-solver.py:7-11 | the loop returns the sum of the entries from `dimension` to the end of the list, and 0 when `dimension` is at or past the end |
| `Simplex.SumFromUpdate` | fractional-allocation-solver.py:7-11 | changing one entry moves every suffix sum that covers it by the difference and leaves the later suffix sums alone |
| `Simplex.SumFromSnoc` | fractional-allocation-solver.py:7-11 | appending an entry adds it to every suffix sum |
| `Simplex.Initial` | fractional-allocation-solver.py:14-16 | the first list has one entry per dimension (at least one), the whole total in entry 0 and zeros elsewhere |
| `Simplex.InitialIsAdmissible` | fractional-allocation-solver.py:13-18 | the first configuration adds up to the total and its digits are whole multiples of the interval |
| `Simplex.Guard` | fractional-allocation-solver.py:20 | the `while` test: the last entry is more than one interval short of the total; it has no contract of its own, and `Simplex.StepGrowsOneDigit` and `Enumeration.RunEndsInEnumeration` say what passing and failing it mean |
| `Simplex.Scan` | fractional-allocation-solver.py:21-26 | the `for`/`break` scan from digit d; its own contract states only that the length is kept, and `Simplex.ScanGrowsLowestRoom` gives its meaning |
| `Simplex.Step` | fractional-allocation-solver.py:21-27 | one pass of the `while` body; its own contract states only that the length is kept, and `Simplex.StepGrowsOneDigit`, `Simplex.StepKeepsAdmissible`, `Simplex.StepSumsToTotal` and `SimplexRank.StepLowersRemaining` give its meaning |
| `Simplex.ScanGrowsLowestRoom` | fractional-allocation-solver.py:21-26 | while the last digit has room, the scan stops at the lowest digit with room, grows it by one interval and resets every digit it passed |
| `Simplex.StepGrowsOneDigit` | fractional-allocation-solver.py:20-27 | each step grows exactly one digit p >= 1 by one interval; it resets the digits 1 .. p-1, keeps the digits above p, and recomputes entry 0 as the residual; the scan never falls through |
| `Simplex.StepKeepsAdmissible` | fractional-allocation-solver.py:21-27 | a step keeps the digits non-negative whole multiples of the interval and entry 0 equal to total minus digits, and leaves entry 0 strictly positive |
| `Simplex.StepIsColexGreater` | fractional-allocation-solver.py:21-26 | the digits read from the last one down move strictly forward in lexicographic order |
| `Simplex.StepSumsToTotal` | fractional-allocation-solver.py:27 | after the residual is recomputed the entries add up to the total, whatever the digits |
| `SimplexRank.StepLowersRemaining` | fractional-allocation-solver.py:20-27 | each step keeps the configuration admissible and strictly lowers a natural-number measure, so the loop stops |
| `Enumeration.Enumerator.constructor` | fractional-allocation-solver.py:13-18 | builds a fresh list equal to `[total, 0, ..., 0]` and records the total and interval |
| `Enumeration.Enumerator.HasNext` | fractional-allocation-solver.py:20 | the `while` test on the live list holds exactly when `Simplex.Guard` holds of its contents |
| `Enumeration.Enumerator.Next` | fractional-allocation-solver.py:21-27 | the in-place scan and residual update turn the list into `Step` of its old contents, keep it valid and lower the termination measure |
| `Enumeration.IsRun` | fractional-allocation-solver.py:13-29 | a prefix of what the generator yields: it starts with `Initial`, and each configuration passes the `while` test and is followed by its step; no contract of its own, `Enumeration.RunInvariants` and `Enumeration.RunExtends` give its meaning |
| `Enumeration.IsEnumeration` | fractional-allocation-solver.py:13-29 | everything the generator yields: a run whose last configuration fails the `while` test; no contract of its own, `Enumeration.EnumerationIsUnique`, `Enumeration.RunEndsInEnumeration` and `Enumeration.EnumerationCovers` give its meaning |
| `Enumeration.RunExtends` | fractional-allocation-solver.py:20-29 | a run whose last configuration passes the `while` test goes on with that configuration's step |
| `Enumeration.RunInvariants` | fractional-allocation-solver.py:13-29 | every yielded configuration has N entries that add up to the total, digits on the interval grid, and after the first a positive residual |
| `Enumeration.RunSumsToTotal` | fractional-allocation-solver.py:13-29 | every yielded configuration has N entries and adds up to the total |
| `Enumeration.RunEntriesNonNegative` | fractional-allocation-solver.py:13-29 | for a non-negative total, no yielded entry is negative |
| `Enumeration.RunMovesForward` | fractional-allocation-solver.py:20-29 | consecutive yielded configurations are in strictly increasing lexicographic order of their digits |
| `Enumeration.RunHasNoRepeats` | fractional-allocation-solver.py:20-29 | the measure strictly falls along a run, so no configuration is yielded twice |
| `Enumeration.EnumerationIsUnique` | fractional-allocation-solver.py:13-29 | the generator is deterministic: two complete enumerations for the same arguments are equal |
| `Enumeration.RunEndsInEnumeration` | fractional-allocation-solver.py:20 | every run extends to a complete enumeration, so the `while` loop always stops |
| `Enumeration.EnumerationCovers` | fractional-allocation-solver.py:13-29 | a complete enumeration yields exactly the admissible configurations of width N: each yielded one is admissible, and every admissible one is yielded |
| `Simplex.StepHasPredecessor` | fractional-allocation-solver.py:20-27 | every admissible configuration other than the first is the step of an admissible configuration that passes the `while` test |
| `Enumeration.SingleDimensionYieldsOnce` | fractional-allocation-solver.py:13-20 | with one dimension (or none) exactly one configuration, `[total]`, is yielded |
| `Enumeration.TenInStepsOfTwoIsTheEnumeration` | fractional-allocation-solver.py:13-29 | total 10, interval 2, three dimensions yield exactly 15 configurations, the first `[10, 0, 0]` and the last `[2, 0, 8]`, all with a positive residual |
| `Allocation.Linear.At` | fractional-allocation-solver.py:31-34 | the closure `getLinear(m, b)` returns, evaluated at x; no contract of its own, `Allocation.MakeUse` and `Allocation.RevenueIsQuadratic` give its meaning |
| `Allocation.MakeUse` | fractional-allocation-solver.py:31-45 | the use keeps its name and `h`, and its price is affine: `b` at 0 and slope `m` |
| `Allocation.Revenue` | fractional-allocation-solver.py:46-47 | a zero quantity or a zero `h` earns nothing |
| `Allocation.RevenueIsQuadratic` | fractional-allocation-solver.py:46-47 | the revenue is `m*x^2 + b*x` in the units produced, `x = h * quantity` |
| `Allocation.TotalRevenue` | fractional-allocation-solver.py:80-83 | the revenue of a configuration, summed over the uses; no contract of its own, `Allocation.TotalRevenueUpdate`, `Allocation.NothingAllocatedEarnsNothing` and `Allocation.ConfigurationRevenue` give its meaning |
| `Allocation.TotalRevenueUpdate` | fractional-allocation-solver.py:80-83 | the configuration revenue is a sum over the parallel indices: changing one use or one quantity changes it by exactly that use's change in revenue |
| `Allocation.NothingAllocatedEarnsNothing` | fractional-allocation-solver.py:80-83 | a configuration of zeros earns nothing |
| `Allocation.ConfigurationRevenue` | fractional-allocation-solver.py:80-83 | the inner loop returns the total revenue of the configuration |
| `Allocation.FirstBestExtends` | fractional-allocation-solver.py:84-86 | the strict `<` replaces the kept configuration exactly when the new one earns more, and this keeps the earliest maximum |
| `Allocation.FirstBestIsUnique` | fractional-allocation-solver.py:84-86 | there is only one earliest maximum |
| `Allocation.Search` | fractional-allocation-solver.py:70-86 | fails with `TooFewUses` exactly when there are fewer than three uses; otherwise it returns, with its revenue, the earliest configuration of largest revenue among everything the generator yields for the total in steps of total/100 |
| `Allocation.RaisedSlopeNeverAllocatesLess` | fractional-allocation-solver.py:79-86 | raising the slope `m` of one use's price never lowers the quantity the earliest maximum gives that use, over any candidates that give it non-negative quantities |
| `Allocation.RaisedSlopeSearchAllocatesMore` | fractional-allocation-solver.py:70-86 | for every total, the configuration the search keeps gives a use at least as much after its slope `m` is raised as before; with a total of zero or less only the first configuration is yielded (`Allocation.OnlyFirstWithoutPositiveTotal`) |
| `Allocation.SlopeGainGrows` | fractional-allocation-solver.py:46-47 | the revenue a raised slope `m` adds grows with the non-negative quantity |
| `Allocation.SlopeGain` | fractional-allocation-solver.py:46-47 | the revenue a raised slope `m` adds is the rise in slope times the square of the units sold |
| `Allocation.FlatPriceRevenue` | fractional-allocation-solver.py:46-47 | with flat prices paying `p` per unit of resource, a configuration earns `p` times what it allocates |
| `Allocation.FlatPriceEarnsTheSame` | fractional-allocation-solver.py:79-83 | with such prices every yielded configuration earns `p` times the total |
| `Allocation.FlatPriceKeepsFirst` | fractional-allocation-solver.py:84-86 | with such prices the search keeps the very first configuration `[total, 0, ..., 0]` |

## Left out

Line numbers below refer to fractional-allocation-solver.py.

- Reading `sample-data` and parsing its JSON (lines 49-57 and 62-68). `Search` takes the
  uses and the total as parameters.
- The message and `exit()` for fewer than three uses (lines 70-72). They become the
  `TooFewUses` error result.
- Printing the result (lines 91-93). `Search` returns the best configuration and its
  revenue.
- The imports of `json`, `numpy` and `matplotlib` (lines 1-4). Nothing in the core uses
  them.
- `getExponential` (lines 36-39). Nothing calls it, and it raises a real number to a real
  power.
- Floating-point rounding. Quantities are exact reals, so the drift in the residual and
  in the termination test is not modelled.
- Laziness of the generator. The model runs the generator to the end inside `Search`; the
  yielded list is one array that `Next` mutates, as in the source.
- Enumeration.Enumerator.constructor: requires a positive interval, or a `while` test
  that fails at once. With any other arguments the source loops forever.
- Allocation.Search: the contract describes the whole run through a ghost list of the
  yielded configurations, not through the live list.
