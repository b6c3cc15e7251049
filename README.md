# 0/1 knapsack solver — a verified model

This project models the dynamic-programming solver for the 0/1 knapsack
problem in `Algorithm/Knapsack.cs`. The solver takes item values, item
weights and a capacity. It returns the maximum value, a list with one 0/1
entry per item, and an elapsed time.

The solver works in two phases, and the model keeps them apart:

- **Forward pass** (`Knapsack.ForwardPass`). Two `int` rows `prevDp` and
  `currDp` of `capacity + 1` entries start at zero. For each item, `currDp` is
  filled from `prevDp` at every capacity, from the top down. An item that is
  too heavy carries the entry forward. Otherwise the entry is the larger of
  skipping the item and taking it. The row is then copied back into `prevDp`.
  The model keeps both rows as Dafny arrays, the nested loops as loops and the
  copy as a parallel assignment. It proves that after item `i` the row equals
  the recurrence `Best(i, ·)`.
- **Traceback** (`Knapsack.Traceback`). Starting with the whole capacity left,
  the items are visited from last to first. An item is marked when it fits and
  `row[left] == row[left - weight] + value` holds in the *final* row. Its weight
  is then subtracted. The list of marks is a `seq<int>` that the loop
  reassigns entry by entry.

`Knapsack.Knapsack` puts the two together. Its contract says:

- the maximum value is `Best(n, capacity)`, and that is the optimum over every
  selection that fits;
- the list has one 0/1 entry per item, and the marks are exactly those of the
  traceback run on the final row;
- the marked weight fits in the capacity;
- the marked values plus the final-row entry at the capacity left add up to the
  maximum value;
- an empty item list gives 0 and an empty list.

Spec functions: `Best` (the recurrence), `Row`, `SelWeight`/`SelValue` (the
totals of a 0/1 selection), `IsOptimum`, and `Marked` (the traceback as
written, as a recursive function).

Item values may be of any sign. None of the proved properties needs
non-negative values. Non-negative weights are required: the source does not
check them, and a negative weight makes the row index `w - weight` (line 77) or
`left - weight` (line 98) run past the end of the row. The weights list must be
at least as long as the values list. A longer weights list is accepted, as in
the source, which reads only the first `values.Count` weights. A shorter one
makes the source fail reading `weights[i - 1]` at line 72. The loader fills both
lists together, one value and one weight per line (lines 41-46), so the solver
never sees that case.

The traceback does **not** always give an optimal selection (see Findings). The
model therefore proves only what the code guarantees: the bounds and the
telescoping sum. A capacity of 0 does not force a maximum value of 0 either. An
item of weight 0 fits at capacity 0 (`Knapsack.WeightlessItemFitsAtZero`).

## Model

| member | source | states |
|---|---|---|
| `Knapsack.Max` | Algorithm/Knapsack.cs:77 | The larger of two values: at least both of them, and equal to one of them. |
| `Knapsack.Best` | Algorithm/Knapsack.cs:62-84 | Every DP entry, for every prefix of items and every capacity, is at least 0, the value of taking nothing (the rows start at zero). |
| `Knapsack.Row` | Algorithm/Knapsack.cs:62-87 | The row after any number of items has `capacity + 1` entries. None of them is negative, and the row is non-decreasing in the capacity. |
| `Knapsack.RowsGrow` | Algorithm/Knapsack.cs:66-87 | A later row is pointwise at least an earlier one: processing more items never lowers any entry of `prevDp`. |
| `Knapsack.ForwardPass` | Algorithm/Knapsack.cs:59-87 | The final `prevDp` is a fresh array of `capacity + 1` entries, and entry `w` equals `Best(n, w)` for every `w` in 0..capacity. The loop invariants say row `i` equals `Best(i, ·)` after each copy-back. Every index read (`w`, `w - weight`) is within the row. |
| `Knapsack.BestMonotoneInCapacity` | Algorithm/Knapsack.cs:72-82 | Every row is non-decreasing in the capacity: `w1 <= w2` implies `Best(i, w1) <= Best(i, w2)`, for values of any sign. |
| `Knapsack.BestGrowsWithItems` | Algorithm/Knapsack.cs:77-82 | Processing more items never lowers an entry: `i <= j` implies `Best(i, w) <= Best(j, w)`. |
| `Knapsack.BestBoundsEveryChoice` | Algorithm/Knapsack.cs:66-89 | No 0/1 selection of the first `i` items whose weight fits in `w` is worth more than `Best(i, w)`. |
| `Knapsack.OptimalChoice` | Algorithm/Knapsack.cs:91-105 | Corrected traceback: a 0/1 selection of the first `i` items that fits in `w` and is worth exactly `Best(i, w)`. Each item is checked against the row from before that item. |
| `Knapsack.BestIsOptimum` | Algorithm/Knapsack.cs:66-89 | `Best(n, capacity)` is the optimum. Every selection that fits is worth at most that much, and some selection that fits is worth exactly that much. |
| `Knapsack.WeightlessItemFitsAtZero` | Algorithm/Knapsack.cs:72-77 | An item of weight 0 passes the fit test at capacity 0, so one such item of value 7 gives 7 at capacity 0. |
| `Knapsack.Marked` | Algorithm/Knapsack.cs:95-104 | The traceback's marks on the first `i` items form a list of exactly `i` entries. |
| `Knapsack.MarkedIsChoice` | Algorithm/Knapsack.cs:92-101 | Every entry the traceback leaves in the list is 0 or 1. |
| `Knapsack.MarkedWeightFits` | Algorithm/Knapsack.cs:98-103 | For any row, the weight the traceback marks is between 0 and the capacity it starts with. |
| `Knapsack.TracebackTelescopes` | Algorithm/Knapsack.cs:89-104 | For any row, the marked weight is between 0 and the starting capacity. The marked values plus the row entry at the capacity left equal the row entry at the starting capacity. |
| `Knapsack.TracebackStep` | Algorithm/Knapsack.cs:95-104 | One visit keeps the loop's bookkeeping. Unvisited entries stay 0. The capacity left stays in 0..capacity and equals the capacity minus the marked weight. Finishing the walk still yields the whole traceback. |
| `Knapsack.TracebackDone` | Algorithm/Knapsack.cs:91-105 | When the walk ends, the list is the whole traceback: 0/1 entries, marked weight within the capacity and equal to the capacity minus the capacity left, and marked values plus `row[left]` equal to `row[capacity]`. |
| `Knapsack.TracebackMissesOptimum` | Algorithm/Knapsack.cs:89-105 | Take one item (value 5, weight 1) and capacity 2. The final row is `[0, 5, 5]`, so the traceback marks nothing and the marked value is 0. The optimum is 5, and the corrected traceback takes the item. |
| `Knapsack.Traceback` | Algorithm/Knapsack.cs:91-105 | The returned list equals `Marked(row, n, capacity)`. It has n entries, each 0 or 1. The marked weight is within 0..capacity. The marked values plus `row[capacity - marked weight]` equal `row[capacity]`. Its loop invariant keeps the capacity left in 0..capacity and equal to the capacity minus the weight marked so far. |
| `Knapsack.Knapsack` | Algorithm/Knapsack.cs:53-111 | `maxValue == Best(n, capacity)`, and it is the optimum over all selections that fit. `itemsIncluded` is the traceback on the final row: n entries, each 0/1, with total weight at most the capacity. Marked values plus `Best(n, capacity - marked weight)` equal `maxValue`. No items gives 0 and an empty list. |

## Left out

- `Main` (Algorithm/Knapsack.cs:9-25): a fixed data file path and console output only.
- `ReadDataFromFile` (Algorithm/Knapsack.cs:28-50): file reading and the library's string splitting and integer parsing, which the model cannot see. The solver takes the parsed values, weights and capacity as parameters.
- The stopwatch and the elapsed seconds (Algorithm/Knapsack.cs:56, 107-108): wall-clock time as a floating-point number. `Knapsack.Knapsack` returns only the maximum value and the list.
- `Knapsack.Knapsack`: does not model C# 32-bit wrap-around in `prevDp[w - weight] + value` (line 77). Integers are unbounded, so the model matches the source only while every DP sum fits in 32 bits.
- `Knapsack.Knapsack`: a negative capacity is a precondition, not an error result. The source never checks it, and the runtime library fails instead. A capacity of -2 or less fails when the rows are allocated (lines 62-63). A capacity of -1 allocates two empty rows; the item loops and the copy do nothing, and the read `prevDp[capacity]` at line 89 fails with an index out of range. The same applies to negative weights, which make the source index outside the row.
- `Knapsack.Knapsack`: a weights list shorter than the values list is excluded by a precondition. The source would fail reading `weights[i - 1]` (line 72). Its loader fills both lists together (lines 41-46), so the case does not arise.
- The claim that capacity 0 always gives a maximum value of 0 is not made. The code admits weight-0 items there (`Knapsack.WeightlessItemFitsAtZero`).
- The claim that the marked values always sum to the maximum value is not made. The code does not guarantee it (see Findings). Only the telescoping sum with the final-row entry at the capacity left is proved.
- The lists are modelled as `seq<int>` values and the rows as arrays. Aliasing between the two rows cannot occur: both are allocated by the solver.

## Findings

| source | as written | input that shows it | evidently intended | confidence | as-written member | corrected member |
|---|---|---|---|---|---|---|
| Algorithm/Knapsack.cs:98 | The traceback tests `prevDp[left] == prevDp[left - weight] + value` against the final row for every item. For item i it never uses the row from before item i, because that row was overwritten by the copy-back at line 86. | values [5], weights [1], capacity 2: final row [0, 5, 5], 5 != 10, nothing marked, while `maxValue` is 5 | The marked items form a selection worth `maxValue` within the capacity. | high; not executed | `Knapsack.TracebackMissesOptimum` | `Knapsack.OptimalChoice` |
