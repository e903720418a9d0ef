# Supply and demand explorer: grid reconciliation and derived series

The supply and demand explorer shows an editable grid of rows. Each row holds a
price (the `cost` column), a supply quantity and a demand quantity, and any of
these cells may be empty. Beside the grid, a chart plots supply and demand
against price. All of the program's logic sits in the `App` view. This model
covers its two data operations:

- **Grid adapter** (`afterChange`). The grid reports a batch of cell changes
  `[row, prop, oldValue, newValue]` together with the origin of the batch.
  Nothing happens when there is no batch or when the batch comes from a
  programmatic data load. Otherwise the batch is applied, in order, to a copy
  of the row list. A row is replaced by a copy with the named cell set, but
  only when the row exists and its cell differs from the new value.
- **Derived series** (`sortedDataset`). The chart data keeps the rows whose
  three cells are all filled in. It then sorts them ascending by price with a
  stable sort (`toSorted` with the comparator `a.cost - b.cost`).

Files:

- `rows.dfy`, module `Rows`: the row record (`Row`, with `Option<real>` cells),
  the closed set of columns (`Field`), and reading and writing one cell
  (`Get`, `Set`).
- `grid_adapter.dfy`, module `GridAdapter`: the change source, the change
  record, and the fold that specifies a batch (`ApplyChange`, `ApplyChanges`,
  `Updated`). The method `AfterChange` copies the rows into an array and
  assigns array elements inside a loop, as the program does. It is proved
  equal to the fold. Lemmas cover "last change wins", untouched rows, dropped
  out-of-range changes and idempotence.
- `derived_series.dfy`, module `DerivedSeries`: the filter (`FilterComplete`),
  the stable sort (`SortByCost`, an insertion sort), and `SortedDataset`.
  Lemmas cover sortedness, permutation, exact membership and stability. A
  further lemma shows that every stable sort by price gives the same result.
- `scenarios.dfy`, module `Scenarios`: small worked examples of both
  operations.

The program calls the price column `cost`, and so does the model.

## Model

| member | source | states |
|---|---|---|
| `Rows.Row` | src/routes/index.tsx:30-34 | definition: a row holds a price (`cost`), a demand and a supply, each a number or empty (`null`) |
| `Rows.Field` | src/routes/index.tsx:70 | definition: the column key `prop as keyof RowShape`, one of the three declared columns `cost`, `supply`, `demand` |
| `Rows.Get` | src/routes/index.tsx:70 | definition: the value of the named cell of a row, the lookup `next[row][prop]` |
| `Rows.Set` | src/routes/index.tsx:72 | the copied row holds the new value in the named cell and the old values in the other two cells |
| `GridAdapter.Source` | src/routes/index.tsx:59-61 | definition: the origin of a change batch (`Handsontable.ChangeSource`); only `LoadData`, the `'loadData'` origin, is treated specially |
| `GridAdapter.Change` | src/routes/index.tsx:58-67 | definition: one reported cell change `[row, prop, oldValue, newValue]` (`Handsontable.CellChange`) |
| `GridAdapter.InRange` | src/routes/index.tsx:69 | definition: the change's row index names an existing row of the copy, the test `next[row] &&` |
| `GridAdapter.ApplyChange` | src/routes/index.tsx:68-73 | one change keeps the length; it replaces only row `row`, with the old row's named cell set to `newVal`; it leaves the list unchanged when the row does not exist or the cell already holds `newVal` |
| `GridAdapter.ApplyChanges` | src/routes/index.tsx:66-75 | folding a batch over the copy never changes the number of rows |
| `GridAdapter.Updated` | src/routes/index.tsx:61-63 | the new row list has the old length, and it equals the old list when the batch is null or its source is `loadData` |
| `GridAdapter.AfterChange` | src/routes/index.tsx:56-79 | the loop over a copied array of the rows gives exactly the fold of the batch, or the old rows for a null batch or a `loadData` source |
| `GridAdapter.ApplyChangesCell` | src/routes/index.tsx:67-74 | after a batch, each cell of an existing row holds the new value of the last change naming it, or its old value when no change names it (last change wins) |
| `GridAdapter.UntouchedRow` | src/routes/index.tsx:66-74 | a row that no change of the batch names comes out unchanged |
| `GridAdapter.OutOfRangeDropped` | src/routes/index.tsx:68-69 | a change naming a row that does not exist is silently dropped: the batch has the same effect without it, wherever it appears |
| `GridAdapter.ApplyChangesIdempotent` | src/routes/index.tsx:67-74 | applying a batch to its own result changes nothing |
| `GridAdapter.UpdatedIdempotent` | src/routes/index.tsx:56-79 | reporting the same batch twice gives the same rows as reporting it once |
| `DerivedSeries.Complete` | src/routes/index.tsx:50 | definition: a row passes the filter's guard when its price, supply and demand are all non-null |
| `DerivedSeries.CompleteAllCells` | src/routes/index.tsx:50 | a row passes the guard exactly when every one of its three cells is filled in |
| `DerivedSeries.FullRow` | src/routes/index.tsx:46-49 | definition: the type the guard narrows a kept row to, a row whose price, supply and demand are all numbers |
| `DerivedSeries.CostOf` | src/routes/index.tsx:52 | definition: the sort key of the comparator, the price `a.cost` of a complete row |
| `DerivedSeries.FilterComplete` | src/routes/index.tsx:43-51 | a row is kept exactly when it is in the grid and has all three cells filled in, and it is kept as many times as it occurs there |
| `DerivedSeries.FilterCompleteAppend` | src/routes/index.tsx:43-51 | the filter keeps grid order: for a grid extended by one row, the kept rows are the old kept rows followed by the new row exactly when it is complete |
| `DerivedSeries.Insert` | src/routes/index.tsx:52 | inserting a row adds exactly that row to the sequence |
| `DerivedSeries.InsertSorted` | src/routes/index.tsx:52 | inserting into a sequence sorted by price keeps it sorted |
| `DerivedSeries.InsertWithCost` | src/routes/index.tsx:52 | an inserted row goes before every row of its own price and leaves the order of every price group unchanged |
| `DerivedSeries.SortByCost` | src/routes/index.tsx:52 | the sort output is ascending by price and is a permutation of its input |
| `DerivedSeries.SortByCostStable` | src/routes/index.tsx:52 | for every price, the sort keeps the rows of that price in their input order |
| `DerivedSeries.SortByCostIsStableSort` | src/routes/index.tsx:52 | the sort output is sorted and keeps the input order within every price |
| `DerivedSeries.StableSortUnique` | src/routes/index.tsx:52 | any sequence that is sorted by price and keeps the input order within every price equals the sort's output, so the result does not depend on the engine's sorting algorithm |
| `DerivedSeries.SortedDataset` | src/routes/index.tsx:41-53 | the series is ascending by price and is a permutation of the filtered rows; a row appears exactly when it is in the grid with all cells filled in; an empty grid gives an empty series |
| `DerivedSeries.SortedDatasetStable` | src/routes/index.tsx:41-53 | in the series, rows of equal price keep the order the filter gives them, which is their grid order (`FilterCompleteAppend`) |
| `DerivedSeries.SortedDatasetAppendStable` | src/routes/index.tsx:41-53 | stability on the grid: a complete row added at the end of the grid comes after every series row of its own price, and the rows of every other price stay as they were |
| `Scenarios.SeriesExample` | src/routes/index.tsx:41-53 | rows priced 10 and 5 come out as 5 then 10, and a row missing its price and demand is excluded |
| `Scenarios.SortTieExample` | src/routes/index.tsx:52 | with prices 7, 3, 7, the row priced 3 moves first and the two rows priced 7 keep their order |
| `Scenarios.EditExample` | src/routes/index.tsx:65-75 | an edit setting price 10 in an empty first row fills in that cell only |
| `Scenarios.UnchangedValueExample` | src/routes/index.tsx:68-72 | re-entering the price a row already has leaves the rows equal to what they were |
| `Scenarios.LoadDataExample` | src/routes/index.tsx:61-63 | a batch with source `loadData` is ignored whatever it contains |

## Left out

- React state machinery (`useState`, `useMemo`, `useCallback`, `useEffect`) and the timing of re-renders. The state update is modelled as a method from the old row list to the new one.
- The diagnostic `console.debug(JSON.stringify(data))`. It is output with no effect on the data.
- Grid and chart widget configuration and rendering, including the spare empty row the grid adds (`minSpareRows`) and the row template it creates it from (`dataSchema`). The grid, not this code, does both.
- `src/routes/__root.tsx`: theme, global styles and the router shell, all presentational.
- JavaScript number semantics. Prices and quantities are exact `real`s, so there is no NaN (which `!==` never treats as equal to itself), no infinity and no rounding in the comparator `a.cost - b.cost`. For exact values, the sign of `a.cost - b.cost` is the order of the two prices.
- Values smuggled in through the `as any` and `as string` casts. `prop` is restricted to the three declared columns, and `newVal` to a number or `null`. A non-integer row index and the difference between `null` and `undefined` are not modelled either.
- Reference identity. The model compares rows and lists by value. The updater always returns a fresh array `[...prev]`, so a batch whose changes are all no-ops gives a list equal in value to the old one but not the same reference; the model does not show this, nor that an unchanged row keeps its object identity.
- The engine's sorting algorithm for `toSorted`. The model sorts by insertion; `StableSortUnique` proves that every stable sort by price gives the same sequence.
- Change sources other than a data load are represented by `Edit` and `Other`. The program treats every source other than `loadData` in the same way.
