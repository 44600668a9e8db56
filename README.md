# panfea heat simulation, modelled in Dafny

panfea.c simulates heat spreading through brownie batter baking in a metal
pan. The pan is cut into a grid of `divperlength` by `divperwidth` cells,
each either pan metal or brownie. `appInit` reads a header of physical
parameters and a material mask into a flat array of cells. `simulate`
advances the grid by one explicit finite-difference step and reports
whether every interior cell has reached the temperature `tempDone`.

The model has four modules.

- `Grid` (grid.dfy) covers cell addressing. `panCoord` maps cell (x, y) to
  index `divperlength * y + x`. The module proves this is a bijection onto
  the array and that every neighbour `simulate` reads is in bounds. It also
  holds the loop-sweep predicate (`SweptTo`) that the imperative loops share.
- `Heat` (heat.dfy) is the numerical scheme, written as functions on the
  sequence of cells:
  - the heat flow between two cells, with its resistance in series;
  - the exchange with the air;
  - the delta pass, the apply pass, one whole step, and the stop predicate.
  It also holds the lemmas about the scheme.
- `Mask` (mask.dfy) covers the header-derived configuration, the decoding
  of the mask and the diagnostics printed for bad tags. It includes an
  encoder that decoding inverts, and `DecodeMask`, the imperative loop of
  `appInit` over the cell array.
- `Driver` (driver.dfy) holds `Application` (`struct application`). It is a
  class with the 32-bit wrapping iteration counter, the configuration and
  the cell `array`. Its methods run the two passes of `simulate` in place
  and are proved equal to the functions of `Heat`. `AppInit` builds an
  `Application` from a header and a mask.

Temperatures and other `long double` / `double` quantities are real numbers.
Every division the source performs is therefore required to have a nonzero
divisor (`Heat.FlowsDefined`).

## Model

| member | source | states |
|---|---|---|
| Grid.PanCoord | panfea.c:262-265 | defines the flat index of cell (x, y) as divperlength * y + x; the lemmas below show it is a bijection from the grid onto [0, L*W) |
| Grid.CoordInRange | panfea.c:262-265 | every in-grid cell (x, y) has an index in [0, L*W) |
| Grid.CoordInjective | panfea.c:262-265 | two cells whose x lies within a row and whose panCoord is equal are the same cell |
| Grid.CoordDecode | panfea.c:262-265 | the index of (x, y) gives back x as index % L and y as index / L |
| Grid.CoordOnto | panfea.c:262-265 | every index in [0, L*W) is the panCoord of the in-grid cell (c % L, c / L) |
| Grid.NeighboursInBounds | panfea.c:101-110 | for every interior cell the loops visit, its index and the four adjacents indices lie in the array and differ from the centre |
| Grid.VisitedStep | panfea.c:101-102 | advancing the inner loop from (i, j) to (i, j+1) adds exactly cell (i, j) to the cells visited |
| Grid.SweptStep | panfea.c:101-102 | writing cell (i, j)'s target value moves a row-by-row sweep one cell on, and the cell still held its old value |
| Grid.SweptAll | panfea.c:101-102 | a sweep that has visited every cell whose value changes has produced the target array |
| Grid.LoopBoundAsWritten | panfea.c:101-102 | the unsigned bound `n - 1` is 2^32 - 1 for n == 0 and n - 1 otherwise |
| Grid.ZeroWidthOverrunsAsWritten | panfea.c:101-110 | with divperwidth 0 and divperlength >= 3 the loops as written admit (1, 1), which is not interior; its index is L + 1 while the array holds L * 0 == 0 cells |
| Heat.HeatFlow | panfea.c:120-124 | defines the heatflow between a cell and a neighbour: their temperature difference over the resistance in series (len / own diffusivity + len / neighbour's diffusivity + 1 / contactres); its sign and antisymmetry are proved in Heat.HeatFlowsDownhill and Heat.ConductionAntisymmetric |
| Heat.AirTerm | panfea.c:127-128 | defines the exchange with the air, (airtemp - temp) * divlength * divwidth * contactres, added once per cell; it vanishes at equilibrium (Heat.Equilibrium) |
| Heat.ConductionReadsOnlyFields | panfea.c:120-125 | the heatflow, and the heat it carries, read only the temperatures and diffusivities of the two cells |
| Heat.FlowSumNext | panfea.c:119-126 | one round of the k loop adds the heatflow to adjacents[k] times lengths[k] times pandepth, with adjacents[k] an in-bounds index other than coord |
| Heat.AccumulateNext | panfea.c:125 | the in-place `delta +=` of one neighbour's heat on one array element gives the array with that cell's running sum advanced by that neighbour's flow, nothing else changed |
| Heat.CellDelta | panfea.c:118-128 | defines the delta of an interior cell: the running sum of the four neighbour flows plus the air term; written out in Heat.DeltaFormula |
| Heat.DeltaPass | panfea.c:101-130 | the delta pass changes only delta fields, and only those of interior cells |
| Heat.DeltaPassAt | panfea.c:101-130 | after the delta pass, cell (x, y) holds CellDelta when interior and is unchanged otherwise |
| Heat.DeltaFormula | panfea.c:111-128 | an interior delta is the four neighbour flows (divlength faces for i±1, divwidth faces for j±1) times face length times pandepth, plus (airtemp - temp) * divlength * divwidth * contactres |
| Heat.FlowsWrittenOut | panfea.c:104-125 | the k-th flow uses neighbour i-1, i+1, j-1 or j+1 and the matching face length |
| Heat.FlowSumWrittenOut | panfea.c:118-126 | the delta is reset to 0 before the k loop, which then sums the four flows |
| Heat.DeltaReadsOnlyConduction | panfea.c:101-130 | a cell's delta depends only on temperatures and diffusivities, never on deltas already written, so the in-place pass reads only pre-step values |
| Heat.FlowsDefinedByDiffusivity | panfea.c:120-124 | whether every heatflow's divisors are nonzero depends only on the diffusivities |
| Heat.DeltaPassIdempotent | panfea.c:101-130 | repeating the delta pass on its own output changes nothing |
| Heat.ApplyPass | panfea.c:136-139 | the apply pass changes only temp fields, and only those of interior cells |
| Heat.ApplyPassAt | panfea.c:136-139 | after the apply pass an interior cell's temp is temp + delta; every other cell is unchanged |
| Heat.Step | panfea.c:99-139 | one step keeps the array's length, changes only delta and temp fields and only those of interior cells, and keeps every divisor nonzero, so simulate can be called again on its result |
| Heat.AllDone | panfea.c:135-142 | defines the stop predicate: every interior cell's temp is at least tempDone; Heat.StepDoneIff and Driver.Application.ApplyDeltas relate it to the code's running test |
| Heat.StepAt | panfea.c:99-139 | one step leaves a boundary cell untouched; an interior cell gets delta d = CellDelta and temp + d, with mass, diffusivity and material unchanged |
| Heat.DoneBeforeStep | panfea.c:140-142 | testing one more interior cell conjoins exactly its temp >= tempDone |
| Heat.DoneBeforeAll | panfea.c:136-142 | once every interior cell is visited, the running test is the stop predicate |
| Heat.StepDoneIff | panfea.c:136-142 | a step reports done iff every interior cell's old temp plus its new delta is >= tempDone (both directions) |
| Heat.DoneWithoutInterior | panfea.c:135-142 | with divperlength <= 2 or divperwidth <= 2 there is no interior cell and done stays true |
| Heat.FlowSumAtRest | panfea.c:119-126 | when every temperature equals the air temperature, each partial sum of neighbour flows is 0 |
| Heat.Equilibrium | panfea.c:101-139 | with every cell at airtemp, every interior delta is 0 and a step leaves every temperature unchanged |
| Heat.ConductionAntisymmetric | panfea.c:120-125 | what a cell receives from a neighbour is the negation of what the neighbour receives from it |
| Heat.HeatFlowsDownhill | panfea.c:120-125 | with positive parameters, heat flows from the warmer cell to the colder one and not at all between equal temperatures |
| Heat.FlowsDefinedWhenPositive | panfea.c:120-124 | positive diffusivities, face lengths and contact resistance make every divisor nonzero |
| Heat.WarmestCellCools | panfea.c:111-128 | an interior cell warmer than the air and than its four neighbours gets a negative delta |
| Heat.HotCentreCools | panfea.c:99-142 | in a 3 x 3 pan with a hot centre and the rest at airtemp, the centre cools and the eight boundary cells stay exactly as they were |
| Mask.ConfigOf | panfea.c:188-217 | the configuration from the header: mm converted to m, divlength * divperlength == panlength and divwidth * divperwidth == panwidth, the other values copied |
| Mask.CellMass | panfea.c:207-208 | the brownie cell mass times divperlength times divperwidth is totalmass |
| Mask.ReadTag | panfea.c:225 | defines the byte the fread for cell (i, j) returns: the byte at offset 1 + i*(W+1) + j when the input reaches it, no byte otherwise; Mask.PositionAtEnd and Mask.DecodeRow tie it to the stream position |
| Mask.DecodeCell | panfea.c:226-245 | defines a cell after its tag: '0' sets material, temp and diffusivity of a pan cell; '1' sets material, temp, delta 0, mass and diffusivity of a brownie cell; anything else leaves the cell as allocated |
| Mask.Decoded | panfea.c:219-248 | defines the array after the mask loop, of the allocated length, index c holding cell (c % L, c / L) decoded from its tag; Mask.DecodedAt and Mask.DecodeEncode state its content |
| Mask.Diagnostics | panfea.c:238-245 | defines the reports of the mask loop in reading order; Mask.DiagnosticsExact characterises them |
| Mask.DecodedAt | panfea.c:221-237 | the tag read at (i, j) lands at index panCoord(i, j): '0' sets a pan cell, '1' a brownie cell with delta 0 and its mass, anything else leaves the cell as allocated |
| Mask.DiagnosticsExact | panfea.c:238-245 | a diagnostic is printed exactly for the in-grid cells whose tag is not '0' or '1', with its coordinates, index and whether the input had ended |
| Mask.TagOffsetBound | panfea.c:220-247 | every tag lies before offset L*(W+1), so the mask occupies 1 + L*(W+1) bytes |
| Mask.TagOffsetLayout | panfea.c:220-247 | the offset of a tag determines its row i and column j, and no tag lies on a skipped byte |
| Mask.NextRowOffset | panfea.c:247 | the skipped separator lies between the last tag of row i and the first tag of row i + 1 |
| Mask.PositionAtEnd | panfea.c:220-248 | after the loop the stream position is at most 1 + L*(W+1), and exactly that when the mask holds all the tags |
| Mask.EncodeRowsLength | panfea.c:220-248 | an encoded mask of L rows of W tags is L*(W+1) bytes after the leading byte |
| Mask.EncodeRowsAt | panfea.c:221-225 | the tag of row i, column j of an encoded mask sits at offset i*(W+1)+j |
| Mask.DecodeEncode | panfea.c:219-248 | decoding an encoded layout reads it back: no diagnostics, and each cell gets the material, temperature and diffusivity its tag names |
| Mask.DecodeRow | panfea.c:222-246 | reading row i sets exactly the cells (i, 0..W-1) to their decoded value and appends that row's diagnostics |
| Mask.DecodeMask | panfea.c:219-248 | the mask loop turns the allocated array into Decoded(prior, mask), returns Diagnostics(mask) and ends at offset 1 + L*(W+1) when the mask is complete |
| Driver.Application.constructor | panfea.c:186-187 | a new application holds the configuration and the cell array, and the counter starts at 0 |
| Driver.Application.AddNeighbourFlow | panfea.c:120-125 | one round of the k loop adds the heatflow times face length times pandepth to the cell's delta and changes nothing else |
| Driver.Application.AccumulateFlows | panfea.c:118-126 | resetting the delta and running the k loop leaves the sum of the four flows in the cell's delta, with nothing else changed |
| Driver.Application.ComputeCellDelta | panfea.c:103-128 | one cell's body of the first double loop sets exactly that cell's delta to CellDelta of the pre-step array |
| Driver.Application.ComputeDeltas | panfea.c:101-130 | phase one turns the array into DeltaPass of the pre-step array |
| Driver.Application.ApplyDeltas | panfea.c:135-142 | phase two turns the array into ApplyPass of its input, and done is the stop predicate on the result |
| Driver.Application.Simulate | panfea.c:99-166 | the array becomes Step of the old array and keeps every divisor nonzero (so it can be called again), the result is the stop predicate on it, and iteration is incremented modulo 2^32 |
| Driver.AppInit | panfea.c:183-248 | a fresh application with ConfigOf(header), counter 0, cells Decoded(prior, mask) and the diagnostics Diagnostics(mask) |

## Left out

- `main`, `writeFile` and `appFree` are not part of this model. They cover argument handling, the snapshot files and freeing memory.
- The header is read with `fscanf` at panfea.c:188-217. The model takes the values as a `Header` parameter; the text parsing, and a read that fails, are not modelled.
- `malloc` leaves the cell array's contents undetermined. The model takes them as the `prior` parameter of `Mask.DecodeMask` and `Driver.AppInit`.
- Every `printf` is left out except the bad-tag report:
  - the statistics block of `simulate` (`tempchange`, `maxtemp`, `mintemp`, `average`) computes values that are only printed;
  - the closing report of `appInit`.
- The bad-tag report is modelled as a `Mask.Diagnostic` holding (i, j, coord, end of input). The raw character and the `ftell` position it also prints are not modelled.
- `long double` and `double` arithmetic is modelled as exact reals. Rounding, the conversions between the two, infinities and NaN are not modelled. For the same reason every divisor must be nonzero.
- The `conductivity` field of `struct pan` is never read or written, and `timestep` is never used by `simulate`. Neither takes part in the model. `timestep` is carried in the configuration.
- `panCoord` computes in 32-bit arithmetic, which the model does not capture: indices are unbounded integers. Grids whose L*W exceeds 2^31 are beyond the model.
- The first pass builds the `adjacents` and `lengths` arrays for each cell. The model computes the k-th entry on demand (`Grid.NeighbourCoord`, `Heat.FaceLength`), in the same order.
- Boundary cells are never updated: the code excludes them from both passes. The model follows the code, so in `Heat.HotCentreCools` the four cells beside the hot centre do not warm up.
- Bad tags and a premature end of input are reported and the cell is left as allocated; they are not fatal. The model follows the code.
- No lemma states global conservation. The code updates only interior cells, so the heat one of them receives from a boundary neighbour is not taken from that neighbour. Conservation holds only per pair (`Heat.ConductionAntisymmetric`).
- Driver.Application.Simulate: requires `Heat.FlowsDefined`, that every divisor of the heat flows is nonzero. The source divides regardless, with IEEE results, which are not modelled.
- Mask.ConfigOf: requires divperlength > 0 and divperwidth > 0 because `divlength` and `divwidth` are quotients by them. The source would produce an IEEE infinity.
- Driver.AppInit: requires divperlength > 0 and divperwidth > 0, for the same reason as `Mask.ConfigOf`.

## Findings

| source | as written | input that shows it | evidently intended | confidence | as-written member | corrected member |
|---|---|---|---|---|---|---|
| panfea.c:101-102, 136-137 | the loop bounds `sim->divperwidth - 1` and `sim->divperlength - 1` are unsigned, so a count of 0 makes the bound 2^32 - 1 | divperlength = 3, divperwidth = 0: the loops visit (1, 1) and index cell 4 of an empty array | a grid with no interior cells runs no iterations; the model's loops compare signed bounds, and every array access in them is proved in bounds (Grid.NeighboursInBounds) | not executed; follows from C's usual arithmetic conversions | Grid.ZeroWidthOverrunsAsWritten | Driver.Application.ComputeDeltas |
