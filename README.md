# Terrain generator with hydraulic erosion: a verified model

This project models the cell grid of `TerrainGenWater2` and the in-place rules
that move water and material between a cell and its neighbours. It is written in
Dafny.

The grid is 1024 by 1024 cells on a torus. Each cell holds rock (`Hard`),
sediment (`Loose`), water and a height delta. Two scratch buffers sit beside the
grid:
- `TempDiffMap`, one real per cell;
- `ErosionMap`, one cell per cell.

The operations are:
- rain from an atmospheric budget;
- four water-flow strategies: stochastic sampling, fast, slow and proportional;
- two sampled mass movements: slump and collapse;
- two point collapses;
- grid maintenance;
- the snapshot file format.

The generator is the class `Terrain.TerrainGenWater2`. Its arrays are Dafny
`array`s, and its methods update them in place with loops, as the C# does. Each
method's postcondition says that the new grid equals a specification function of
the old grid. The passes that work through a scratch buffer also state that
buffer's final contents: `TempDiffMap` for the fast and slow flows and the mass
movements, and `ErosionMap`, `TotalCellDrop` and `MaxCellDrop` for the
proportional flow. Each specification function lives in one of the pure modules,
where the properties that matter are proved about it:

| module | contents |
|---|---|
| `Addressing` | the toroidal address function and the neighbour orders |
| `Cells` | the cell and grid totals |
| `Draws` | bounded random draws |
| `FlowRules` | the per-cell water rules |
| `WaterPasses` | the full-grid and sampled water passes |
| `MassRules` | slump, collapse and the point collapses |
| `GridOps` | clearing, base level and rain |
| `Snapshot` | the file as words |

The properties proved include:
- every water strategy conserves total water;
- slump conserves total sediment, and collapse conserves total ground;
- the point collapses conserve what they move;
- the lowest-neighbour search is correct and breaks ties by scan order;
- the active-water list is exactly the sorted list of wet cells;
- the rain budget never increases and never goes below zero;
- saving and then loading a grid reproduces every cell.

Floats are modelled as exact reals. Random draws are modelled as sequences of
naturals that the caller supplies. `Next(draw, n)` stands for `Random.Next(n)`: it
is below `n`, and it is 0 when `n` is 0.

Behaviour of the source that is easy to misread, modelled as written:
- **Tie-break order.** The lowest-neighbour search scans W, E, N, S, then
  (-1,-1), (-1,+1), (+1,-1), (+1,+1), with strict `<`
  (`TerrainGeneration/TerrainGenWater2.cs:535-542`). The slump pulls use a
  different order, N, S, W, E (`:945-948`).
- **Equal heights.** A sampled cell is skipped only when its lowest neighbour is
  strictly higher (`:545`). Equal heights therefore plan a move of size zero.
- **Slump height.** Slump compares ground level (rock plus sediment), without the
  water (`:906`, `:939`).
- **Samples do not see each other.** Slump and collapse write only to the scratch
  buffer while sampling, and they merge only at the end (`:917-918`, `:966-974`).
  A later sample does not see an earlier sample's effect on the grid. It sees
  only its own running level `h`.
- **Direction of the point collapses.** `CollapseFrom` moves sediment *from* the
  centre to its lower neighbours, capped at a fifth of the centre's sediment. Rock
  pays once that sediment is used up (`:1073-1139`). `CollapseTo` takes sediment
  *from* higher neighbours, at most a quarter of each neighbour's sediment, and
  moves it to the centre (`:1089-1159`).
- **Hard-rock erosion rate.** Eroding hard rock in the stochastic flow lowers
  rock by exactly as much as it raises sediment at the destination (`:591-592`).
- **Truncated file.** `Load` checks the magic number and the size before it writes
  any cell. A file that ends inside the body has still overwritten every field
  read before the end (`:1270-1276`).
- **Slow flow.** In `RunWaterSlow`, `lowestNeighbour` starts at 0 and is never
  reset per cell (`:396`, `:410`). This is modelled as written, and
  `FlowRules.SlowShedsTenth` states what it leads to: on nonnegative ground, every
  wet cell with a lower neighbour sheds exactly a tenth of its water.

## Model

| member | source | states |
|---|---|---|
| Addressing.C | TerrainGeneration/TerrainGenWater2.cs:115 | every address lies in the grid, `0 <= C(x, y) < 2^20` |
| Addressing.Low10 | TerrainGeneration/TerrainGenWater2.cs:115 | the wrapped coordinate `v & 1023` lies in `[0, 1024)` |
| Addressing.CX | TerrainGeneration/TerrainGenWater2.cs:116 | the decoded column lies in `[0, 1024)` |
| Addressing.CY | TerrainGeneration/TerrainGenWater2.cs:117 | the decoded row lies in `[0, 1024)` |
| Addressing.CFormula | TerrainGeneration/TerrainGenWater2.cs:115 | `C(x, y) == x mod 1024 + 1024 * (y mod 1024)` for every integer pair, negative ones included |
| Addressing.CPeriodic | TerrainGeneration/TerrainGenWater2.cs:115 | the address has period 1024 in both axes |
| Addressing.CDecode | TerrainGeneration/TerrainGenWater2.cs:115-117 | `CX(C(x, y)) == x mod 1024` and `CY(C(x, y)) == y mod 1024` |
| Addressing.CEncode | TerrainGeneration/TerrainGenWater2.cs:115-117 | `C(CX(i), CY(i)) == i` for every index of the grid |
| Addressing.CDecodeInRange | TerrainGeneration/TerrainGenWater2.cs:115-117 | inside the grid, decoding an address gives back its column and row |
| Addressing.CSameCell | TerrainGeneration/TerrainGenWater2.cs:115 | two coordinate pairs address the same cell exactly when they agree modulo 1024 in both axes |
| Addressing.CRowMajor | TerrainGeneration/TerrainGenWater2.cs:317-322 | inside the grid, the row-major scan visits index `y * 1024 + x` |
| Addressing.NeighbourhoodDistinct | TerrainGeneration/TerrainGenWater2.cs:1116-1128 | the centre and its eight neighbours are nine different cells |
| Addressing.AllNeighbours | TerrainGeneration/TerrainGenWater2.cs:368-380 | eight in-grid cells, none of them the centre |
| Addressing.AllNeighboursDistinct | TerrainGeneration/TerrainGenWater2.cs:368-380 | the eight neighbours are pairwise distinct |
| Addressing.PullCells | TerrainGeneration/TerrainGenWater2.cs:926-937 | the slump order N, S, W, E, NW, NE, SW, SE: eight distinct in-grid cells other than the centre |
| Addressing.ScanCells | TerrainGeneration/TerrainGenWater2.cs:535-542 | the scan order W, E, N, S and then the diagonals: eight distinct in-grid cells other than the centre |
| Addressing.CrossCells | TerrainGeneration/TerrainGenWater2.cs:631-634 | the four cross neighbours N, W, E, S, distinct and other than the centre |
| Cells.TotalUpdate | TerrainGeneration/TerrainGenWater2.cs:601-602 | replacing one cell changes a grid total by the difference of the two cells |
| Cells.TotalMerge | TerrainGeneration/TerrainGenWater2.cs:719-724 | adding a buffer cell by cell adds the buffer's total to the grid's total |
| Cells.MinHard | TerrainGeneration/TerrainGenWater2.cs:259 | the minimum rock of a non-empty grid is attained by some cell and is at most every cell's rock |
| Draws.Next | TerrainGeneration/TerrainGenWater2.cs:519 | a draw is below `n` when `n > 0`, and is 0 when `n == 0` (then the stale `WaterMap[0]` is read) |
| FlowRules.WetPrefix | TerrainGeneration/TerrainGenWater2.cs:502-509 | the list holds at most `k` indices, all below `k` |
| FlowRules.WetPrefixSorted | TerrainGeneration/TerrainGenWater2.cs:502-509 | every listed cell holds more than 0.0001 of water, and the list is strictly increasing |
| FlowRules.WetPrefixComplete | TerrainGeneration/TerrainGenWater2.cs:502-509 | every cell with more than 0.0001 of water is listed |
| FlowRules.LowestNeighbour | TerrainGeneration/TerrainGenWater2.cs:512-542 | the result is one of the eight neighbours, never the centre; its height is at most every neighbour's; every neighbour scanned before it is strictly higher, so ties go to the earliest |
| FlowRules.LowestAmong | TerrainGeneration/TerrainGenWater2.cs:512 | the strict-`<` fold over a list finds an entry of minimal height, and that entry is the earliest of its height |
| FlowRules.ErosionRule | TerrainGeneration/TerrainGenWater2.cs:569-593 | sediment is eroded exactly when the source holds more than 0.0001 of it, and then exactly the least of the candidate, the cap and that sediment (at most each, equal to one); otherwise rock is eroded by exactly a fifth of the lesser of candidate and cap |
| FlowRules.PlanSample | TerrainGeneration/TerrainGenWater2.cs:519-602 | a planned move starts at the sampled cell and ends inside the grid |
| FlowRules.PlanSampleProperties | TerrainGeneration/TerrainGenWater2.cs:523-598 | a sample is skipped exactly when the water is below 0.000001 or the lowest neighbour is strictly higher. Otherwise it goes to the lowest neighbour and moves `min((h - nh) / 2, water)`, which lies in `[0, water]`. It erodes exactly when the source ground is higher. Sediment erosion is exactly the least of a quarter of the move, 0.8 of the ground drop and the available sediment. Rock erosion is exactly a fifth of the lesser of the first two. |
| FlowRules.MoveWaterConserves | TerrainGeneration/TerrainGenWater2.cs:601-602 | moving water keeps the total water, debits the source and credits the destination by the amount, and changes nothing else |
| FlowRules.FlowKeepsOrder | TerrainGeneration/TerrainGenWater2.cs:554-556 | after a planned move, the source is still at least as high as the destination |
| FlowRules.ErosionBookkeeping | TerrainGeneration/TerrainGenWater2.cs:583-592 | erosion keeps the erosion buffer's summed ground. Sediment erosion keeps its sediment sum. Rock erosion lowers rock by exactly what it adds to sediment. Water and height deltas are untouched. |
| FlowRules.LooseErosionTotals | TerrainGeneration/TerrainGenWater2.cs:583-584 | sediment erosion's deltas sum to zero in both sediment and ground |
| FlowRules.HardErosionTotals | TerrainGeneration/TerrainGenWater2.cs:591-592 | rock erosion moves `g` from rock to sediment and keeps the summed ground |
| FlowRules.TransferKeepsSum | TerrainGeneration/TerrainGenWater2.cs:355-356 | a transfer in the scratch buffer keeps its sum and touches only the two entries |
| FlowRules.DropSum | TerrainGeneration/TerrainGenWater2.cs:629-634 | the total drop is nonnegative |
| FlowRules.DropSumBounds | TerrainGeneration/TerrainGenWater2.cs:631-634 | every positive drop to a cross neighbour is at most the total drop |
| FlowRules.ShareSumScales | TerrainGeneration/TerrainGenWater2.cs:645-651 | the shares sent to a list of neighbours add up to the water amount times their drops over the total drop |
| FlowRules.ProportionalSplit | TerrainGeneration/TerrainGenWater2.cs:645-713 | the proportions of the positive drops add up to 1, so the shares add up to the water amount, and each share lies between 0 and that amount |
| FlowRules.SlowDamped | TerrainGeneration/TerrainGenWater2.cs:460-462 | the slow flow's damped amount lies in `[0, water / 10]` |
| FlowRules.SlowShedsTenth | TerrainGeneration/TerrainGenWater2.cs:396-462 | with the carried lowest height never above 0 and nonnegative ground, the damped amount is exactly a tenth of the water |
| FlowRules.BudgetAfterTick | TerrainGeneration/TerrainGenWater2.cs:146-149 | a nonpositive budget is left alone. A positive budget drops by at most the per-tick maximum, never goes below 0, and drops by exactly the maximum unless it hits 0. |
| GridOps.ClearedTotals | TerrainGeneration/TerrainGenWater2.cs:246-255 | a cleared grid has every total 0 |
| GridOps.Lowered | TerrainGeneration/TerrainGenWater2.cs:261-264 | only rock changes, by `-v` in every cell |
| GridOps.BaseLevelled | TerrainGeneration/TerrainGenWater2.cs:257-265 | afterwards some cell has rock 0 and none has less, every pairwise rock difference is kept, and the other fields are untouched |
| GridOps.WithLooseTotal | TerrainGeneration/TerrainGenWater2.cs:267-273 | the sediment total rises by `N * amount`, and only sediment changes |
| GridOps.RainedTotal | TerrainGeneration/TerrainGenWater2.cs:278-287 | uniform rain of `total / N` per cell raises total water by exactly `total`, changes only water, and lowers none when `total >= 0` |
| GridOps.RainDropsTotal | TerrainGeneration/TerrainGenWater2.cs:295-299 | `k` drops raise total water by `k` times the drop size and change only water |
| GridOps.RainRandomTotal | TerrainGeneration/TerrainGenWater2.cs:289-301 | with at least one drop, the drops add exactly `totalAmount` |
| WaterPasses.SampledCell | TerrainGeneration/TerrainGenWater2.cs:519 | a draw picks a live entry of the active-water list, or the stale first entry when the list is empty |
| WaterPasses.RebuiltWaterMap | TerrainGeneration/TerrainGenWater2.cs:502-509 | the rebuilt water map still holds only cell indices, and its live part is as long as the wet list |
| WaterPasses.SampleStepConserves | TerrainGeneration/TerrainGenWater2.cs:519-602 | one sample keeps total water, leaves rock and sediment of the grid untouched, keeps the erosion buffer's summed ground, and drives no water negative |
| WaterPasses.FlowStepConserves | TerrainGeneration/TerrainGenWater2.cs:583-602 | any move of at most the source's water, with any erosion, keeps that bookkeeping |
| WaterPasses.RandomFlowConserves | TerrainGeneration/TerrainGenWater2.cs:514-606 | any number of samples keeps that bookkeeping |
| WaterPasses.FastPlan | TerrainGeneration/TerrainGenWater2.cs:322-356 | a cell flows exactly when it holds at least 0.00001 of water and its lowest neighbour's height is at most its ground level; it then sends all its water to that neighbour, never to itself |
| WaterPasses.FastPlanAt | TerrainGeneration/TerrainGenWater2.cs:319-356 | the plan of the cell at `(x, y)` is decided by the scan neighbours of `(x, y)` |
| WaterPasses.FastDiffsBalance | TerrainGeneration/TerrainGenWater2.cs:317-358 | the fast flow's scratch entries sum to 0 over any prefix of the scan. Only visited cells are debited, each by at most its water. |
| WaterPasses.FastCellBalance | TerrainGeneration/TerrainGenWater2.cs:319-357 | one cell of the fast flow keeps the scratch buffer's sum and debits only that cell, by at most its water |
| WaterPasses.FastFlowConserves | TerrainGeneration/TerrainGenWater2.cs:311-365 | the fast flow keeps total water, changes only water, and drives no water negative |
| WaterPasses.CheckNeighbours | TerrainGeneration/TerrainGenWater2.cs:399-415 | at most one entry per neighbour is recorded, and the carried lowest height never rises |
| WaterPasses.CheckNeighboursSound | TerrainGeneration/TerrainGenWater2.cs:399-415 | every recorded index is a ring neighbour strictly lower than `h`, the carried lowest is at most its height, and nothing recorded leaves the lowest as it was |
| WaterPasses.CheckNeighboursComplete | TerrainGeneration/TerrainGenWater2.cs:399-415 | every ring neighbour strictly lower than `h` is recorded |
| WaterPasses.CheckNeighboursDistinct | TerrainGeneration/TerrainGenWater2.cs:399-415 | a ring without repeats gives a record without repeats |
| WaterPasses.LowerNeighboursDistinct | TerrainGeneration/TerrainGenWater2.cs:439-448 | the lower neighbours found for a cell are pairwise distinct |
| WaterPasses.CheckOne | TerrainGeneration/TerrainGenWater2.cs:401-414 | a strictly lower neighbour is appended, and the lowest height drops to it when it is lower; any other neighbour changes nothing |
| WaterPasses.EvenShare | TerrainGeneration/TerrainGenWater2.cs:464-466 | the source share plus `n` neighbour shares sum to 0, and a share lies in `[0, diff]` |
| WaterPasses.SlowShedBalance | TerrainGeneration/TerrainGenWater2.cs:466-476 | shedding keeps the buffer's sum, debits the cell by at most `diff`, and lowers no other entry |
| WaterPasses.ShedCheckedBalance | TerrainGeneration/TerrainGenWater2.cs:460-476 | shedding after the neighbour checks keeps the buffer's sum, debits the cell by at most a tenth of its water, lowers no other entry and keeps the carried lowest |
| WaterPasses.LowerOfCell | TerrainGeneration/TerrainGenWater2.cs:436-455 | the cell is never among its own lower neighbours, and with any lower neighbour the lowest height is below the cell's |
| WaterPasses.SlowStepBalance | TerrainGeneration/TerrainGenWater2.cs:422-476 | one cell of the slow flow keeps the buffer's sum, debits the cell by at most a tenth of its water, lowers no other entry, and never raises the carried lowest |
| WaterPasses.SlowPassBalance | TerrainGeneration/TerrainGenWater2.cs:417-479 | over any prefix of the scan, the buffer sum is kept and each visited cell is debited by at most a tenth of its water |
| WaterPasses.SlowFlowConserves | TerrainGeneration/TerrainGenWater2.cs:388-485 | the slow flow keeps total water, changes only water, and leaves every nonnegative cell at least 0.9 of its water |
| WaterPasses.CellDrop | TerrainGeneration/TerrainGenWater2.cs:629-641 | a cell's total drop is nonnegative |
| WaterPasses.MaxDrop | TerrainGeneration/TerrainGenWater2.cs:629-634 | the maximum drop bounds every positive drop, is at most their sum, and is one of them when positive |
| WaterPasses.CellMaxDrop | TerrainGeneration/TerrainGenWater2.cs:629-642 | the stored maximum drop lies between 0 and the total drop |
| WaterPasses.WaterAmount | TerrainGeneration/TerrainGenWater2.cs:700-702 | the water moved is the lesser of the cell's water and 0.3 of the total drop |
| WaterPasses.Heights | TerrainGeneration/TerrainGenWater2.cs:647 | entry `k` is the height of neighbour `k` |
| WaterPasses.ShareMoveEffect | TerrainGeneration/TerrainGenWater2.cs:645-656 | one share keeps the buffer's total water, debits the source and credits the neighbour by the share, and touches nothing else |
| WaterPasses.ShareMovesEffect | TerrainGeneration/TerrainGenWater2.cs:704-707 | the four shares keep the buffer's water total, debit the source by their sum, and lower no other entry |
| WaterPasses.ProportionalStepConserves | TerrainGeneration/TerrainGenWater2.cs:697-715 | one cell's distribution keeps the erosion buffer's total water and changes only its water |
| WaterPasses.ProportionalStepDebits | TerrainGeneration/TerrainGenWater2.cs:697-715 | a cell with a positive drop is debited exactly the water amount it moves, and no other entry drops |
| WaterPasses.CellShareSplit | TerrainGeneration/TerrainGenWater2.cs:700-707 | the four shares of a cell's positive drop add up to exactly the water amount it moves |
| WaterPasses.ProportionalFlowConserves | TerrainGeneration/TerrainGenWater2.cs:695-716 | the distribution pass keeps the erosion buffer's total water and changes only its water |
| WaterPasses.ProportionalFlowDebits | TerrainGeneration/TerrainGenWater2.cs:695-716 | no cell loses more than its water |
| WaterPasses.MergeWaterTotals | TerrainGeneration/TerrainGenWater2.cs:360-363 | the merge adds each scratch entry to the cell's water and the buffer's sum to the total |
| WaterPasses.ProportionalFlowGridConserves | TerrainGeneration/TerrainGenWater2.cs:611-727 | the proportional flow keeps total water, changes only water, and drives no water negative |
| WaterPasses.MergeWaterBuffer | TerrainGeneration/TerrainGenWater2.cs:719-724 | merging a water-only buffer of zero total keeps the grid's total water, changes only water, and keeps water nonnegative when the buffer debits no cell more than it holds |
| MassRules.SlumpAmount | TerrainGeneration/TerrainGenWater2.cs:901-924 | nothing moves unless the donor holds sediment and its ground exceeds `h` by more than the threshold; then `a` times the excess capped at the donor's sediment, which lies in `[0, a * sediment]` |
| MassRules.CollapseAmount | TerrainGeneration/TerrainGenWater2.cs:992-1014 | nothing moves from a donor covered by more than the sediment threshold, or whose rock is within the threshold of `h`; otherwise `a` times the rock's excess |
| MassRules.MoveAmount | TerrainGeneration/TerrainGenWater2.cs:901-924 | a nonnegative scale never moves a negative amount |
| MassRules.PullFromKeepsSum | TerrainGeneration/TerrainGenWater2.cs:945-953 | the eight pulls into a sampled cell keep the scratch buffer's sum |
| MassRules.PullFromLocal | TerrainGeneration/TerrainGenWater2.cs:926-953 | the pulls touch only the sampled cell and its neighbours |
| MassRules.MassSamplesKeepSum | TerrainGeneration/TerrainGenWater2.cs:958-964 | any number of samples keeps the scratch buffer's sum |
| MassRules.SlumpMergeTotals | TerrainGeneration/TerrainGenWater2.cs:966-974 | the merge changes only sediment and adds the buffer's sum to the sediment total |
| MassRules.CollapseMergeTotals | TerrainGeneration/TerrainGenWater2.cs:1052-1068 | negative deltas go to rock, nonnegative ones to sediment, and the ground total rises by the buffer's sum |
| MassRules.SlumpConserves | TerrainGeneration/TerrainGenWater2.cs:895-977 | slump keeps total sediment and changes nothing but sediment |
| MassRules.CollapseConserves | TerrainGeneration/TerrainGenWater2.cs:986-1071 | collapse keeps total ground (rock plus sediment) and leaves water and height deltas alone |
| MassRules.FromGain | TerrainGeneration/TerrainGenWater2.cs:1073-1087 | a lower neighbour gains `a` times its drop below `h`, capped at a fifth of the centre's sediment; nothing otherwise; in `[0, a / 5 * sediment]` for `a >= 0` |
| MassRules.ToLoss | TerrainGeneration/TerrainGenWater2.cs:1089-1104 | a higher neighbour loses `a` times its excess over `h`, capped at a quarter of its sediment; nothing otherwise; in `[0, a / 4 * sediment]` for `a >= 0` |
| MassRules.PointFoldBalance | TerrainGeneration/TerrainGenWater2.cs:1121-1128 | the neighbour pass shifts the sediment total by the running total it accumulates |
| MassRules.PointFoldFrame | TerrainGeneration/TerrainGenWater2.cs:1121-1128 | the neighbour pass changes only sediment, and only in the listed neighbours |
| MassRules.PointFoldMoved | TerrainGeneration/TerrainGenWater2.cs:1145-1155 | with nonnegative scales the running total only grows |
| MassRules.ToLossKeepsLoose | TerrainGeneration/TerrainGenWater2.cs:1089-1104 | with a scale in `[0, 1]`, a neighbour's sediment stays nonnegative |
| MassRules.PointFoldKeepsLoose | TerrainGeneration/TerrainGenWater2.cs:1148-1155 | the pass towards the centre keeps all sediment nonnegative |
| MassRules.Debit | TerrainGeneration/TerrainGenWater2.cs:1130-1138 | the centre's ground drops by exactly the amount paid, its sediment ends nonnegative, and nothing else changes |
| MassRules.DebitCentre | TerrainGeneration/TerrainGenWater2.cs:1114-1138 | paying the centre back what the neighbours gained restores the ground total |
| MassRules.CollapseFromConserves | TerrainGeneration/TerrainGenWater2.cs:1114-1139 | `CollapseFrom` keeps the summed ground of the grid (and so of the nine cells) |
| MassRules.CollapseFromFrame | TerrainGeneration/TerrainGenWater2.cs:1114-1139 | `CollapseFrom` leaves water and height deltas alone, touches only the nine cells, and leaves the centre with nonnegative sediment |
| MassRules.PointToConserves | TerrainGeneration/TerrainGenWater2.cs:1141-1159 | a pass towards a centre outside the list keeps total sediment and changes only sediment, only there |
| MassRules.CollapseToConserves | TerrainGeneration/TerrainGenWater2.cs:1141-1159 | `CollapseTo` keeps total sediment, changes only sediment, and touches only the nine cells |
| MassRules.CollapseToKeepsLoose | TerrainGeneration/TerrainGenWater2.cs:1089-1159 | with a scale in `[0, 1]`, `CollapseTo` drives no sediment negative |
| Snapshot.HeaderCheck | TerrainGeneration/TerrainGenWater2.cs:1251-1266 | the header passes exactly when it has the magic number and the grid's width and height; it is refused as not a terrain file exactly when the first word is not the magic number |
| Snapshot.LoadCell | TerrainGeneration/TerrainGenWater2.cs:1272-1275 | a cell whose four words are present takes them, and one past the end of the file is kept |
| Snapshot.LoadOutcome | TerrainGeneration/TerrainGenWater2.cs:1245-1284 | loading succeeds exactly when the header passes and the file holds every cell |
| Snapshot.LoadGrid | TerrainGeneration/TerrainGenWater2.cs:1251-1266 | a refused header leaves the grid untouched |
| Snapshot.BodyLayout | TerrainGeneration/TerrainGenWater2.cs:1231-1237 | field `f` of cell `i` is body word `4 i + f` |
| Snapshot.SavedCellWords | TerrainGeneration/TerrainGenWater2.cs:1227-1237 | in a saved file, cell `i`'s rock, sediment, water and height delta are words `3 + 4 i` to `3 + 4 i + 3` |
| Snapshot.SaveLoadRoundTrip | TerrainGeneration/TerrainGenWater2.cs:1221-1284 | loading a saved file of the same size succeeds and reproduces every cell |
| Terrain.TickRained | TerrainGeneration/TerrainGenWater2.cs:146-152 | with a positive budget the tick adds exactly 25000 * 0.1 of water, independent of the budget drawn; otherwise the grid is unchanged |
| Terrain.TerrainGenWater2.constructor | TerrainGeneration/TerrainGenWater2.cs:87-104 | every buffer is fresh and zero: the grid, both scratch buffers, both drop buffers and the water map, whose stale first entry is therefore cell 0; the water map's live part is empty, no iteration has run, and the budget is full |
| Terrain.TerrainGenWater2.ClearTempDiffMap | TerrainGeneration/TerrainGenWater2.cs:119-122 | the scratch buffer is all zeros |
| Terrain.TerrainGenWater2.Clear | TerrainGeneration/TerrainGenWater2.cs:246-255 | every field of every cell is zero, whatever `height` is |
| Terrain.TerrainGenWater2.SetBaseLevel | TerrainGeneration/TerrainGenWater2.cs:257-265 | the grid becomes the base-levelled grid |
| Terrain.TerrainGenWater2.AddLooseMaterial | TerrainGeneration/TerrainGenWater2.cs:267-273 | every cell's sediment rises by `amount` |
| Terrain.TerrainGenWater2.AddRain | TerrainGeneration/TerrainGenWater2.cs:278-287 | every cell's water rises by `totalAmount / N` |
| Terrain.TerrainGenWater2.AddRainRandom | TerrainGeneration/TerrainGenWater2.cs:289-301 | the drawn cells each get a drop of `totalAmount / numDrops` |
| Terrain.TerrainGenWater2.BuildWaterMap | TerrainGeneration/TerrainGenWater2.cs:502-509 | the live part of the water map is the wet list, and the entries past it are kept |
| Terrain.TerrainGenWater2.RecordErosion | TerrainGeneration/TerrainGenWater2.cs:583-592 | the erosion buffer takes the planned erosion |
| Terrain.TerrainGenWater2.MoveWaterOnGrid | TerrainGeneration/TerrainGenWater2.cs:601-602 | the grid takes the planned water move |
| Terrain.TerrainGenWater2.Sample | TerrainGeneration/TerrainGenWater2.cs:519-602 | grid and erosion buffer take one planned sample |
| Terrain.TerrainGenWater2.RunSamples | TerrainGeneration/TerrainGenWater2.cs:514-606 | grid and erosion buffer take one sample per draw, in order |
| Terrain.TerrainGenWater2.RunWaterRandom | TerrainGeneration/TerrainGenWater2.cs:496-607 | the water map is rebuilt from the grid, then the samples run on it |
| Terrain.TerrainGenWater2.MergeTempDiffMap | TerrainGeneration/TerrainGenWater2.cs:360-363 | each cell's water rises by its scratch entry |
| Terrain.TerrainGenWater2.FastCell | TerrainGeneration/TerrainGenWater2.cs:319-357 | the scratch buffer takes the cell's fast-flow plan |
| Terrain.TerrainGenWater2.FastCellAt | TerrainGeneration/TerrainGenWater2.cs:319-357 | the scratch buffer advances by exactly the fast-flow plan of the cell at `(x, y)`, the next cell of the row-major scan |
| Terrain.TerrainGenWater2.FastRow | TerrainGeneration/TerrainGenWater2.cs:317-358 | the scratch buffer advances by the fast-flow plans of one whole row |
| Terrain.TerrainGenWater2.TransferOnBuffer | TerrainGeneration/TerrainGenWater2.cs:355-356 | the scratch buffer takes the transfer |
| Terrain.TerrainGenWater2.FastPass | TerrainGeneration/TerrainGenWater2.cs:317-358 | the scratch buffer holds the fast flow's plans for every cell |
| Terrain.TerrainGenWater2.RunWaterFast | TerrainGeneration/TerrainGenWater2.cs:311-365 | the grid becomes the fast-flow grid, and the scratch buffer holds the fast flow's plans for every cell of the old grid |
| Terrain.TerrainGenWater2.CheckNeighbour | TerrainGeneration/TerrainGenWater2.cs:399-415 | the lower-neighbour array and the carried lowest take one neighbour check |
| Terrain.TerrainGenWater2.CheckRing | TerrainGeneration/TerrainGenWater2.cs:436-448 | the array's first `lowerNeighbours` entries and the carried lowest are the checks of all eight neighbours |
| Terrain.TerrainGenWater2.ShedOnBuffer | TerrainGeneration/TerrainGenWater2.cs:466-476 | the scratch buffer takes the cell's shedding |
| Terrain.TerrainGenWater2.ShedCell | TerrainGeneration/TerrainGenWater2.cs:460-476 | the scratch buffer takes the damped, evenly shared shedding |
| Terrain.TerrainGenWater2.SlowCell | TerrainGeneration/TerrainGenWater2.cs:421-477 | scratch buffer and carried lowest take one cell of the slow flow |
| Terrain.TerrainGenWater2.SlowCellAt | TerrainGeneration/TerrainGenWater2.cs:421-477 | scratch buffer and carried lowest advance by the slow flow of the next cell of the row-major scan |
| Terrain.TerrainGenWater2.SlowRow | TerrainGeneration/TerrainGenWater2.cs:417-479 | scratch buffer and carried lowest advance by the slow flow of one whole row |
| Terrain.TerrainGenWater2.SlowPassRows | TerrainGeneration/TerrainGenWater2.cs:393-479 | the scratch buffer holds the slow flow over every cell, with one lowest height carried from 0 |
| Terrain.TerrainGenWater2.RunWaterSlow | TerrainGeneration/TerrainGenWater2.cs:388-485 | the grid becomes the slow-flow grid, and the scratch buffer holds the slow flow's shedding over the old grid |
| Terrain.TerrainGenWater2.ClearErosionMap | TerrainGeneration/TerrainGenWater2.cs:619-625 | the erosion buffer is all zero cells |
| Terrain.TerrainGenWater2.CrossDrops | TerrainGeneration/TerrainGenWater2.cs:629-642 | the returned drops are the cell's total and maximum drop |
| Terrain.TerrainGenWater2.StoreDrops | TerrainGeneration/TerrainGenWater2.cs:641-642 | the two drop buffers take the cell's total and maximum drop, and no other entry changes |
| Terrain.TerrainGenWater2.ComputeDropsRow | TerrainGeneration/TerrainGenWater2.cs:627-643 | after one more row the drop buffers agree with every cell's total and maximum drop on all rows so far |
| Terrain.TerrainGenWater2.ComputeDrops | TerrainGeneration/TerrainGenWater2.cs:627-643 | the drop buffers hold every cell's total and maximum drop |
| Terrain.TerrainGenWater2.MoveWaterDownhill | TerrainGeneration/TerrainGenWater2.cs:645-692 | the erosion buffer takes one proportional share |
| Terrain.TerrainGenWater2.ProportionalCell | TerrainGeneration/TerrainGenWater2.cs:697-715 | the erosion buffer advances by the proportional shares of the next cell of the scan |
| Terrain.TerrainGenWater2.DistributeRow | TerrainGeneration/TerrainGenWater2.cs:695-716 | the erosion buffer advances by the proportional shares of one whole row |
| Terrain.TerrainGenWater2.DistributeWater | TerrainGeneration/TerrainGenWater2.cs:695-716 | the erosion buffer holds every cell's proportional shares |
| Terrain.TerrainGenWater2.MergeErosionMap | TerrainGeneration/TerrainGenWater2.cs:719-724 | rock, sediment and water each rise by the erosion buffer's entry |
| Terrain.TerrainGenWater2.RunWater | TerrainGeneration/TerrainGenWater2.cs:611-727 | the grid becomes the proportional-flow grid; the erosion buffer holds every cell's proportional shares, from cleared, and the drop buffers hold every cell's total and maximum drop of the old grid |
| Terrain.TerrainGenWater2.SlumpPull | TerrainGeneration/TerrainGenWater2.cs:901-924 | the amount is the slump amount, moved from donor to receiver in the scratch buffer |
| Terrain.TerrainGenWater2.CollapsePull | TerrainGeneration/TerrainGenWater2.cs:992-1014 | the amount is the collapse amount, moved from donor to receiver in the scratch buffer |
| Terrain.TerrainGenWater2.Pull | TerrainGeneration/TerrainGenWater2.cs:901-924 | the amount is the rule's amount for the donor as the grid stands, moved from donor to receiver in the scratch buffer, which changes nowhere else |
| Terrain.TerrainGenWater2.PullSlot | TerrainGeneration/TerrainGenWater2.cs:926-953 | the scratch buffer and the running level advance by the pull from neighbour `k` |
| Terrain.TerrainGenWater2.PullInto | TerrainGeneration/TerrainGenWater2.cs:926-954 | the scratch buffer takes the eight pulls into the sampled cell |
| Terrain.TerrainGenWater2.MassPass | TerrainGeneration/TerrainGenWater2.cs:958-964 | the scratch buffer takes one set of pulls per pair of draws |
| Terrain.TerrainGenWater2.MassSample | TerrainGeneration/TerrainGenWater2.cs:958-964 | the scratch buffer advances by the pulls of one more sampled cell |
| Terrain.TerrainGenWater2.MergeLooseDiffs | TerrainGeneration/TerrainGenWater2.cs:966-974 | every cell's sediment rises by its scratch entry |
| Terrain.TerrainGenWater2.MergeCollapseDiffs | TerrainGeneration/TerrainGenWater2.cs:1052-1068 | negative scratch entries go to rock and the others to sediment |
| Terrain.TerrainGenWater2.Slump | TerrainGeneration/TerrainGenWater2.cs:895-977 | the grid becomes the merged result of the sampled slumps over the old grid, and the scratch buffer holds those samples' moves |
| Terrain.TerrainGenWater2.Collapse | TerrainGeneration/TerrainGenWater2.cs:986-1071 | the grid becomes the merged result of the sampled collapses over the old grid, and the scratch buffer holds those samples' moves |
| Terrain.TerrainGenWater2.CollapseCell | TerrainGeneration/TerrainGenWater2.cs:1073-1087 | the neighbour gains the returned amount of sediment, and nothing else changes |
| Terrain.TerrainGenWater2.CollapseToCell | TerrainGeneration/TerrainGenWater2.cs:1089-1104 | the neighbour loses the returned amount of sediment, and nothing else changes |
| Terrain.TerrainGenWater2.PointSlot | TerrainGeneration/TerrainGenWater2.cs:1121-1155 | the grid and the running total advance by neighbour `k`'s share, and the centre is left alone |
| Terrain.TerrainGenWater2.CollapseFrom | TerrainGeneration/TerrainGenWater2.cs:1114-1139 | the grid becomes the `CollapseFrom` grid |
| Terrain.TerrainGenWater2.CollapseTo | TerrainGeneration/TerrainGenWater2.cs:1141-1159 | the grid becomes the `CollapseTo` grid |
| Terrain.TerrainGenWater2.TickRain | TerrainGeneration/TerrainGenWater2.cs:146-152 | the budget is lowered as `BudgetAfterTick` says, and the tick's rain falls |
| Terrain.TerrainGenWater2.ModifyTerrain | TerrainGeneration/TerrainGenWater2.cs:144-168 | one tick: the budget is lowered, the rain falls, the water map is rebuilt from the rained grid, 50000 samples run, and the iteration count rises by exactly 1 |
| Terrain.TerrainGenWater2.Save | TerrainGeneration/TerrainGenWater2.cs:1221-1243 | the words written are the saved file of the grid |
| Terrain.TerrainGenWater2.LoadCellAt | TerrainGeneration/TerrainGenWater2.cs:1270-1276 | cell `i` takes the fields present in the file, and the file ended exactly when one is missing |
| Terrain.TerrainGenWater2.Load | TerrainGeneration/TerrainGenWater2.cs:1245-1284 | the outcome and the new grid are the modelled load, and the budget is reset only on success |

## Left out

- The constructor requires a 1024 by 1024 grid. The source accepts any width and height and sizes its arrays by them, but its address function masks both coordinates to 10 bits. A smaller grid is then indexed out of range, and a larger one only ever uses its first 2^20 cells; neither case is modelled.
- Noise seeding is not modelled: `AddSimplexNoise*`, `AddSimplexPowNoise`, `AddDiscontinuousNoise`, `InitTerrain1`. These depend on an external noise function, `Math.Pow` and pluggable float transforms.
- `RunWater2`, `FallVector`, `CellNormal` and `GroundFallVector` are not modelled. They rely on vector normalisation, and their water move is commented out in the source.
- `WaterHeightAt` and `ClampToGround` are not modelled. They involve float-to-int truncation, an external interpolation helper and a rendering scale.
- Parallel loops become sequential loops over all cells, in index order. The source's merges only add buffers cell by cell, so this does not change their result. The 8-chunk merges are modelled as one flat loop.
- `System.Random` is not modelled. Each operation takes a sequence of draws, and `Next(draw, n)` stands in for `rand.Next(n)`.
- File streams, BinaryReader and BinaryWriter are not modelled. The file is a sequence of words. Reading a word as the other type goes through the parameters `asInt` and `asReal`, because float bit patterns are not modelled.
- IEEE-754 rounding is not modelled. Floats are exact reals, and the constants 0.0001, 0.00001, 0.000001, 1.414, 0.707, 0.2, 0.25, 0.3 and 0.8 are exact decimals. `Math.Sqrt(2.0)` is the decimal of the double it returns.
- `ClampInclusive` is an external extension method. It is defined here as clamping to `[lo, hi]`.
- Terrain.TerrainGenWater2.ModifyTerrain: `Iterations` is an unbounded integer, so the 32-bit wrap-around after 2^31 ticks is not modelled.
- `MaxCellDrop` is computed by `RunWater`, as in the source, but nothing reads it.
- `_threshold2` in `Slump` is computed but never used, and `Clear`'s parameter is ignored. The model matches both.
- An exception in `Load` becomes a result value: `NotATerrainFile` for the magic check, `SizeMismatch` for the size check and `EndOfStream` for a short file.
