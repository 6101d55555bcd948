/** The terrain generator: the cell grid, its scratch buffers and the in-place
    operations that rain on it, move water over it and move material across it. Each
    method is proved to leave the state that a specification function of the old state
    describes; the properties of those functions are proved in their own modules. */
module Terrain {
  import opened Addressing
  import opened Cells
  import opened Draws
  import opened FlowRules
  import opened WaterPasses
  import opened MassRules
  import opened GridOps
  import opened Snapshot

  /** The water budget and the rain allowed per tick. */
  datatype TerrainParameters = TerrainParameters(TotalWaterBudget: real, MaxRainPerFrame: real)

  const DefaultParameters: TerrainParameters :=
    TerrainParameters(1024.0 * 1024.0 * 10.0, 1024.0 * 1024.0 * 0.01)

  /** Rain added per tick by `ModifyTerrain`, and the number of drops it falls in. */
  const TickAmount: real := 25000.0 * 0.1
  const TickDrops: int := 25000

  /** Samples of the stochastic flow per tick. */
  const TickSamples: int := 50000

  /** The grid after a tick's rain: `TickDrops` drops of `TickAmount` in all when the
      atmosphere held water, the grid `m` itself otherwise. */
  function TickRained(m: seq<Cell>, budget: real, drops: seq<nat>): (r: seq<Cell>)
    requires |m| == N && TickDrops <= |drops|
    ensures |r| == N
    ensures budget > 0.0 ==> Total(r, WaterQ) == Total(m, WaterQ) + TickAmount
    ensures budget <= 0.0 ==> r == m
  {
    RainRandomTotal(m, drops, TickAmount, TickDrops);
    if budget > 0.0 then RainDrops(m, drops, TickDrops, DropSize(TickAmount, TickDrops)) else m
  }

  class TerrainGenWater2 {
    const Width: int
    const Height: int
    const Map: array<Cell>
    const ErosionMap: array<Cell>
    const TempDiffMap: array<real>
    const TotalCellDrop: array<real>
    const MaxCellDrop: array<real>
    const WaterMap: array<int>
    var WaterMapSize: int
    var Parameters: TerrainParameters
    var AtmosphericWater: real
    var Iterations: int

    /** The grid is 1024 by 1024 (the address function keeps ten bits per axis), every
        buffer has a slot per cell, the buffers are distinct, and the water map holds
        cell indices. */
    ghost predicate Valid()
      reads `WaterMapSize, WaterMap
    {
      Sized() &&
      0 <= WaterMapSize <= N &&
      forall j :: 0 <= j < N ==> 0 <= WaterMap[j] < N
    }

    /** The part of `Valid` that no method can change: the dimensions, the buffer
        lengths and which buffers are distinct. */
    ghost predicate Sized()
    {
      Width == Size && Height == Size &&
      Map.Length == N && ErosionMap.Length == N && TempDiffMap.Length == N &&
      TotalCellDrop.Length == N && MaxCellDrop.Length == N && WaterMap.Length == N &&
      Map != ErosionMap &&
      TempDiffMap != TotalCellDrop && TempDiffMap != MaxCellDrop && TotalCellDrop != MaxCellDrop
    }

    constructor (width: int, height: int)
      requires width == Size && height == Size
      ensures Valid()
      ensures fresh(Map) && fresh(ErosionMap) && fresh(TempDiffMap) && fresh(TotalCellDrop)
      ensures fresh(MaxCellDrop) && fresh(WaterMap)
      ensures Map[..] == ZeroGrid(N) && ErosionMap[..] == ZeroGrid(N) && TempDiffMap[..] == Zeros(N)
      ensures TotalCellDrop[..] == Zeros(N) && MaxCellDrop[..] == Zeros(N) && WaterMap[..] == seq(N, _ => 0)
      ensures WaterMapSize == 0 && Iterations == 0
      ensures Parameters == DefaultParameters && AtmosphericWater == DefaultParameters.TotalWaterBudget
    {
      Width := width;
      Height := height;
      Map := new Cell[width * height](_ => Zero);
      ErosionMap := new Cell[width * height](_ => Zero);
      TempDiffMap := new real[width * height](_ => 0.0);
      TotalCellDrop := new real[width * height](_ => 0.0);
      MaxCellDrop := new real[width * height](_ => 0.0);
      WaterMap := new int[width * height](_ => 0);
      WaterMapSize := 0;
      Parameters := DefaultParameters;
      Iterations := 0;
      AtmosphericWater := DefaultParameters.TotalWaterBudget;
    }

    method ClearTempDiffMap()
      requires Sized()
      modifies TempDiffMap
      ensures TempDiffMap[..] == Zeros(N)
    {
      var i := 0;
      while i < Width * Height
        invariant 0 <= i <= N
        invariant forall j :: 0 <= j < i ==> TempDiffMap[j] == 0.0
      {
        TempDiffMap[i] := 0.0;
        i := i + 1;
      }
    }

    // =========================================================================
    // Grid maintenance and rain

    /** Zeroes all four fields of every cell; the height argument is not used. */
    method Clear(height: real)
      requires Valid()
      modifies Map
      ensures Map[..] == ZeroGrid(N)
    {
      var i := 0;
      while i < Width * Height
        invariant 0 <= i <= N
        invariant forall j :: 0 <= j < i ==> Map[j] == Zero
      {
        Map[i] := Map[i].(Hard := 0.0, Loose := 0.0, Water := 0.0, DeltaHeight := 0.0);
        i := i + 1;
      }
    }

    /** Lowers all rock by the lowest rock level. */
    method SetBaseLevel()
      requires Valid()
      modifies Map
      ensures Map[..] == BaseLevelled(old(Map[..]))
    {
      var min := MinHard(Map[..]);
      var i := 0;
      while i < Width * Height
        invariant 0 <= i <= N
        invariant forall j :: 0 <= j < i ==> Map[j] == old(Map[j]).(Hard := old(Map[j]).Hard - min)
        invariant forall j :: i <= j < N ==> Map[j] == old(Map[j])
      {
        Map[i] := Map[i].(Hard := Map[i].Hard - min);
        i := i + 1;
      }
      assert Map[..] == Lowered(old(Map[..]), min);
    }

    method AddLooseMaterial(amount: real)
      requires Valid()
      modifies Map
      ensures Map[..] == WithLoose(old(Map[..]), amount)
    {
      var i := 0;
      while i < Width * Height
        invariant 0 <= i <= N
        invariant forall j :: 0 <= j < i ==> Map[j] == old(Map[j]).(Loose := old(Map[j]).Loose + amount)
        invariant forall j :: i <= j < N ==> Map[j] == old(Map[j])
      {
        Map[i] := Map[i].(Loose := Map[i].Loose + amount);
        i := i + 1;
      }
    }

    /** Spreads `totalAmount` of water evenly over the grid. */
    method AddRain(totalAmount: real)
      requires Valid()
      modifies Map
      ensures Map[..] == Rained(old(Map[..]), totalAmount / N as real)
    {
      var amount := totalAmount / (Width * Height) as real;
      var i := 0;
      while i < Width * Height
        invariant 0 <= i <= N
        invariant forall j :: 0 <= j < i ==> Map[j] == old(Map[j]).(Water := old(Map[j]).Water + amount)
        invariant forall j :: i <= j < N ==> Map[j] == old(Map[j])
      {
        Map[i] := Map[i].(Water := Map[i].Water + amount);
        i := i + 1;
      }
    }

    /** Drops `totalAmount` of water in `numDrops` equal drops, drop `j` on the cell that
        draw `drops[j]` picks. */
    method AddRainRandom(totalAmount: real, numDrops: int, drops: seq<nat>)
      requires Valid() && numDrops <= |drops|
      modifies Map
      ensures Map[..] == RainDrops(old(Map[..]), drops, if numDrops > 0 then numDrops else 0, DropSize(totalAmount, numDrops))
    {
      var amount := DropSize(totalAmount, numDrops);
      var terrainSize := Width * Height;
      var i := 0;
      while i < numDrops
        invariant 0 <= i <= if numDrops > 0 then numDrops else 0
        invariant Map[..] == RainDrops(old(Map[..]), drops, i, amount)
      {
        var cell := Next(drops[i], terrainSize);
        Map[cell] := Map[cell].(Water := Map[cell].Water + amount);
        i := i + 1;
      }
    }

    // =========================================================================
    // The stochastic flow

    /** The first part of `RunWaterRandom`: lists the cells holding more than
        `WetThreshold` of water at the front of the water map. */
    method BuildWaterMap()
      requires Valid()
      modifies this`WaterMapSize, WaterMap
      ensures Valid()
      ensures WaterMapSize == |WetPrefix(Map[..], N)|
      ensures WaterMap[..] == RebuiltWaterMap(Map[..], old(WaterMap[..]))
    {
      ghost var m := Map[..];
      ghost var wm, size := WaterMap[..], WaterMapSize;
      WaterMapSize := 0;
      var i := 0;
      while i < Width * Height
        invariant 0 <= i <= N
        invariant WaterMapSize == |WetPrefix(m, i)| <= i
        invariant forall j :: 0 <= j < WaterMapSize ==> WaterMap[j] == WetPrefix(m, i)[j]
        invariant forall j :: WaterMapSize <= j < N ==> WaterMap[j] == wm[j]
        invariant forall j :: 0 <= j < N ==> 0 <= WaterMap[j] < N
      {
        if Map[i].Water > WetThreshold {
          WaterMap[WaterMapSize] := i;
          WaterMapSize := WaterMapSize + 1;
        }
        i := i + 1;
      }
      ghost var r := RebuiltWaterMap(m, wm);
      assert forall j :: 0 <= j < WaterMapSize ==> r[j] == r[..WaterMapSize][j];
      assert forall j :: WaterMapSize <= j < N ==> r[j] == r[WaterMapSize..][j - WaterMapSize];
      assert WaterMap[..] == r;
    }

    /** The erosion a sample records: the eroded material leaves the cell it was taken
        from and arrives as sediment at the lower neighbour. */
    method RecordErosion(celli: int, cellni: int, er: Erosion)
      requires Sized() && 0 <= celli < N && 0 <= cellni < N
      modifies ErosionMap
      ensures ErosionMap[..] == ApplyErosion(old(ErosionMap[..]), celli, cellni, er)
    {
      match er {
        case NoErosion =>
        case ErodeLoose(groundToMove) =>
          ErosionMap[celli] := ErosionMap[celli].(Loose := ErosionMap[celli].Loose - groundToMove);
          ErosionMap[cellni] := ErosionMap[cellni].(Loose := ErosionMap[cellni].Loose + groundToMove);
        case ErodeHard(groundToMove) =>
          ErosionMap[celli] := ErosionMap[celli].(Hard := ErosionMap[celli].Hard - groundToMove);
          ErosionMap[cellni] := ErosionMap[cellni].(Loose := ErosionMap[cellni].Loose + groundToMove);
      }
    }

    /** The water move of a sample, made on the grid itself. */
    method MoveWaterOnGrid(celli: int, cellni: int, amountToMove: real)
      requires Sized() && 0 <= celli < N && 0 <= cellni < N
      modifies Map
      ensures Map[..] == MoveWater(old(Map[..]), celli, cellni, amountToMove)
    {
      Map[celli] := Map[celli].(Water := Map[celli].Water - amountToMove);
      Map[cellni] := Map[cellni].(Water := Map[cellni].Water + amountToMove);
    }

    /** One sample of the stochastic flow at cell `celli`. Every read of the sample
        comes before its first write, so its decision (skip, or which neighbour receives
        how much water and what erosion goes with it) is `PlanSample` of the grid as it
        stands; the erosion is then recorded and the water moved, in that order. */
    method Sample(celli: int)
      requires Sized() && 0 <= celli < N
      modifies Map, ErosionMap
      ensures Grids(Map[..], ErosionMap[..]) == SampleStep(Grids(old(Map[..]), old(ErosionMap[..])), celli)
    {
      var plan := PlanSample(Map[..], celli);
      if plan.Flow? {
        RecordErosion(celli, plan.to, plan.erosion);
        MoveWaterOnGrid(celli, plan.to, plan.water);
      }
    }

    /** Runs `numsamples` samples over the current water map, sample `j` at the entry
        that draw `draws[j]` picks. */
    method RunSamples(numsamples: int, draws: seq<nat>)
      requires Valid() && numsamples <= |draws|
      modifies Map, ErosionMap
      ensures Grids(Map[..], ErosionMap[..]) ==
        RandomFlow(Grids(old(Map[..]), old(ErosionMap[..])), WaterMap[..], WaterMapSize,
                   draws[..if numsamples > 0 then numsamples else 0])
    {
      ghost var g0, wm, size := Grids(Map[..], ErosionMap[..]), WaterMap[..], WaterMapSize;
      assert WaterMapShaped(wm, size);
      var i := 0;
      while i < numsamples
        invariant 0 <= i <= if numsamples > 0 then numsamples else 0
        invariant Valid() && WaterMap[..] == wm && WaterMapSize == size
        invariant Grids(Map[..], ErosionMap[..]) == RandomFlow(g0, wm, size, draws[..i])
      {
        var celli := WaterMap[Next(draws[i], WaterMapSize)];
        assert celli == SampledCell(wm, size, draws[i]);
        Sample(celli);
        RandomFlowNext(g0, wm, size, draws, i);
        i := i + 1;
      }
    }

    /** Rebuilds the water map, then runs `numsamples` samples over it. */
    method RunWaterRandom(numsamples: int, draws: seq<nat>)
      requires Valid() && numsamples <= |draws|
      modifies this`WaterMapSize, WaterMap, Map, ErosionMap
      ensures Valid()
      ensures WaterMapSize == |WetPrefix(old(Map[..]), N)|
      ensures WaterMap[..] == RebuiltWaterMap(old(Map[..]), old(WaterMap[..]))
      ensures Grids(Map[..], ErosionMap[..]) ==
        RandomFlow(Grids(old(Map[..]), old(ErosionMap[..])), WaterMap[..], WaterMapSize,
                   draws[..if numsamples > 0 then numsamples else 0])
    {
      BuildWaterMap();
      RunSamples(numsamples, draws);
    }

    // =========================================================================
    // The fast and slow flows

    /** Adds the scratch buffer to every cell's water. */
    method MergeTempDiffMap()
      requires Sized()
      modifies Map
      ensures Map[..] == MergeWater(old(Map[..]), TempDiffMap[..])
    {
      var i := 0;
      while i < Width * Height
        invariant 0 <= i <= N
        invariant forall j :: 0 <= j < i ==> Map[j] == old(Map[j]).(Water := old(Map[j]).Water + TempDiffMap[j])
        invariant forall j :: i <= j < N ==> Map[j] == old(Map[j])
      {
        Map[i] := Map[i].(Water := Map[i].Water + TempDiffMap[i]);
        i := i + 1;
      }
    }

    /** The fast flow at one cell: a cell with water whose lowest neighbour (in the
        scan order W, E, N, S, then the diagonals) has its surface no higher than the
        cell's ground sends all its water there, in the scratch buffer. */
    method FastCell(cellx: int, celly: int)
      requires Sized() && 0 <= cellx < Size && 0 <= celly < Size
      modifies TempDiffMap
      ensures TempDiffMap[..] == FastCellDiffs(Map[..], old(TempDiffMap[..]), celly * 1024 + cellx)
    {
      CRowMajor(cellx, celly);
      var celli := C(cellx, celly);
      ghost var m := Map[..];
      FastPlanAt(m, cellx, celly);
      var cell := Map[celli];
      if cell.Water < FlowThreshold {
        assert FastPlan(m, celli) == Skip;
        return;
      }
      var lowest := LowestNeighbour(Map[..], cellx, celly);
      if lowest.height > cell.GroundLevel() {
        assert FastPlan(m, celli) == Skip;
        return;
      }
      assert FastPlan(m, celli) == Flow(celli, lowest.index, cell.Water, NoErosion);
      TransferOnBuffer(celli, lowest.index, cell.Water);
      assert Map[..] == m;
    }

    /** Moves `a` from entry `from` of the scratch buffer to entry `to`. */
    method TransferOnBuffer(from: int, to: int, a: real)
      requires Sized() && 0 <= from < N && 0 <= to < N
      modifies TempDiffMap
      ensures TempDiffMap[..] == Transfer(old(TempDiffMap[..]), from, to, a)
    {
      TempDiffMap[from] := TempDiffMap[from] - a;
      TempDiffMap[to] := TempDiffMap[to] + a;
    }

    /** The fast flow at cell (`cellx`, `celly`), the `k`-th in row-major order,
        extends a pass over grid `m` from a cleared buffer by that cell. */
    method FastCellAt(cellx: int, celly: int, ghost m: seq<Cell>, ghost k: int)
      requires Sized() && 0 <= cellx < Size && 0 <= celly < Size && Map[..] == m
      requires k == celly * 1024 + cellx && TempDiffMap[..] == FastDiffs(m, Zeros(N), k)
      modifies TempDiffMap
      ensures k < N && TempDiffMap[..] == FastDiffs(m, Zeros(N), k + 1)
    {
      CRowMajor(cellx, celly);
      FastCell(cellx, celly);
    }

    /** The fast flow over row `celly`, continuing a pass over grid `m` that started
        from a cleared buffer. */
    method FastRow(celly: int, ghost m: seq<Cell>)
      requires Sized() && 0 <= celly < Size && Map[..] == m
      requires TempDiffMap[..] == FastDiffs(m, Zeros(N), celly * 1024)
      modifies TempDiffMap
      ensures TempDiffMap[..] == FastDiffs(m, Zeros(N), (celly + 1) * 1024)
    {
      var cellx := 0;
      ghost var k := celly * 1024;
      while cellx < Width
        invariant 0 <= cellx <= Size && k == celly * 1024 + cellx
        invariant TempDiffMap[..] == FastDiffs(m, Zeros(N), k)
      {
        FastCellAt(cellx, celly, m, k);
        k, cellx := k + 1, cellx + 1;
      }
      assert k == (celly + 1) * 1024;
    }

    /** The fast flow: every cell, row by row, is planned against the grid as it was
        before the pass, and the buffer is merged at the end. */
    method RunWaterFast()
      requires Valid()
      modifies Map, TempDiffMap
      ensures Map[..] == FastFlow(old(Map[..]))
      ensures TempDiffMap[..] == FastDiffs(old(Map[..]), Zeros(N), N)
    {
      ClearTempDiffMap();
      FastPass();
      MergeTempDiffMap();
    }

    /** The fast flow's plans for every cell, row by row, gathered in the cleared
        scratch buffer. */
    method FastPass()
      requires Sized() && TempDiffMap[..] == Zeros(N)
      modifies TempDiffMap
      ensures TempDiffMap[..] == FastDiffs(Map[..], Zeros(N), N)
    {
      ghost var m := Map[..];
      var celly := 0;
      while celly < Height
        invariant 0 <= celly <= Size
        invariant Map[..] == m
        invariant TempDiffMap[..] == FastDiffs(m, Zeros(N), celly * 1024)
      {
        FastRow(celly, m);
        celly := celly + 1;
      }
      assert celly == Size;
      assert celly * 1024 == N;
    }

    /** The neighbour checks of the slow flow against the eight cells of `ring`, in
        ring order: each neighbour lower than `h` is listed in `lowerNeighbourIndex`,
        and the carried lowest height drops to its height when that is lower. */
    method CheckRing(ring: seq<int>, h: real, lowest: real, lowerNeighbourIndex: array<int>)
      returns (lowerNeighbours: int, newLowest: real)
      requires Sized() && CellList(ring) && |ring| == 8 && lowerNeighbourIndex.Length == 8
      modifies lowerNeighbourIndex
      ensures 0 <= lowerNeighbours <= 8
      ensures CheckNeighbours(Map[..], ring, h, lowest) ==
        Checked(lowerNeighbourIndex[..lowerNeighbours], newLowest)
    {
      lowerNeighbours, newLowest := 0, lowest;
      ghost var m := Map[..];
      ghost var chk := Checked([], lowest);
      var k := 0;
      while k < 8
        invariant 0 <= k <= 8 && 0 <= lowerNeighbours <= k
        invariant chk == CheckNeighbours(m, ring[..k], h, lowest)
        invariant chk.lower == lowerNeighbourIndex[..lowerNeighbours] && chk.lowest == newLowest
      {
        CheckNeighboursNext(m, ring, h, lowest, k);
        var i := ring[k];
        lowerNeighbours, newLowest := CheckNeighbour(i, h, lowerNeighbours, newLowest, lowerNeighbourIndex);
        chk := CheckOne(m, chk, i, h);
        k := k + 1;
      }
      assert ring[..8] == ring;
    }

    /** One neighbour check of the slow flow, on the list of lower neighbours found
        so far. */
    method CheckNeighbour(i: int, h: real, count: int, lowest: real, lowerNeighbourIndex: array<int>)
      returns (newCount: int, newLowest: real)
      requires Sized() && 0 <= i < N && 0 <= count < lowerNeighbourIndex.Length
      modifies lowerNeighbourIndex
      ensures 0 <= newCount <= count + 1
      ensures Checked(lowerNeighbourIndex[..newCount], newLowest) ==
        CheckOne(Map[..], Checked(old(lowerNeighbourIndex[..count]), lowest), i, h)
    {
      newCount, newLowest := count, lowest;
      var nh := Map[i].Height();
      if nh < h {
        lowerNeighbourIndex[count] := i;
        newCount := count + 1;
        if nh < lowest {
          newLowest := nh;
        }
      }
    }

    /** Debits cell `celli` by `diff` less one share and gives one share to each of
        the first `count` cells listed in `lowerNeighbourIndex`. */
    method ShedOnBuffer(celli: int, lowerNeighbourIndex: array<int>, count: int, share: real, diff: real)
      requires Sized() && 0 <= celli < N && 0 <= count <= lowerNeighbourIndex.Length
      requires forall t :: 0 <= t < count ==> 0 <= lowerNeighbourIndex[t] < N
      modifies TempDiffMap
      ensures TempDiffMap[..] == SlowShed(old(TempDiffMap[..]), celli, lowerNeighbourIndex[..count], share, diff)
    {
      TempDiffMap[celli] := TempDiffMap[celli] + (share - diff);
      ghost var d1 := TempDiffMap[..];
      var t := 0;
      while t < count
        invariant 0 <= t <= count
        invariant TempDiffMap[..] == AddEach(d1, lowerNeighbourIndex[..t], share)
      {
        assert lowerNeighbourIndex[..t + 1][..t] == lowerNeighbourIndex[..t];
        TempDiffMap[lowerNeighbourIndex[t]] := TempDiffMap[lowerNeighbourIndex[t]] + share;
        t := t + 1;
      }
      assert lowerNeighbourIndex[..count] == lowerNeighbourIndex[..t];
    }

    /** The slow flow at one cell: a cell with water and lower neighbours sheds a tenth
        of its excess over the carried lowest height (at most a tenth of its water) in
        equal shares to itself and each lower neighbour. */
    method SlowCell(cellx: int, celly: int, lowest: real, lowerNeighbourIndex: array<int>)
      returns (newLowest: real)
      requires Sized() && 0 <= cellx < Size && 0 <= celly < Size && lowerNeighbourIndex.Length == 8
      modifies TempDiffMap, lowerNeighbourIndex
      ensures SlowState(TempDiffMap[..], newLowest) ==
        SlowStep(Map[..], SlowState(old(TempDiffMap[..]), lowest), cellx, celly)
    {
      var celli := C(cellx, celly);
      ghost var m, st := Map[..], SlowState(TempDiffMap[..], lowest);
      var cell := Map[celli];
      if cell.Water < FlowThreshold {
        return lowest;
      }
      var h := cell.Height();
      var lowerNeighbours;
      lowerNeighbours, newLowest := CheckRing(AllNeighbours(cellx, celly), h, lowest, lowerNeighbourIndex);
      if lowerNeighbours == 0 {
        return;
      }
      LowerOfCell(m, cellx, celly, h, lowest);
      assert forall t :: 0 <= t < lowerNeighbours ==> lowerNeighbourIndex[..lowerNeighbours][t] == lowerNeighbourIndex[t];
      ShedCell(celli, h, newLowest, cell.Water, lowerNeighbourIndex, lowerNeighbours);
    }

    /** Sheds from cell `celli` of height `h` and water `water` a tenth of its excess
        over `lowest` (at most a tenth of its water), in equal shares to itself and the
        first `count` cells listed in `lowerNeighbourIndex`. */
    method ShedCell(celli: int, h: real, lowest: real, water: real, lowerNeighbourIndex: array<int>, count: int)
      requires Sized() && 0 <= celli < N && 0 < count <= lowerNeighbourIndex.Length
      requires forall t :: 0 <= t < count ==> 0 <= lowerNeighbourIndex[t] < N
      modifies TempDiffMap
      ensures var diff := SlowDamped(h, lowest, water);
        TempDiffMap[..] == SlowShed(old(TempDiffMap[..]), celli, lowerNeighbourIndex[..count], EvenShare(diff, count), diff)
    {
      var diff := h - lowest;
      if diff > water {
        diff := water;
      }
      diff := diff * 0.1;
      var waterToDistribute := diff / (count + 1) as real;
      assert diff == SlowDamped(h, lowest, water);
      assert waterToDistribute == EvenShare(diff, count);
      ShedOnBuffer(celli, lowerNeighbourIndex, count, waterToDistribute, diff);
    }

    /** The slow flow at cell (`cellx`, `celly`) extends a pass over grid `m` from a
        cleared buffer by that cell. */
    method SlowCellAt(cellx: int, celly: int, lowest: real, lowerNeighbourIndex: array<int>, ghost m: seq<Cell>)
      returns (newLowest: real)
      requires Sized() && 0 <= cellx < Size && 0 <= celly < Size && lowerNeighbourIndex.Length == 8 && Map[..] == m
      requires SlowState(TempDiffMap[..], lowest) == SlowPass(m, SlowState(Zeros(N), 0.0), celly * 1024 + cellx)
      modifies TempDiffMap, lowerNeighbourIndex
      ensures SlowState(TempDiffMap[..], newLowest) == SlowPass(m, SlowState(Zeros(N), 0.0), celly * 1024 + cellx + 1)
    {
      ghost var prev := SlowState(TempDiffMap[..], lowest);
      SlowPassAt(m, SlowState(Zeros(N), 0.0), cellx, celly, prev);
      newLowest := SlowCell(cellx, celly, lowest, lowerNeighbourIndex);
      assert Map[..] == m;
    }

    /** The slow flow over row `celly`, continuing a pass over grid `m` that started
        from a cleared buffer and lowest height 0. */
    method SlowRow(celly: int, lowest: real, lowerNeighbourIndex: array<int>, ghost m: seq<Cell>)
      returns (newLowest: real)
      requires Sized() && 0 <= celly < Size && lowerNeighbourIndex.Length == 8 && Map[..] == m
      requires SlowState(TempDiffMap[..], lowest) == SlowPass(m, SlowState(Zeros(N), 0.0), celly * 1024)
      modifies TempDiffMap, lowerNeighbourIndex
      ensures SlowState(TempDiffMap[..], newLowest) == SlowPass(m, SlowState(Zeros(N), 0.0), (celly + 1) * 1024)
    {
      newLowest := lowest;
      var cellx := 0;
      ghost var k := celly * 1024;
      while cellx < Width
        invariant 0 <= cellx <= Size && k == celly * 1024 + cellx
        invariant SlowState(TempDiffMap[..], newLowest) == SlowPass(m, SlowState(Zeros(N), 0.0), k)
      {
        newLowest := SlowCellAt(cellx, celly, newLowest, lowerNeighbourIndex, m);
        k, cellx := k + 1, cellx + 1;
      }
      assert k == (celly + 1) * 1024;
    }

    /** The slow flow: every cell, row by row, against the grid as it was before the
        pass, with one carried lowest height that starts at 0 and is never reset; the
        buffer is merged at the end. */
    method RunWaterSlow()
      requires Valid()
      modifies Map, TempDiffMap
      ensures Map[..] == SlowFlow(old(Map[..]))
      ensures TempDiffMap[..] == SlowPass(old(Map[..]), SlowState(Zeros(N), 0.0), N).d
    {
      ClearTempDiffMap();
      SlowPassRows();
      MergeTempDiffMap();
    }

    /** The slow flow's shedding for every cell, row by row, gathered in the cleared
        scratch buffer, with one carried lowest height that starts at 0. */
    method SlowPassRows()
      requires Sized() && TempDiffMap[..] == Zeros(N)
      modifies TempDiffMap
      ensures TempDiffMap[..] == SlowPass(Map[..], SlowState(Zeros(N), 0.0), N).d
    {
      var lowerNeighbourIndex := new int[8];
      var lowestNeighbour := 0.0;
      ghost var m := Map[..];
      var celly := 0;
      while celly < Height
        invariant 0 <= celly <= Size
        invariant Map[..] == m
        invariant SlowState(TempDiffMap[..], lowestNeighbour) == SlowPass(m, SlowState(Zeros(N), 0.0), celly * 1024)
      {
        lowestNeighbour := SlowRow(celly, lowestNeighbour, lowerNeighbourIndex, m);
        celly := celly + 1;
      }
      assert celly == Size;
      assert celly * 1024 == N;
    }

    method ClearErosionMap()
      requires Sized()
      modifies ErosionMap
      ensures ErosionMap[..] == ZeroGrid(N)
    {
      var i := 0;
      while i < Width * Height
        invariant 0 <= i <= N
        invariant forall j :: 0 <= j < i ==> ErosionMap[j] == Zero
      {
        ErosionMap[i] := ErosionMap[i].(Hard := 0.0, Loose := 0.0, Water := 0.0, DeltaHeight := 0.0);
        i := i + 1;
      }
    }

    /** The summed and the largest positive drop from (x, y) to its four cross
        neighbours, in the order N, W, E, S. */
    method CrossDrops(x: int, y: int) returns (drop: real, maxdrop: real)
      requires Sized() && 0 <= x < Size && 0 <= y < Size
      ensures drop == CellDrop(Map[..], C(x, y)) && maxdrop == CellMaxDrop(Map[..], C(x, y))
    {
      CDecodeInRange(x, y);
      var h := Map[C(x, y)].Height();
      var ns := CrossCells(x, y);
      ghost var hs := CrossHeights(Map[..], x, y);
      drop, maxdrop := 0.0, 0.0;
      var k := 0;
      while k < 4
        invariant 0 <= k <= 4
        invariant drop == DropSum(h, hs[..k]) && maxdrop == MaxDrop(h, hs[..k])
      {
        assert hs[..k + 1][..k] == hs[..k];
        var d := h - Map[ns[k]].Height();
        if d > 0.0 {
          drop := drop + d;
          if d > maxdrop {
            maxdrop := d;
          }
        }
        k := k + 1;
      }
      assert hs[..4] == hs;
    }

    /** Stores the drops of the cells of row `celly`, continuing the first stage of
        the proportional flow on grid `m`. */
    method ComputeDropsRow(celly: int, ghost m: seq<Cell>)
      requires Sized() && 0 <= celly < Size && Map[..] == m
      requires TotalCellDrop[..celly * 1024] == CellDrops(m)[..celly * 1024]
      requires MaxCellDrop[..celly * 1024] == CellMaxDrops(m)[..celly * 1024]
      modifies TotalCellDrop, MaxCellDrop
      ensures TotalCellDrop[..(celly + 1) * 1024] == CellDrops(m)[..(celly + 1) * 1024]
      ensures MaxCellDrop[..(celly + 1) * 1024] == CellMaxDrops(m)[..(celly + 1) * 1024]
    {
      var cellx := 0;
      ghost var k := celly * 1024;
      while cellx < Width
        invariant 0 <= cellx <= Size && k == celly * 1024 + cellx
        invariant TotalCellDrop[..k] == CellDrops(m)[..k]
        invariant MaxCellDrop[..k] == CellMaxDrops(m)[..k]
      {
        CRowMajor(cellx, celly);
        var i := C(cellx, celly);
        var drop, maxdrop := CrossDrops(cellx, celly);
        StoreDrops(i, drop, maxdrop);
        assert TotalCellDrop[..k + 1] == TotalCellDrop[..k] + [drop];
        assert CellDrops(m)[..k + 1] == CellDrops(m)[..k] + [drop];
        assert MaxCellDrop[..k + 1] == MaxCellDrop[..k] + [maxdrop];
        assert CellMaxDrops(m)[..k + 1] == CellMaxDrops(m)[..k] + [maxdrop];
        k, cellx := k + 1, cellx + 1;
      }
      assert k == (celly + 1) * 1024;
    }

    /** Stores one cell's drops. */
    method StoreDrops(i: int, drop: real, maxdrop: real)
      requires Sized() && 0 <= i < N
      modifies TotalCellDrop, MaxCellDrop
      ensures TotalCellDrop[..] == old(TotalCellDrop[..])[i := drop]
      ensures MaxCellDrop[..] == old(MaxCellDrop[..])[i := maxdrop]
    {
      TotalCellDrop[i] := drop;
      MaxCellDrop[i] := maxdrop;
    }

    /** Stores the drops of every cell, as the first stage of the proportional flow. */
    method ComputeDrops()
      requires Sized()
      modifies TotalCellDrop, MaxCellDrop
      ensures TotalCellDrop[..] == CellDrops(Map[..]) && MaxCellDrop[..] == CellMaxDrops(Map[..])
    {
      ghost var m := Map[..];
      var celly := 0;
      while celly < Height
        invariant 0 <= celly <= Size
        invariant TotalCellDrop[..celly * 1024] == CellDrops(m)[..celly * 1024]
        invariant MaxCellDrop[..celly * 1024] == CellMaxDrops(m)[..celly * 1024]
      {
        ComputeDropsRow(celly, m);
        celly := celly + 1;
      }
      assert TotalCellDrop[..] == TotalCellDrop[..N];
      assert MaxCellDrop[..] == MaxCellDrop[..N];
    }

    /** One downhill move of the proportional flow on the erosion buffer. */
    method MoveWaterDownhill(from: int, to: int, height: real, waterAmount: real, totalDrop: real)
      requires Sized() && 0 <= from < N && 0 <= to < N && totalDrop > 0.0
      modifies ErosionMap
      ensures ErosionMap[..] == ShareMove(Map[..], old(ErosionMap[..]), from, to, height, waterAmount, totalDrop)
    {
      var destHeight := Map[to].Height();
      if height > destHeight {
        var moveAmount := waterAmount * ((height - destHeight) / totalDrop);
        assert moveAmount == Share(height, destHeight, waterAmount, totalDrop);
        ghost var e0 := ErosionMap[..];
        ErosionMap[from] := ErosionMap[from].(Water := ErosionMap[from].Water - moveAmount);
        ghost var e1 := ErosionMap[..];
        assert e1 == e0[from := e0[from].(Water := e0[from].Water - moveAmount)];
        ErosionMap[to] := ErosionMap[to].(Water := ErosionMap[to].Water + moveAmount);
        assert ErosionMap[..] == e1[to := e1[to].(Water := e1[to].Water + moveAmount)];
      }
    }

    /** The proportional flow at (x, y), cell `k` of a pass over grid `m` with drops
        `d` that started from buffer `e`. */
    method ProportionalCell(x: int, y: int, ghost m: seq<Cell>, ghost d: seq<real>, ghost e: seq<Cell>, ghost k: int)
      requires Sized() && 0 <= x < Size && 0 <= y < Size && k == C(x, y) && |e| == N
      requires Map[..] == m && TotalCellDrop[..] == d
      requires ErosionMap[..] == ProportionalFlow(m, d, e, k)
      modifies ErosionMap
      ensures k < N && ErosionMap[..] == ProportionalFlow(m, d, e, k + 1)
    {
      var i := C(x, y);
      ProportionalFlowNext(m, d, e, i, ErosionMap[..]);
      ghost var e0 := ErosionMap[..];
      var totalDrop := TotalCellDrop[i];
      if totalDrop > 0.0 {
        var maxDrop := totalDrop * 0.3;
        var h := Map[i].Height();
        var waterAmount := if maxDrop > Map[i].Water then Map[i].Water else maxDrop;
        assert waterAmount == WaterAmount(totalDrop, m[i].Water);
        var ns := CrossCells(x, y);
        var j := 0;
        while j < 4
          invariant 0 <= j <= 4
          invariant ErosionMap[..] == ShareMoves(m, e0, i, ns[..j], h, waterAmount, totalDrop)
        {
          assert ns[..j + 1][..j] == ns[..j];
          MoveWaterDownhill(i, ns[j], h, waterAmount, totalDrop);
          j := j + 1;
        }
        assert ns[..4] == ns;
      }
      ProportionalStepAt(m, d, e0, x, y);
    }

    /** The proportional flow over row `celly`, continuing a pass over grid `m` with
        drops `d` that started from buffer `e`. */
    method DistributeRow(celly: int, ghost m: seq<Cell>, ghost d: seq<real>, ghost e: seq<Cell>)
      requires Sized() && 0 <= celly < Size && |e| == N
      requires Map[..] == m && TotalCellDrop[..] == d
      requires ErosionMap[..] == ProportionalFlow(m, d, e, celly * 1024)
      modifies ErosionMap
      ensures ErosionMap[..] == ProportionalFlow(m, d, e, (celly + 1) * 1024)
    {
      var cellx := 0;
      ghost var k := celly * 1024;
      while cellx < Width
        invariant 0 <= cellx <= Size && k == celly * 1024 + cellx
        invariant Map[..] == m && TotalCellDrop[..] == d
        invariant ErosionMap[..] == ProportionalFlow(m, d, e, k)
      {
        CRowMajor(cellx, celly);
        ProportionalCell(cellx, celly, m, d, e, k);
        k, cellx := k + 1, cellx + 1;
      }
      assert k == (celly + 1) * 1024;
    }

    /** The second stage of the proportional flow: every cell in turn, against the
        grid as it was before the pass and the drops recorded in `TotalCellDrop`. */
    method DistributeWater()
      requires Sized()
      modifies ErosionMap
      ensures ErosionMap[..] == ProportionalFlow(Map[..], TotalCellDrop[..], old(ErosionMap[..]), N)
    {
      ghost var m, d, e := Map[..], TotalCellDrop[..], ErosionMap[..];
      var celly := 0;
      while celly < Height
        invariant 0 <= celly <= Size
        invariant Map[..] == m && TotalCellDrop[..] == d
        invariant ErosionMap[..] == ProportionalFlow(m, d, e, celly * 1024)
      {
        DistributeRow(celly, m, d, e);
        celly := celly + 1;
      }
    }

    /** Adds the erosion buffer's rock, sediment and water to the grid. */
    method MergeErosionMap()
      requires Sized()
      modifies Map
      ensures Map[..] == MergeErosion(old(Map[..]), ErosionMap[..])
    {
      var i := 0;
      while i < Width * Height
        invariant 0 <= i <= N
        invariant forall j :: 0 <= j < i ==> Map[j] == old(Map[j]).(Hard := old(Map[j]).Hard + ErosionMap[j].Hard,
          Loose := old(Map[j]).Loose + ErosionMap[j].Loose, Water := old(Map[j]).Water + ErosionMap[j].Water)
        invariant forall j :: i <= j < N ==> Map[j] == old(Map[j])
      {
        Map[i] := Map[i].(Hard := Map[i].Hard + ErosionMap[i].Hard, Loose := Map[i].Loose + ErosionMap[i].Loose,
                          Water := Map[i].Water + ErosionMap[i].Water);
        i := i + 1;
      }
    }

    /** The proportional flow: water moves downhill to every lower cross neighbour in
        proportion to its drop, through a cleared erosion buffer merged at the end. */
    method RunWater()
      requires Valid()
      modifies Map, ErosionMap, TotalCellDrop, MaxCellDrop
      ensures Map[..] == ProportionalFlowGrid(old(Map[..]))
      ensures ErosionMap[..] == ProportionalFlow(old(Map[..]), CellDrops(old(Map[..])), ZeroGrid(N), N)
      ensures TotalCellDrop[..] == CellDrops(old(Map[..])) && MaxCellDrop[..] == CellMaxDrops(old(Map[..]))
    {
      ClearErosionMap();
      ComputeDrops();
      DistributeWater();
      MergeErosionMap();
    }

    // =========================================================================
    // Mass movement

    /** One slump pull into `pTo` from neighbour `pFrom`, whose loose material stands
        more than `threshold` above the running level `h`; the move is booked in the
        scratch buffer and its size returned. */
    method SlumpPull(pFrom: int, pTo: int, h: real, a: real, threshold: real) returns (moved: real)
      requires Sized() && 0 <= pFrom < N && 0 <= pTo < N
      modifies TempDiffMap
      ensures moved == SlumpAmount(Map[pFrom], h, a, threshold)
      ensures var d1 := old(TempDiffMap[..])[pFrom := old(TempDiffMap[pFrom]) - moved];
        TempDiffMap[..] == d1[pTo := d1[pTo] + moved]
    {
      var loose := Map[pFrom].Loose;
      if loose > 0.0 {
        var diff := (Map[pFrom].Hard + loose) - h;
        if diff > threshold {
          diff := diff - threshold;
          if diff > loose {
            diff := loose;
          }
          diff := diff * a;
          TempDiffMap[pFrom] := TempDiffMap[pFrom] - diff;
          TempDiffMap[pTo] := TempDiffMap[pTo] + diff;
          return diff;
        }
      }
      assert TempDiffMap[..][pFrom := TempDiffMap[pFrom] - 0.0] == TempDiffMap[..];
      return 0.0;
    }

    /** One collapse pull into `pTo` from neighbour `pFrom`: rock standing more than
        `threshold` above the running level `h` moves, unless `pFrom` is covered by more
        than `looseThreshold` of sediment. */
    method CollapsePull(pFrom: int, pTo: int, h: real, a: real, threshold: real, looseThreshold: real)
      returns (moved: real)
      requires Sized() && 0 <= pFrom < N && 0 <= pTo < N
      modifies TempDiffMap
      ensures moved == CollapseAmount(Map[pFrom], h, a, threshold, looseThreshold)
      ensures var d1 := old(TempDiffMap[..])[pFrom := old(TempDiffMap[pFrom]) - moved];
        TempDiffMap[..] == d1[pTo := d1[pTo] + moved]
    {
      assert TempDiffMap[..][pFrom := TempDiffMap[pFrom] - 0.0] == TempDiffMap[..];
      if Map[pFrom].Loose > looseThreshold {
        return 0.0;
      }
      var diff := Map[pFrom].Hard - h;
      if diff > threshold {
        diff := diff - threshold;
        diff := diff * a;
        TempDiffMap[pFrom] := TempDiffMap[pFrom] - diff;
        TempDiffMap[pTo] := TempDiffMap[pTo] + diff;
        return diff;
      }
      return 0.0;
    }

    /** The pull of the running pass, slump or collapse. */
    method Pull(rule: MassRule, pFrom: int, pTo: int, h: real, a: real, threshold: real) returns (moved: real)
      requires Sized() && 0 <= pFrom < N && 0 <= pTo < N
      modifies TempDiffMap
      ensures moved == MoveAmount(rule, Map[pFrom], h, a, threshold)
      ensures var d1 := old(TempDiffMap[..])[pFrom := old(TempDiffMap[pFrom]) - moved];
        TempDiffMap[..] == d1[pTo := d1[pTo] + moved]
    {
      match rule
      case SlumpRule =>
        moved := SlumpPull(pFrom, pTo, h, a, threshold);
      case CollapseRule(looseThreshold) =>
        moved := CollapsePull(pFrom, pTo, h, a, threshold, looseThreshold);
    }

    /** One sample of a slump or collapse pass at `(x, y)`: the pulls from the n, s, w,
        e neighbours with threshold `th`, then from the diagonals with `thDiag`, each
        raising the running level by what it moved. */
    method PullInto(rule: MassRule, x: int, y: int, a: real, th: real, thDiag: real)
      requires Sized()
      modifies TempDiffMap
      ensures TempDiffMap[..] ==
        PullFrom(rule, Map[..], old(TempDiffMap[..]), C(x, y), PullCells(x, y), 0, Map[C(x, y)].GroundLevel(), a, th, thDiag)
    {
      var p := C(x, y);
      var ns := PullCells(x, y);
      var h := Map[p].Hard + Map[p].Loose;
      ghost var m := Map[..];
      ghost var target := PullFrom(rule, m, TempDiffMap[..], p, ns, 0, h, a, th, thDiag);
      var k := 0;
      while k < 8
        invariant 0 <= k <= 8 && Map[..] == m
        invariant PullFrom(rule, m, TempDiffMap[..], p, ns, k, h, a, th, thDiag) == target
      {
        h := PullSlot(rule, m, p, ns, k, h, a, th, thDiag);
        k := k + 1;
      }
    }

    /** Slot `k` of a sample: the pull from `ns[k]` into `p` at running level `h`, which
        leaves the remaining pulls to do what all of them from slot `k` would have. */
    method PullSlot(rule: MassRule, ghost m: seq<Cell>, p: int, ns: seq<int>, k: int, h: real,
                    a: real, th: real, thDiag: real) returns (next: real)
      requires Sized() && Map[..] == m && 0 <= p < N && CellList(ns) && 0 <= k < |ns|
      modifies TempDiffMap
      ensures PullFrom(rule, m, TempDiffMap[..], p, ns, k + 1, next, a, th, thDiag) ==
              PullFrom(rule, m, old(TempDiffMap[..]), p, ns, k, h, a, th, thDiag)
    {
      ghost var d := TempDiffMap[..];
      var moved := Pull(rule, ns[k], p, h, a, SlotThreshold(k, th, thDiag));
      PullFromStep(rule, m, d, p, ns, k, h, a, th, thDiag, moved);
      next := h + moved;
    }

    /** The samples of a slump or collapse pass: sample `i` is taken at the column and
        row that draws `2 i` and `2 i + 1` pick. */
    method MassPass(rule: MassRule, numIterations: int, draws: seq<nat>, a: real, th: real, thDiag: real)
      requires Sized() && 2 * numIterations <= |draws|
      modifies TempDiffMap
      ensures TempDiffMap[..] ==
        MassSamples(rule, Map[..], old(TempDiffMap[..]), draws, if numIterations > 0 then numIterations else 0, a, th, thDiag)
    {
      ghost var m, d0 := Map[..], TempDiffMap[..];
      ghost var count := if numIterations > 0 then numIterations else 0;
      var i := 0;
      while i < numIterations
        invariant 0 <= i <= count && Map[..] == m
        invariant TempDiffMap[..] == MassSamples(rule, m, d0, draws, i, a, th, thDiag)
      {
        MassSample(rule, m, d0, draws, i, a, th, thDiag);
        i := i + 1;
      }
      assert i == count;
    }

    /** Sample `i` of a slump or collapse pass, at the column and row that draws `2 i`
        and `2 i + 1` pick, after the first `i` samples. */
    method MassSample(rule: MassRule, ghost m: seq<Cell>, ghost d0: seq<real>, draws: seq<nat>, i: nat,
                      a: real, th: real, thDiag: real)
      requires Sized() && Map[..] == m && |d0| == N && 2 * i + 2 <= |draws|
      requires TempDiffMap[..] == MassSamples(rule, m, d0, draws, i, a, th, thDiag)
      modifies TempDiffMap
      ensures TempDiffMap[..] == MassSamples(rule, m, d0, draws, i + 1, a, th, thDiag)
    {
      var x := Next(draws[2 * i], Width);
      var y := Next(draws[2 * i + 1], Height);
      MassSamplesNext(rule, m, d0, draws, i, a, th, thDiag);
      PullInto(rule, x, y, a, th, thDiag);
    }

    /** Slump's merge: adds the scratch buffer to every cell's loose material. */
    method MergeLooseDiffs()
      requires Sized()
      modifies Map
      ensures Map[..] == SlumpMerge(old(Map[..]), TempDiffMap[..])
    {
      var i := 0;
      while i < Width * Height
        invariant 0 <= i <= N
        invariant forall j :: 0 <= j < i ==> Map[j] == old(Map[j]).(Loose := old(Map[j]).Loose + TempDiffMap[j])
        invariant forall j :: i <= j < N ==> Map[j] == old(Map[j])
      {
        Map[i] := Map[i].(Loose := Map[i].Loose + TempDiffMap[i]);
        i := i + 1;
      }
    }

    /** Collapse's merge: a negative entry of the scratch buffer is taken from the
        cell's rock, any other is added to its loose material. */
    method MergeCollapseDiffs()
      requires Sized()
      modifies Map
      ensures Map[..] == CollapseMerge(old(Map[..]), TempDiffMap[..])
    {
      var i := 0;
      while i < Width * Height
        invariant 0 <= i <= N
        invariant forall j :: 0 <= j < i ==>
                    Map[j] == if TempDiffMap[j] < 0.0 then old(Map[j]).(Hard := old(Map[j]).Hard + TempDiffMap[j])
                              else old(Map[j]).(Loose := old(Map[j]).Loose + TempDiffMap[j])
        invariant forall j :: i <= j < N ==> Map[j] == old(Map[j])
      {
        var d := TempDiffMap[i];
        if d < 0.0 {
          Map[i] := Map[i].(Hard := Map[i].Hard + d);
        } else {
          Map[i] := Map[i].(Loose := Map[i].Loose + d);
        }
        i := i + 1;
      }
    }

    /** Slumps loose material over `numIterations` sampled cells against the grid as it
        was before the pass, then adds the moves to the loose material. */
    method Slump(threshold: real, amount: real, numIterations: int, draws: seq<nat>)
      requires Valid() && 2 * numIterations <= |draws|
      modifies Map, TempDiffMap
      ensures Map[..] == SlumpMerge(old(Map[..]),
        MassSamples(SlumpRule, old(Map[..]), Zeros(N), draws, if numIterations > 0 then numIterations else 0,
                    amount, threshold, threshold * SlumpDiagonal))
      ensures TempDiffMap[..] ==
        MassSamples(SlumpRule, old(Map[..]), Zeros(N), draws, if numIterations > 0 then numIterations else 0,
                    amount, threshold, threshold * SlumpDiagonal)
    {
      ClearTempDiffMap();
      MassPass(SlumpRule, numIterations, draws, amount, threshold, threshold * SlumpDiagonal);
      MergeLooseDiffs();
    }

    /** Collapses exposed rock over `numIterations` sampled cells against the grid as
        it was before the pass, then merges the moves: losses from rock, gains as loose
        material. */
    method Collapse(threshold: real, amount: real, looseThreshold: real, numIterations: int, draws: seq<nat>)
      requires Valid() && 2 * numIterations <= |draws|
      modifies Map, TempDiffMap
      ensures Map[..] == CollapseMerge(old(Map[..]),
        MassSamples(CollapseRule(looseThreshold), old(Map[..]), Zeros(N), draws,
                    if numIterations > 0 then numIterations else 0, amount, threshold, threshold * Sqrt2))
      ensures TempDiffMap[..] ==
        MassSamples(CollapseRule(looseThreshold), old(Map[..]), Zeros(N), draws,
                    if numIterations > 0 then numIterations else 0, amount, threshold, threshold * Sqrt2)
    {
      ClearTempDiffMap();
      MassPass(CollapseRule(looseThreshold), numIterations, draws, amount, threshold, threshold * Sqrt2);
      MergeCollapseDiffs();
    }

    /** `CollapseFrom`'s step at neighbour `i` of centre `ci`: the neighbour gains loose
        material up to the centre's old height `h`, capped by the centre's loose
        material. */
    method CollapseCell(ci: int, i: int, h: real, a: real) returns (gain: real)
      requires Sized() && 0 <= ci < N && 0 <= i < N
      modifies Map
      ensures gain == FromGain(old(Map[ci]), old(Map[i]), h, a)
      ensures Map[..] == old(Map[..])[i := old(Map[i]).(Loose := old(Map[i]).Loose + gain)]
    {
      var diff := h - Map[i].Height();
      if diff > Map[ci].Loose * 0.2 {
        diff := Map[ci].Loose * 0.2;
      }
      if diff > 0.0 {
        diff := diff * a;
        Map[i] := Map[i].(Loose := Map[i].Loose + diff);
        return diff;
      }
      assert Map[..][i := Map[i].(Loose := Map[i].Loose + 0.0)] == Map[..];
      return 0.0;
    }

    /** `CollapseTo`'s step at neighbour `i`: the neighbour loses loose material down
        to the centre's old height `h`, capped by a quarter of its own loose material. */
    method CollapseToCell(i: int, h: real, a: real) returns (loss: real)
      requires Sized() && 0 <= i < N
      modifies Map
      ensures loss == ToLoss(old(Map[i]), h, a)
      ensures Map[..] == old(Map[..])[i := old(Map[i]).(Loose := old(Map[i]).Loose - loss)]
    {
      var diff := Map[i].Height() - h;
      if diff > Map[i].Loose * 0.25 {
        diff := Map[i].Loose * 0.25;
      }
      if diff > 0.0 {
        diff := diff * a;
        Map[i] := Map[i].(Loose := Map[i].Loose - diff);
        return diff;
      }
      assert Map[..][i := Map[i].(Loose := Map[i].Loose - 0.0)] == Map[..];
      return 0.0;
    }

    /** Slot `k` of a point collapse around cell `ci`: neighbour `ns[k]` gains
        (`FromRule`) or loses (`ToRule`) loose material, with the straight-neighbour
        amount `a` in the first four slots and the diagonal amount `a2` after, and the
        change joins the running total `moved`. */
    method PointSlot(rule: PointRule, ci: int, ns: seq<int>, k: int, h: real, a: real, a2: real, moved: real)
      returns (next: real)
      requires Sized() && 0 <= ci < N && CellList(ns) && 0 <= k < |ns| && ns[k] != ci
      modifies Map
      ensures Map[ci] == old(Map[ci])
      ensures PointFold(rule, Map[..], ci, ns, k + 1, h, a, a2, next) ==
              PointFold(rule, old(Map[..]), ci, ns, k, h, a, a2, moved)
    {
      ghost var m := Map[..];
      var v;
      match rule {
        case FromRule =>
          v := CollapseCell(ci, ns[k], h, if k < 4 then a else a2);
        case ToRule =>
          v := CollapseToCell(ns[k], h, if k < 4 then a else a2);
      }
      PointFoldStep(rule, m, ci, ns, k, h, a, a2, moved, v);
      next := moved + v;
    }

    /** Spreads loose material from the cell at `(cx, cy)` to its lower neighbours and
        takes the total from the centre, from its rock once its loose material runs
        out. */
    method CollapseFrom(cx: int, cy: int, amount: real)
      requires Valid()
      modifies Map
      ensures Map[..] == CollapseFromCells(old(Map[..]), cx, cy, amount)
    {
      var ci := C(cx, cy);
      var h := Map[ci].Height();
      var dh := 0.0;
      var amount2 := amount * PointDiagonal;
      var ns := ScanCells(cx, cy);
      ghost var target := PointFold(FromRule, Map[..], ci, ns, 0, h, amount, amount2, 0.0);
      var k := 0;
      while k < 8
        invariant 0 <= k <= 8
        invariant Map[ci] == old(Map[ci])
        invariant PointFold(FromRule, Map[..], ci, ns, k, h, amount, amount2, dh) == target
      {
        dh := PointSlot(FromRule, ci, ns, k, h, amount, amount2, dh);
        k := k + 1;
      }
      if dh < Map[ci].Loose {
        Map[ci] := Map[ci].(Loose := Map[ci].Loose - dh);
      } else {
        Map[ci] := Map[ci].(Hard := Map[ci].Hard - (dh - Map[ci].Loose), Loose := 0.0);
      }
    }

    /** Pulls loose material from the neighbours of `(cx, cy)` standing above it into
        the centre's loose material. */
    method CollapseTo(cx: int, cy: int, amount: real)
      requires Valid()
      modifies Map
      ensures Map[..] == CollapseToCells(old(Map[..]), cx, cy, amount)
    {
      var ci := C(cx, cy);
      var h := Map[ci].Height();
      var dh := 0.0;
      var amount2 := amount * PointDiagonal;
      var ns := ScanCells(cx, cy);
      ghost var target := PointFold(ToRule, Map[..], ci, ns, 0, h, amount, amount2, 0.0);
      var k := 0;
      while k < 8
        invariant 0 <= k <= 8
        invariant PointFold(ToRule, Map[..], ci, ns, k, h, amount, amount2, dh) == target
      {
        dh := PointSlot(ToRule, ci, ns, k, h, amount, amount2, dh);
        k := k + 1;
      }
      Map[ci] := Map[ci].(Loose := Map[ci].Loose + dh);
    }

    // =========================================================================
    // The tick

    /** The rain half of a tick: while the atmosphere holds water, its budget is
        lowered by at most the per-tick maximum, and a fixed rain falls in `TickDrops`
        drops whatever that draw was. */
    method TickRain(drops: seq<nat>)
      requires Valid() && TickDrops <= |drops|
      modifies this`AtmosphericWater, Map
      ensures AtmosphericWater == BudgetAfterTick(old(AtmosphericWater), Parameters.MaxRainPerFrame)
      ensures Map[..] == TickRained(old(Map[..]), old(AtmosphericWater), drops)
    {
      if AtmosphericWater > 0.0 {
        var rainAmount := ClampInclusive(AtmosphericWater, 0.0, Parameters.MaxRainPerFrame);
        AtmosphericWater := AtmosphericWater - rainAmount;
        AddRainRandom(TickAmount, TickDrops, drops);
      }
    }

    /** One tick: the rain (from `drops`), then the water map is rebuilt and
        `TickSamples` samples of the stochastic flow run (from `draws`), and the tick
        count goes up by one. */
    method ModifyTerrain(drops: seq<nat>, draws: seq<nat>)
      requires Valid() && TickDrops <= |drops| && TickSamples <= |draws|
      modifies this`AtmosphericWater, this`Iterations, this`WaterMapSize, WaterMap, Map, ErosionMap
      ensures Valid()
      ensures AtmosphericWater == BudgetAfterTick(old(AtmosphericWater), Parameters.MaxRainPerFrame)
      ensures Iterations == old(Iterations) + 1
      ensures var rained := TickRained(old(Map[..]), old(AtmosphericWater), drops);
        WaterMapSize == |WetPrefix(rained, N)| &&
        WaterMap[..] == RebuiltWaterMap(rained, old(WaterMap[..])) &&
        Grids(Map[..], ErosionMap[..]) ==
          RandomFlow(Grids(rained, old(ErosionMap[..])), WaterMap[..], WaterMapSize, draws[..TickSamples])
    {
      TickRain(drops);
      ghost var budget := AtmosphericWater;
      RunWaterRandom(TickSamples, draws);
      assert AtmosphericWater == budget;
      Iterations := Iterations + 1;
    }

    // =========================================================================
    // Snapshots

    /** The words `Save` writes: the header, then each cell's four fields in index
        order. */
    method Save() returns (words: seq<Word>)
      requires Valid()
      ensures words == SaveWords(Map[..], Width, Height)
    {
      var header := [I32(FileMagic), I32(Width), I32(Height)];
      words := header;
      var i := 0;
      while i < Width * Height
        invariant 0 <= i <= N
        invariant words == header + BodyWords(Map[..i])
      {
        assert Map[..i + 1][..i] == Map[..i];
        words := words + [F32(Map[i].Hard), F32(Map[i].Loose), F32(Map[i].Water), F32(Map[i].DeltaHeight)];
        i := i + 1;
      }
      assert Map[..N] == Map[..];
    }

    /** Reads the four fields of cell `i` from words `3 + 4 i` on, each one only if the
        file reaches it; reports whether the file ended before the last of them. */
    method LoadCellAt(i: int, ws: seq<Word>, asReal: int -> real) returns (ended: bool)
      requires Sized() && 0 <= i < N
      modifies Map
      ensures ended <==> |ws| < 3 + 4 * i + 4
      ensures Map[..] == old(Map[..])[i := LoadCell(old(Map[i]), ws, 3 + 4 * i, asReal)]
    {
      var pos := 3 + 4 * i;
      if pos >= |ws| {
        return true;
      }
      Map[i] := Map[i].(Hard := ReadReal(ws[pos], asReal));
      if pos + 1 >= |ws| {
        return true;
      }
      Map[i] := Map[i].(Loose := ReadReal(ws[pos + 1], asReal));
      if pos + 2 >= |ws| {
        return true;
      }
      Map[i] := Map[i].(Water := ReadReal(ws[pos + 2], asReal));
      if pos + 3 >= |ws| {
        return true;
      }
      Map[i] := Map[i].(DeltaHeight := ReadReal(ws[pos + 3], asReal));
      return false;
    }

    /** Loads a snapshot: the magic number and the size are checked before any cell is
        written; the cells are then read in index order until the file ends; only a
        complete load resets the atmospheric water to the budget. */
    method Load(ws: seq<Word>, asInt: real -> int, asReal: int -> real) returns (r: LoadResult)
      requires Valid()
      modifies Map, this`AtmosphericWater
      ensures r == LoadOutcome(old(Map[..]), ws, Width, Height, asInt)
      ensures Map[..] == LoadGrid(old(Map[..]), ws, Width, Height, asInt, asReal)
      ensures AtmosphericWater == if r.Loaded? then Parameters.TotalWaterBudget else old(AtmosphericWater)
    {
      if |ws| < 1 {
        return EndOfStream;
      }
      var magic := ReadInt(ws[0], asInt);
      if magic != FileMagic {
        return NotATerrainFile;
      }
      if |ws| < 3 {
        return EndOfStream;
      }
      var w := ReadInt(ws[1], asInt);
      var h := ReadInt(ws[2], asInt);
      if w != Width || h != Height {
        return SizeMismatch(w, h);
      }
      var i := 0;
      while i < Width * Height
        invariant 0 <= i <= N && |ws| >= 3 + 4 * i && AtmosphericWater == old(AtmosphericWater)
        invariant forall j :: 0 <= j < i ==> Map[j] == LoadCell(old(Map[j]), ws, 3 + 4 * j, asReal)
        invariant forall j :: i <= j < N ==> Map[j] == old(Map[j])
      {
        var ended := LoadCellAt(i, ws, asReal);
        if ended {
          assert Map[..] == LoadBody(old(Map[..]), ws, asReal);
          return EndOfStream;
        }
        i := i + 1;
      }
      assert Map[..] == LoadBody(old(Map[..]), ws, asReal);
      AtmosphericWater := Parameters.TotalWaterBudget;
      return Loaded;
    }
  }
}
