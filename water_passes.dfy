/** The four water-transport passes as functions from the grid before a pass to the
    buffers after it, with the bookkeeping each one keeps.

    Every pass reads a grid that does not change while it runs (the full-grid passes
    write a scratch buffer that is merged at the end; the stochastic pass applies one
    sample at a time), so each is a fold over cells or samples. */
module WaterPasses {
  import opened Addressing
  import opened Cells
  import opened Draws
  import opened FlowRules

  /** The full-grid passes skip a cell with less water than this. */
  const FlowThreshold: real := 0.00001

  /** A buffer of `n` zeros, as allocated or cleared. */
  function Zeros(n: nat): (z: seq<real>)
    ensures |z| == n && Sum(z) == 0.0
    ensures forall i :: 0 <= i < n ==> z[i] == 0.0
  {
    var z := seq(n, _ => 0.0);
    SumZeros(z);
    z
  }

  /** A grid of `n` cleared cells. */
  function ZeroGrid(n: nat): (z: seq<Cell>)
    ensures |z| == n
    ensures forall i :: 0 <= i < n ==> z[i] == Zero
  {
    seq(n, _ => Zero)
  }

  // ===========================================================================
  // The stochastic flow

  /** The terrain grid and the erosion buffer the stochastic flow writes. */
  datatype Grids = Grids(terrain: seq<Cell>, erosion: seq<Cell>)

  predicate Shaped(g: Grids) {
    |g.terrain| == N && |g.erosion| == N
  }

  /** A water map: `N` entries, each a cell index, of which the first `size` are live. */
  predicate WaterMapShaped(wm: seq<int>, size: int) {
    |wm| == N && 0 <= size <= N && forall j :: 0 <= j < N ==> 0 <= wm[j] < N
  }

  /** The cell a draw selects: an entry of the live part of the water map, or the stale
      first entry when the water map is empty. */
  function SampledCell(wm: seq<int>, size: int, draw: nat): (c: int)
    requires WaterMapShaped(wm, size)
    ensures 0 <= c < N
    ensures size > 0 ==> c in wm[..size]
    ensures size == 0 ==> c == wm[0]
  {
    var j := Next(draw, size);
    assert size > 0 ==> wm[..size][j] == wm[j];
    wm[j]
  }

  /** The water map after its rebuild: the wet cells in increasing order, followed by
      the stale entries of the old map. */
  function RebuiltWaterMap(m: seq<Cell>, wm: seq<int>): (r: seq<int>)
    requires |m| == N && |wm| == N
    ensures |r| == N
    ensures (forall j :: 0 <= j < N ==> 0 <= wm[j] < N) ==> WaterMapShaped(r, |WetPrefix(m, N)|)
  {
    var w := WetPrefix(m, N);
    assert forall j :: 0 <= j < |w| ==> (w + wm[|w|..])[j] == w[j];
    w + wm[|w|..]
  }

  /** One sample applied: water moves on the terrain grid, erosion is recorded in the
      erosion buffer. */
  function SampleStep(g: Grids, celli: int): (r: Grids)
    requires Shaped(g) && 0 <= celli < N
    ensures Shaped(r)
  {
    match PlanSample(g.terrain, celli)
    case Skip => g
    case Flow(from, to, w, er) => Grids(MoveWater(g.terrain, from, to, w), ApplyErosion(g.erosion, from, to, er))
  }

  /** The grids after one sample per draw of `draws`, in order. */
  function RandomFlow(g: Grids, wm: seq<int>, size: int, draws: seq<nat>): (r: Grids)
    requires Shaped(g) && WaterMapShaped(wm, size)
    ensures Shaped(r)
    decreases |draws|
  {
    if |draws| == 0 then g
    else SampleStep(RandomFlow(g, wm, size, draws[..|draws| - 1]), SampledCell(wm, size, draws[|draws| - 1]))
  }

  /** The bookkeeping a stochastic-flow state change keeps: the same total water, rock
      and sediment untouched on the terrain, the same summed ground in the erosion
      buffer, its water and height deltas untouched, and no water driven negative. */
  predicate FlowBookkeeping(g: Grids, r: Grids)
    requires Shaped(g) && Shaped(r)
  {
    Total(r.terrain, WaterQ) == Total(g.terrain, WaterQ) &&
    (forall i :: 0 <= i < N ==> r.terrain[i] == g.terrain[i].(Water := r.terrain[i].Water)) &&
    Total(r.erosion, GroundQ) == Total(g.erosion, GroundQ) &&
    (forall i :: 0 <= i < N ==>
      r.erosion[i].Water == g.erosion[i].Water && r.erosion[i].DeltaHeight == g.erosion[i].DeltaHeight) &&
    ((forall i :: 0 <= i < N ==> g.terrain[i].Water >= 0.0) ==> (forall i :: 0 <= i < N ==> r.terrain[i].Water >= 0.0))
  }

  /** One sample keeps the bookkeeping. */
  lemma SampleStepConserves(g: Grids, celli: int)
    requires Shaped(g) && 0 <= celli < N
    ensures FlowBookkeeping(g, SampleStep(g, celli))
  {
    PlanSampleProperties(g.terrain, celli);
    match PlanSample(g.terrain, celli)
    case Skip =>
    case Flow(from, to, w, er) => FlowStepConserves(g, from, to, w, er);
  }

  /** Moving at most the source cell's water to another cell, with any erosion along
      that edge, keeps the bookkeeping. */
  lemma FlowStepConserves(g: Grids, from: int, to: int, w: real, er: Erosion)
    requires Shaped(g) && 0 <= from < N && 0 <= to < N && from != to
    requires 0.0 <= w <= g.terrain[from].Water
    ensures FlowBookkeeping(g, Grids(MoveWater(g.terrain, from, to, w), ApplyErosion(g.erosion, from, to, er)))
  {
    MoveWaterConserves(g.terrain, from, to, w);
    ErosionBookkeeping(g.erosion, from, to, er);
  }

  /** One more draw runs one more sample, at the cell that draw selects. */
  lemma RandomFlowNext(g: Grids, wm: seq<int>, size: int, draws: seq<nat>, i: int)
    requires Shaped(g) && WaterMapShaped(wm, size) && 0 <= i < |draws|
    ensures RandomFlow(g, wm, size, draws[..i + 1]) ==
            SampleStep(RandomFlow(g, wm, size, draws[..i]), SampledCell(wm, size, draws[i]))
  {
    assert draws[..i + 1][..i] == draws[..i];
  }

  /** Any run of samples keeps the bookkeeping. */
  lemma {:induction false} RandomFlowConserves(g: Grids, wm: seq<int>, size: int, draws: seq<nat>)
    requires Shaped(g) && WaterMapShaped(wm, size)
    ensures FlowBookkeeping(g, RandomFlow(g, wm, size, draws))
    decreases |draws|
  {
    if |draws| > 0 {
      var prev := RandomFlow(g, wm, size, draws[..|draws| - 1]);
      RandomFlowConserves(g, wm, size, draws[..|draws| - 1]);
      SampleStepConserves(prev, SampledCell(wm, size, draws[|draws| - 1]));
    }
  }

  // ===========================================================================
  // The fast flow

  /** The fast flow at one cell: a cell with water sends all of it to its lowest
      neighbour when that neighbour's surface is not above the cell's ground. */
  function FastPlan(m: seq<Cell>, celli: int): (s: Sample)
    requires |m| == N && 0 <= celli < N
    ensures var low := LowestNeighbour(m, CX(celli), CY(celli));
      (s.Skip? <==> m[celli].Water < FlowThreshold || low.height > m[celli].GroundLevel()) &&
      (s.Flow? ==> s == Flow(celli, low.index, m[celli].Water, NoErosion))
    ensures s.Flow? ==> 0 <= s.to < N && s.to != celli && s.water >= FlowThreshold
  {
    CEncode(celli);
    var c := m[celli];
    if c.Water < FlowThreshold then Skip
    else
      var low := LowestNeighbour(m, CX(celli), CY(celli));
      if low.height > c.GroundLevel() then Skip
      else Flow(celli, low.index, c.Water, NoErosion)
  }

  /** The fast-flow plan of the cell at column `x` and row `y`, with the lowest
      neighbour found from those coordinates. */
  lemma FastPlanAt(m: seq<Cell>, x: int, y: int)
    requires |m| == N && 0 <= x < Size && 0 <= y < Size
    ensures var i, low := C(x, y), LowestNeighbour(m, x, y);
      FastPlan(m, i) ==
        if m[i].Water < FlowThreshold || low.height > m[i].GroundLevel() then Skip
        else Flow(i, low.index, m[i].Water, NoErosion)
  {
    CDecodeInRange(x, y);
  }

  /** The scratch buffer after the fast flow has visited cells `0 .. k-1`. */
  function FastDiffs(m: seq<Cell>, d: seq<real>, k: int): (r: seq<real>)
    requires |m| == N && |d| == N && 0 <= k <= N
    ensures |r| == N
    decreases k
  {
    if k == 0 then d else FastCellDiffs(m, FastDiffs(m, d, k - 1), k - 1)
  }

  /** The scratch buffer after the fast flow visits cell `celli`. */
  function FastCellDiffs(m: seq<Cell>, d: seq<real>, celli: int): (r: seq<real>)
    requires |m| == N && |d| == N && 0 <= celli < N
    ensures |r| == N
  {
    match FastPlan(m, celli)
    case Skip => d
    case Flow(from, to, w, _) => Transfer(d, from, to, w)
  }

  /** No entry of `r` is below the same entry of `d` by more than the water held by
      that cell, and only the first `k` cells are below at all. */
  predicate DebitedAtMost(m: seq<Cell>, d: seq<real>, r: seq<real>, k: int)
    requires |m| == N && |d| == N && |r| == N
  {
    forall j :: 0 <= j < N ==> r[j] >= d[j] - (if j < k then PositivePart(m[j].Water) else 0.0)
  }

  /** The fast flow's buffer sums to what it started with, and no visited cell is
      debited more than the water it holds; unvisited cells are never debited. */
  lemma {:induction false} FastDiffsBalance(m: seq<Cell>, d: seq<real>, k: int)
    requires |m| == N && |d| == N && 0 <= k <= N
    ensures Sum(FastDiffs(m, d, k)) == Sum(d)
    ensures DebitedAtMost(m, d, FastDiffs(m, d, k), k)
    decreases k
  {
    if k > 0 {
      FastDiffsBalance(m, d, k - 1);
      FastCellBalance(m, d, FastDiffs(m, d, k - 1), k);
    }
  }

  /** Visiting cell `k - 1` keeps the buffer's sum and extends the debit bound to the
      first `k` cells. */
  lemma FastCellBalance(m: seq<Cell>, d: seq<real>, prev: seq<real>, k: int)
    requires |m| == N && |d| == N && |prev| == N && 0 < k <= N
    requires DebitedAtMost(m, d, prev, k - 1)
    ensures Sum(FastCellDiffs(m, prev, k - 1)) == Sum(prev)
    ensures DebitedAtMost(m, d, FastCellDiffs(m, prev, k - 1), k)
  {
    match FastPlan(m, k - 1)
    case Skip =>
      DebitWiden(m, d, prev, k);
    case Flow(from, to, w, _) =>
      TransferKeepsSum(prev, from, to, w);
      FastStepBound(m, d, prev, k, to, w);
  }

  /** A bound for the first `k - 1` cells is one for the first `k`. */
  lemma DebitWiden(m: seq<Cell>, d: seq<real>, r: seq<real>, k: int)
    requires |m| == N && |d| == N && |r| == N
    requires DebitedAtMost(m, d, r, k - 1)
    ensures DebitedAtMost(m, d, r, k)
  {
  }

  /** Debiting cell `k-1` by its own water keeps each entry within the bound that
      `FastDiffsBalance` states for the first `k` cells. */
  lemma FastStepBound(m: seq<Cell>, d: seq<real>, prev: seq<real>, k: int, to: int, w: real)
    requires |m| == N && |d| == N && |prev| == N && 0 < k <= N && 0 <= to < N && to != k - 1
    requires w == m[k - 1].Water && w >= 0.0
    requires DebitedAtMost(m, d, prev, k - 1)
    ensures DebitedAtMost(m, d, Transfer(prev, k - 1, to, w), k)
  {
    var t := Transfer(prev, k - 1, to, w);
    forall j | 0 <= j < N
      ensures t[j] >= d[j] - (if j < k then PositivePart(m[j].Water) else 0.0)
    {
      if j == k - 1 {
        assert t[j] == prev[j] - w;
      } else if j == to {
        assert t[j] == prev[j] + w;
      } else {
        assert t[j] == prev[j];
      }
    }
  }

  // ===========================================================================
  // The slow flow

  /** The neighbour checks of the slow flow: the ring neighbours among the first `k`
      that are lower than `h`, in ring order, and the carried lowest height, which only
      ever decreases. */
  datatype Checked = Checked(lower: seq<int>, lowest: real)

  function CheckNeighbours(m: seq<Cell>, ring: seq<int>, h: real, lowest0: real): (c: Checked)
    requires |m| == N && CellList(ring)
    ensures |c.lower| <= |ring|
    ensures c.lowest <= lowest0
    decreases |ring|
  {
    if |ring| == 0 then Checked([], lowest0)
    else CheckOne(m, CheckNeighbours(m, ring[..|ring| - 1], h, lowest0), ring[|ring| - 1], h)
  }

  /** The checks list only cells of the ring that are lower than `h`; the carried
      lowest height is at most the height of each of them, and it is only changed when
      one is found. */
  lemma {:induction false} CheckNeighboursSound(m: seq<Cell>, ring: seq<int>, h: real, lowest0: real)
    requires |m| == N && CellList(ring)
    ensures var c := CheckNeighbours(m, ring, h, lowest0);
      && (forall j :: 0 <= j < |c.lower| ==>
            0 <= c.lower[j] < N && c.lower[j] in ring &&
            m[c.lower[j]].Height() < h && c.lowest <= m[c.lower[j]].Height())
      && (|c.lower| == 0 ==> c.lowest == lowest0)
    decreases |ring|
  {
    if |ring| > 0 {
      var init := ring[..|ring| - 1];
      CheckNeighboursSound(m, init, h, lowest0);
      forall v | v in init
        ensures v in ring
      {
        var t :| 0 <= t < |init| && init[t] == v;
        assert ring[t] == v;
      }
    }
  }

  /** The checks list every cell of the ring that is lower than `h`. */
  lemma {:induction false} CheckNeighboursComplete(m: seq<Cell>, ring: seq<int>, h: real, lowest0: real)
    requires |m| == N && CellList(ring)
    ensures var c := CheckNeighbours(m, ring, h, lowest0);
      forall j :: 0 <= j < |ring| && m[ring[j]].Height() < h ==> ring[j] in c.lower
    decreases |ring|
  {
    if |ring| > 0 {
      var k := |ring| - 1;
      var init := ring[..k];
      CheckNeighboursComplete(m, init, h, lowest0);
      var prev := CheckNeighbours(m, init, h, lowest0);
      var c := CheckNeighbours(m, ring, h, lowest0);
      forall j | 0 <= j < |ring| && m[ring[j]].Height() < h
        ensures ring[j] in c.lower
      {
        if j < k {
          assert init[j] == ring[j];
          assert ring[j] in prev.lower;
          assert c.lower == prev.lower || c.lower == prev.lower + [ring[k]];
        } else {
          assert c.lower == prev.lower + [ring[k]];
        }
      }
    }
  }

  /** On a ring of distinct cells, the checks list each neighbour once. */
  lemma {:induction false} CheckNeighboursDistinct(m: seq<Cell>, ring: seq<int>, h: real, lowest0: real)
    requires |m| == N && CellList(ring)
    requires forall j, j' :: 0 <= j < j' < |ring| ==> ring[j] != ring[j']
    ensures var c := CheckNeighbours(m, ring, h, lowest0);
      forall j, j' :: 0 <= j < j' < |c.lower| ==> c.lower[j] != c.lower[j']
    decreases |ring|
  {
    if |ring| > 0 {
      var init := ring[..|ring| - 1];
      CheckNeighboursDistinct(m, init, h, lowest0);
      CheckNeighboursSound(m, init, h, lowest0);
      assert ring[|ring| - 1] !in init;
    }
  }

  /** The slow flow lists each lower neighbour of a cell once. */
  lemma LowerNeighboursDistinct(m: seq<Cell>, x: int, y: int, h: real, lowest0: real)
    requires |m| == N
    ensures var c := CheckNeighbours(m, AllNeighbours(x, y), h, lowest0);
      forall j, j' :: 0 <= j < j' < |c.lower| ==> c.lower[j] != c.lower[j']
  {
    AllNeighboursDistinct(x, y);
    CheckNeighboursDistinct(m, AllNeighbours(x, y), h, lowest0);
  }

  /** One neighbour check: neighbour `i` is listed when it is lower than `h`, and the
      carried lowest height drops to its height when that is lower. */
  function CheckOne(m: seq<Cell>, c: Checked, i: int, h: real): (r: Checked)
    requires |m| == N && 0 <= i < N
    ensures m[i].Height() < h ==> r.lower == c.lower + [i] && r.lowest == (if m[i].Height() < c.lowest then m[i].Height() else c.lowest)
    ensures m[i].Height() >= h ==> r == c
  {
    var nh := m[i].Height();
    if nh < h then Checked(c.lower + [i], if nh < c.lowest then nh else c.lowest) else c
  }

  /** The checks of the first `k + 1` ring neighbours are those of the first `k`
      followed by the check of neighbour `k`. */
  lemma CheckNeighboursNext(m: seq<Cell>, ring: seq<int>, h: real, lowest0: real, k: int)
    requires |m| == N && CellList(ring) && 0 <= k < |ring|
    ensures CheckNeighbours(m, ring[..k + 1], h, lowest0) ==
      CheckOne(m, CheckNeighbours(m, ring[..k], h, lowest0), ring[k], h)
  {
    assert ring[..k + 1][..k] == ring[..k];
  }

  /** The buffer after `v` is added at each index of `idx` in turn. */
  function AddEach(d: seq<real>, idx: seq<int>, v: real): (r: seq<real>)
    requires forall j :: 0 <= j < |idx| ==> 0 <= idx[j] < |d|
    ensures |r| == |d|
    decreases |idx|
  {
    if |idx| == 0 then d
    else
      var prev := AddEach(d, idx[..|idx| - 1], v);
      prev[idx[|idx| - 1] := prev[idx[|idx| - 1]] + v]
  }

  /** `v` added `n` times. */
  function Times(n: nat, v: real): real
    decreases n
  {
    if n == 0 then 0.0 else Times(n - 1, v) + v
  }

  lemma {:induction false} TimesProduct(n: nat, v: real)
    ensures Times(n, v) == n as real * v
    decreases n
  {
    if n > 0 {
      TimesProduct(n - 1, v);
      assert (n - 1) as real * v + v == n as real * v;
    }
  }

  /** Adding `v` at `n` indices adds `n` times `v` to the sum. */
  lemma {:induction false} AddEachSum(d: seq<real>, idx: seq<int>, v: real)
    requires forall j :: 0 <= j < |idx| ==> 0 <= idx[j] < |d|
    ensures Sum(AddEach(d, idx, v)) == Sum(d) + Times(|idx|, v)
    decreases |idx|
  {
    if |idx| > 0 {
      var last := |idx| - 1;
      var prev := AddEach(d, idx[..last], v);
      AddEachSum(d, idx[..last], v);
      SumUpdate(prev, idx[last], prev[idx[last]] + v);
    }
  }

  /** Adding `v` at some indices leaves the other entries alone and, for `v >= 0`,
      lowers none. */
  lemma {:induction false} AddEachEntries(d: seq<real>, idx: seq<int>, v: real)
    requires forall j :: 0 <= j < |idx| ==> 0 <= idx[j] < |d|
    ensures forall i :: 0 <= i < |d| && i !in idx ==> AddEach(d, idx, v)[i] == d[i]
    ensures v >= 0.0 ==> forall i :: 0 <= i < |d| ==> AddEach(d, idx, v)[i] >= d[i]
    decreases |idx|
  {
    if |idx| > 0 {
      var last := |idx| - 1;
      AddEachEntries(d, idx[..last], v);
      assert forall i :: i in idx[..last] ==> i in idx;
    }
  }

  /** One of `n + 1` equal shares of `diff`: the kept share and the `n` given shares
      add up to `diff`, and for `diff >= 0` a share lies between nothing and `diff`. */
  function EvenShare(diff: real, n: nat): (share: real)
    ensures (share - diff) + Times(n, share) == 0.0
    ensures diff >= 0.0 ==> 0.0 <= share <= diff
  {
    var share := diff / (n + 1) as real;
    TimesProduct(n, share);
    assert share * (n + 1) as real == diff;
    assert share * (n + 1) as real == share * n as real + share;
    share
  }

  /** A cell's shedding in the slow flow: it is debited `diff` and keeps one `share`,
      and each lower neighbour receives one `share`. */
  function SlowShed(d: seq<real>, j: int, lower: seq<int>, share: real, diff: real): (r: seq<real>)
    requires 0 <= j < |d| && forall t :: 0 <= t < |lower| ==> 0 <= lower[t] < |d|
    ensures |r| == |d|
  {
    AddEach(d[j := d[j] + (share - diff)], lower, share)
  }

  /** Shedding `|lower| + 1` equal shares of `diff` keeps the buffer's sum, debits the
      shedding cell by at most `diff` and lowers no other entry. */
  lemma SlowShedBalance(d: seq<real>, j: int, lower: seq<int>, share: real, diff: real)
    requires 0 <= j < |d| && forall t :: 0 <= t < |lower| ==> 0 <= lower[t] < |d|
    requires j !in lower && share >= 0.0 && (share - diff) + Times(|lower|, share) == 0.0
    ensures Sum(SlowShed(d, j, lower, share, diff)) == Sum(d)
    ensures SlowShed(d, j, lower, share, diff)[j] >= d[j] - diff
    ensures forall i :: 0 <= i < |d| && i != j ==> SlowShed(d, j, lower, share, diff)[i] >= d[i]
  {
    var d1 := d[j := d[j] + (share - diff)];
    SumUpdate(d, j, d[j] + (share - diff));
    AddEachSum(d1, lower, share);
    AddEachEntries(d1, lower, share);
  }

  /** The slow flow's state across cells: the scratch buffer and the carried lowest
      neighbour height, which is never reset between cells. */
  datatype SlowState = SlowState(d: seq<real>, lowest: real)

  /** The slow flow at the cell in column `x` and row `y`: a cell with water and lower
      neighbours keeps one share of its damped excess and gives one share to each
      lower neighbour. */
  function SlowStep(m: seq<Cell>, st: SlowState, x: int, y: int): (r: SlowState)
    requires |m| == N && |st.d| == N
    ensures |r.d| == N
  {
    var j := C(x, y);
    var c := m[j];
    if c.Water < FlowThreshold then st
    else
      var h := c.Height();
      LowerOfCell(m, x, y, h, st.lowest);
      SlowShedChecked(st.d, j, h, c.Water, CheckNeighbours(m, AllNeighbours(x, y), h, st.lowest))
  }

  /** The shedding of cell `j`, of height `h` holding `water`, after its neighbour
      checks `chk`: nothing moves when no neighbour is lower; otherwise the cell keeps
      one share of its damped excess and gives one share to each lower neighbour. */
  function SlowShedChecked(d: seq<real>, j: int, h: real, water: real, chk: Checked): (r: SlowState)
    requires |d| == N && 0 <= j < N && CellList(chk.lower)
    ensures |r.d| == |d|
  {
    if |chk.lower| == 0 then SlowState(d, chk.lowest)
    else
      var diff := SlowDamped(h, chk.lowest, water);
      SlowState(SlowShed(d, j, chk.lower, EvenShare(diff, |chk.lower|), diff), chk.lowest)
  }

  /** No entry of `d1` other than entry `j` is below the same entry of `d0`. */
  predicate RaisesOthers(d0: seq<real>, d1: seq<real>, j: int)
    requires |d0| == |d1|
  {
    forall i :: 0 <= i < |d0| && i != j ==> d1[i] >= d0[i]
  }

  /** Shedding after the checks keeps the buffer's sum, debits the cell by at most a
      tenth of its water, lowers no other entry and carries the checks' lowest height. */
  lemma ShedCheckedBalance(d: seq<real>, j: int, h: real, water: real, chk: Checked)
    requires |d| == N && 0 <= j < N && CellList(chk.lower)
    requires j !in chk.lower && (|chk.lower| > 0 ==> chk.lowest < h) && water >= FlowThreshold
    ensures var r := SlowShedChecked(d, j, h, water, chk);
      && Sum(r.d) == Sum(d)
      && r.d[j] >= d[j] - 0.1 * PositivePart(water)
      && RaisesOthers(d, r.d, j)
      && r.lowest == chk.lowest
  {
    if |chk.lower| > 0 {
      ShedStepBalance(d, j, chk.lower, h, chk.lowest, water);
    } else {
      assert 0.1 * PositivePart(water) >= 0.0;
    }
  }

  /** The slow flow after cells `0 .. k-1`, each visited at its column and row. */
  function SlowPass(m: seq<Cell>, st: SlowState, k: int): (r: SlowState)
    requires |m| == N && |st.d| == N && 0 <= k <= N
    ensures |r.d| == N
    decreases k
  {
    if k == 0 then st else SlowStep(m, SlowPass(m, st, k - 1), CX(k - 1), CY(k - 1))
  }

  /** The slow flow over one more cell, the one at column `x` and row `y`, is the
      step there after the flow over the cells before it. */
  lemma SlowPassAt(m: seq<Cell>, st: SlowState, x: int, y: int, prev: SlowState)
    requires |m| == N && |st.d| == N && 0 <= x < Size && 0 <= y < Size
    requires prev == SlowPass(m, st, y * 1024 + x)
    ensures y * 1024 + x < N && SlowPass(m, st, y * 1024 + x + 1) == SlowStep(m, prev, x, y)
  {
    CRowMajor(x, y);
    CDecodeInRange(x, y);
  }

  /** The lower neighbours found for the cell at (x, y) are cells of the grid other
      than that cell, and when there are any the carried lowest height is below the
      cell's height. */
  lemma LowerOfCell(m: seq<Cell>, x: int, y: int, h: real, lowest0: real)
    requires |m| == N
    ensures var chk := CheckNeighbours(m, AllNeighbours(x, y), h, lowest0);
      CellList(chk.lower) && C(x, y) !in chk.lower &&
      (|chk.lower| > 0 ==> chk.lowest < h)
  {
    CheckNeighboursSound(m, AllNeighbours(x, y), h, lowest0);
    var chk := CheckNeighbours(m, AllNeighbours(x, y), h, lowest0);
    if |chk.lower| > 0 {
      assert chk.lowest <= m[chk.lower[0]].Height() < h;
    }
  }

  /** One slow-flow cell keeps the buffer's sum, debits only its own entry, by at most
      a tenth of its water, and never raises the carried lowest height. */
  lemma SlowStepBalance(m: seq<Cell>, st: SlowState, x: int, y: int)
    requires |m| == N && |st.d| == N
    ensures var j, r := C(x, y), SlowStep(m, st, x, y);
      && Sum(r.d) == Sum(st.d)
      && r.d[j] >= st.d[j] - 0.1 * PositivePart(m[j].Water)
      && RaisesOthers(st.d, r.d, j)
      && r.lowest <= st.lowest
  {
    var j := C(x, y);
    var c := m[j];
    if c.Water >= FlowThreshold {
      var h := c.Height();
      LowerOfCell(m, x, y, h, st.lowest);
      ShedCheckedBalance(st.d, j, h, c.Water, CheckNeighbours(m, AllNeighbours(x, y), h, st.lowest));
    }
  }

  /** A cell with water above the threshold and lower neighbours sheds a damped excess
      that keeps the buffer's sum, debits the cell by at most a tenth of its water and
      lowers no other entry. */
  lemma ShedStepBalance(d: seq<real>, j: int, lower: seq<int>, h: real, lowest: real, water: real)
    requires 0 <= j < |d| && forall t :: 0 <= t < |lower| ==> 0 <= lower[t] < |d|
    requires j !in lower && lowest < h && water >= FlowThreshold
    ensures var diff := SlowDamped(h, lowest, water);
      var r := SlowShed(d, j, lower, EvenShare(diff, |lower|), diff);
      Sum(r) == Sum(d) && r[j] >= d[j] - 0.1 * PositivePart(water) &&
      forall i :: 0 <= i < |d| && i != j ==> r[i] >= d[i]
  {
    var diff := SlowDamped(h, lowest, water);
    SlowShedBalance(d, j, lower, EvenShare(diff, |lower|), diff);
  }

  /** The slow flow keeps the buffer's sum, and debits each visited cell by at most a
      tenth of its water; the carried lowest height never rises. */
  lemma {:induction false} SlowPassBalance(m: seq<Cell>, st: SlowState, k: int)
    requires |m| == N && |st.d| == N && 0 <= k <= N
    ensures Sum(SlowPass(m, st, k).d) == Sum(st.d)
    ensures forall i :: 0 <= i < N ==>
      SlowPass(m, st, k).d[i] >= st.d[i] - (if i < k then 0.1 * PositivePart(m[i].Water) else 0.0)
    ensures SlowPass(m, st, k).lowest <= st.lowest
    decreases k
  {
    if k > 0 {
      var prev := SlowPass(m, st, k - 1);
      SlowPassBalance(m, st, k - 1);
      CEncode(k - 1);
      SlowStepBalance(m, prev, CX(k - 1), CY(k - 1));
      SlowStepBound(m, st.d, prev.d, SlowPass(m, st, k).d, k);
    }
  }

  /** A step that debits cell `k-1` by at most a tenth of its water and lowers no other
      entry keeps each entry within the bound `SlowPassBalance` states for the first
      `k` cells. */
  lemma SlowStepBound(m: seq<Cell>, d: seq<real>, prev: seq<real>, r: seq<real>, k: int)
    requires |m| == N && |d| == N && |prev| == N && |r| == N && 0 < k <= N
    requires forall j :: 0 <= j < N ==> prev[j] >= d[j] - (if j < k - 1 then 0.1 * PositivePart(m[j].Water) else 0.0)
    requires r[k - 1] >= prev[k - 1] - 0.1 * PositivePart(m[k - 1].Water)
    requires RaisesOthers(prev, r, k - 1)
    ensures forall j :: 0 <= j < N ==> r[j] >= d[j] - (if j < k then 0.1 * PositivePart(m[j].Water) else 0.0)
  {
  }

  // ===========================================================================
  // The proportional flow

  /** The summed positive drop from cell `i` to its four cross neighbours. */
  function CellDrop(m: seq<Cell>, i: int): (r: real)
    requires |m| == N && 0 <= i < N
    ensures r >= 0.0
  {
    DropSum(m[i].Height(), CrossHeights(m, CX(i), CY(i)))
  }

  /** The largest positive drop from `h` to the heights `hs`, or 0 when none is lower:
      at least every positive drop, at most their sum, and one of them when positive. */
  function MaxDrop(h: real, hs: seq<real>): (r: real)
    ensures r >= 0.0
    ensures forall k :: 0 <= k < |hs| ==> PositivePart(h - hs[k]) <= r
    ensures r <= DropSum(h, hs)
    ensures r > 0.0 ==> exists k :: 0 <= k < |hs| && r == h - hs[k]
    decreases |hs|
  {
    if |hs| == 0 then 0.0
    else
      var prev := MaxDrop(h, hs[..|hs| - 1]);
      var d := h - hs[|hs| - 1];
      assert forall k :: 0 <= k < |hs| - 1 ==> hs[..|hs| - 1][k] == hs[k];
      if d > 0.0 && d > prev then d else prev
  }

  /** The summed drop of every cell of the grid, in index order. */
  function CellDrops(m: seq<Cell>): (r: seq<real>)
    requires |m| == N
    ensures |r| == N
  {
    seq(N, i requires 0 <= i < N => CellDrop(m, i))
  }

  /** The largest positive drop from cell `i` to its four cross neighbours: never
      more than the summed drop. */
  function CellMaxDrop(m: seq<Cell>, i: int): (r: real)
    requires |m| == N && 0 <= i < N
    ensures 0.0 <= r <= CellDrop(m, i)
  {
    MaxDrop(m[i].Height(), CrossHeights(m, CX(i), CY(i)))
  }

  /** The largest drop of every cell of the grid, in index order. */
  function CellMaxDrops(m: seq<Cell>): (r: seq<real>)
    requires |m| == N
    ensures |r| == N
  {
    seq(N, i requires 0 <= i < N => CellMaxDrop(m, i))
  }

  /** The water a cell with total drop `drop` moves: three tenths of the drop, but
      never more than the water it holds. */
  function WaterAmount(drop: real, water: real): (r: real)
    ensures r <= water && r <= drop * 0.3
    ensures r == water || r == drop * 0.3
    ensures water >= 0.0 && drop >= 0.0 ==> r >= 0.0
  {
    var maxDrop := drop * 0.3;
    if maxDrop > water then water else maxDrop
  }

  /** One downhill move of the proportional flow: a lower neighbour receives its share
      of the water in the buffer; a neighbour that is not lower receives nothing. */
  function ShareMove(m: seq<Cell>, e: seq<Cell>, from: int, to: int, h: real, wa: real, drop: real): (r: seq<Cell>)
    requires |m| == N && |e| == N && 0 <= from < N && 0 <= to < N && drop > 0.0
    ensures |r| == N
  {
    var destHeight := m[to].Height();
    if h > destHeight then MoveWater(e, from, to, Share(h, destHeight, wa, drop)) else e
  }

  /** Heights of the cells `ns`. */
  function Heights(m: seq<Cell>, ns: seq<int>): (hs: seq<real>)
    requires |m| == N && forall k :: 0 <= k < |ns| ==> 0 <= ns[k] < N
    ensures |hs| == |ns| && forall k :: 0 <= k < |ns| ==> hs[k] == m[ns[k]].Height()
  {
    seq(|ns|, k requires 0 <= k < |ns| => m[ns[k]].Height())
  }

  /** The share moves from `from` to each cell of `ns` in turn. */
  function ShareMoves(m: seq<Cell>, e: seq<Cell>, from: int, ns: seq<int>, h: real, wa: real, drop: real): (r: seq<Cell>)
    requires |m| == N && |e| == N && 0 <= from < N && drop > 0.0
    requires forall k :: 0 <= k < |ns| ==> 0 <= ns[k] < N
    ensures |r| == N
    decreases |ns|
  {
    if |ns| == 0 then e
    else ShareMove(m, ShareMoves(m, e, from, ns[..|ns| - 1], h, wa, drop), from, ns[|ns| - 1], h, wa, drop)
  }

  /** The proportional flow at cell `i`, with `d[i]` the summed drop recorded for it:
      a cell with a positive drop sends `WaterAmount` to its four cross neighbours
      (N, W, E, S) in proportion to their drops. */
  function ProportionalStep(m: seq<Cell>, d: seq<real>, e: seq<Cell>, i: int): (r: seq<Cell>)
    requires |m| == N && |d| == N && |e| == N && 0 <= i < N
    ensures |r| == N
  {
    var drop := d[i];
    if drop > 0.0 then ShareMoves(m, e, i, CrossCells(CX(i), CY(i)), m[i].Height(), WaterAmount(drop, m[i].Water), drop)
    else e
  }

  /** The proportional flow at the cell in column `x` and row `y`, with the cross
      neighbours stated in those coordinates. */
  lemma ProportionalStepAt(m: seq<Cell>, d: seq<real>, e: seq<Cell>, x: int, y: int)
    requires |m| == N && |d| == N && |e| == N && 0 <= x < Size && 0 <= y < Size
    ensures var i := C(x, y);
      var drop := d[i];
      ProportionalStep(m, d, e, i) ==
        if drop > 0.0 then ShareMoves(m, e, i, CrossCells(x, y), m[i].Height(), WaterAmount(drop, m[i].Water), drop)
        else e
  {
    CDecodeInRange(x, y);
  }

  /** The erosion buffer after the proportional flow has visited cells `0 .. k-1`. */
  function ProportionalFlow(m: seq<Cell>, d: seq<real>, e: seq<Cell>, k: int): (r: seq<Cell>)
    requires |m| == N && |d| == N && |e| == N && 0 <= k <= N
    ensures |r| == N
    decreases k
  {
    if k == 0 then e else ProportionalStep(m, d, ProportionalFlow(m, d, e, k - 1), k - 1)
  }

  /** The proportional flow over `k + 1` cells is the step at cell `k` after the flow
      over the first `k`. */
  lemma ProportionalFlowNext(m: seq<Cell>, d: seq<real>, e: seq<Cell>, k: int, prev: seq<Cell>)
    requires |m| == N && |d| == N && |e| == N && 0 <= k < N && prev == ProportionalFlow(m, d, e, k)
    ensures ProportionalFlow(m, d, e, k + 1) == ProportionalStep(m, d, prev, k)
  {
  }

  /** A share move keeps the buffer's total water and all its other fields, debits the
      source by the share and credits the destination by it. */
  lemma ShareMoveEffect(m: seq<Cell>, e: seq<Cell>, from: int, to: int, h: real, wa: real, drop: real)
    requires |m| == N && |e| == N && 0 <= from < N && 0 <= to < N && drop > 0.0 && from != to
    ensures var r := ShareMove(m, e, from, to, h, wa, drop);
      var a := Share(h, m[to].Height(), wa, drop);
      Total(r, WaterQ) == Total(e, WaterQ) &&
      (forall i :: 0 <= i < N ==> r[i] == e[i].(Water := r[i].Water)) &&
      r[from].Water == e[from].Water - a && r[to].Water == e[to].Water + a &&
      (forall i :: 0 <= i < N && i != from && i != to ==> r[i] == e[i])
  {
    var destHeight := m[to].Height();
    if h > destHeight {
      MoveWaterConserves(e, from, to, Share(h, destHeight, wa, drop));
    }
  }

  /** A share is nothing or more when the water moved is. */
  lemma ShareNonnegative(h: real, nh: real, wa: real, drop: real)
    requires drop > 0.0 && wa >= 0.0
    ensures Share(h, nh, wa, drop) >= 0.0
  {
    if h > nh {
      assert (h - nh) / drop > 0.0;
    }
  }

  /** The share moves to `ns` keep the buffer's total water and other fields, debit the
      source by the sum of the shares and, for nonnegative water, debit no other cell. */
  lemma {:induction false} ShareMovesEffect(m: seq<Cell>, e: seq<Cell>, from: int, ns: seq<int>, h: real, wa: real, drop: real)
    requires |m| == N && |e| == N && 0 <= from < N && drop > 0.0
    requires forall k :: 0 <= k < |ns| ==> 0 <= ns[k] < N && ns[k] != from
    ensures var r := ShareMoves(m, e, from, ns, h, wa, drop);
      Total(r, WaterQ) == Total(e, WaterQ) &&
      (forall j :: 0 <= j < N ==> r[j] == e[j].(Water := r[j].Water)) &&
      r[from].Water == e[from].Water - ShareSum(h, Heights(m, ns), wa, drop) &&
      (wa >= 0.0 ==> forall j :: 0 <= j < N && j != from ==> r[j].Water >= e[j].Water)
    decreases |ns|
  {
    if |ns| > 0 {
      var last := |ns| - 1;
      var prev := ShareMoves(m, e, from, ns[..last], h, wa, drop);
      ShareMovesEffect(m, e, from, ns[..last], h, wa, drop);
      ShareMoveEffect(m, prev, from, ns[last], h, wa, drop);
      assert Heights(m, ns)[..last] == Heights(m, ns[..last]);
      if wa >= 0.0 {
        ShareNonnegative(h, m[ns[last]].Height(), wa, drop);
      }
    }
  }

  /** The proportional flow at one cell keeps the buffer's total water and its other
      fields. */
  lemma ProportionalStepConserves(m: seq<Cell>, d: seq<real>, e: seq<Cell>, i: int)
    requires |m| == N && |d| == N && |e| == N && 0 <= i < N
    ensures Total(ProportionalStep(m, d, e, i), WaterQ) == Total(e, WaterQ)
    ensures forall j :: 0 <= j < N ==> ProportionalStep(m, d, e, i)[j] == e[j].(Water := ProportionalStep(m, d, e, i)[j].Water)
  {
    var drop := d[i];
    if drop > 0.0 {
      CEncode(i);
      ShareMovesEffect(m, e, i, CrossCells(CX(i), CY(i)), m[i].Height(), WaterAmount(drop, m[i].Water), drop);
    }
  }

  /** The proportional flow at one cell debits the cell by exactly `WaterAmount` (the
      shares add up to it) and, with nonnegative water, debits no other cell. */
  lemma ProportionalStepDebits(m: seq<Cell>, d: seq<real>, e: seq<Cell>, i: int)
    requires |m| == N && |d| == N && |e| == N && 0 <= i < N && d[i] == CellDrop(m, i)
    ensures ProportionalStep(m, d, e, i)[i].Water ==
      e[i].Water - (if d[i] > 0.0 then WaterAmount(d[i], m[i].Water) else 0.0)
    ensures m[i].Water >= 0.0 ==> forall j :: 0 <= j < N && j != i ==> ProportionalStep(m, d, e, i)[j].Water >= e[j].Water
  {
    var drop := d[i];
    if drop > 0.0 {
      CEncode(i);
      var ns := CrossCells(CX(i), CY(i));
      var h, wa := m[i].Height(), WaterAmount(drop, m[i].Water);
      assert ProportionalStep(m, d, e, i) == ShareMoves(m, e, i, ns, h, wa, drop);
      ShareMovesEffect(m, e, i, ns, h, wa, drop);
      CellShareSplit(m, i, wa);
    }
  }

  /** The shares of a cell with a positive drop, towards its four cross neighbours,
      add up to the water moved. */
  lemma CellShareSplit(m: seq<Cell>, i: int, wa: real)
    requires |m| == N && 0 <= i < N && CellDrop(m, i) > 0.0
    ensures ShareSum(m[i].Height(), Heights(m, CrossCells(CX(i), CY(i))), wa, CellDrop(m, i)) == wa
  {
    var hs := Heights(m, CrossCells(CX(i), CY(i)));
    assert hs == CrossHeights(m, CX(i), CY(i));
    ProportionalSplit(m[i].Height(), hs, wa);
  }

  /** The proportional flow keeps the buffer's total water and its other fields. */
  lemma {:induction false} ProportionalFlowConserves(m: seq<Cell>, d: seq<real>, e: seq<Cell>, k: int)
    requires |m| == N && |d| == N && |e| == N && 0 <= k <= N
    ensures var r := ProportionalFlow(m, d, e, k);
      Total(r, WaterQ) == Total(e, WaterQ) &&
      forall j :: 0 <= j < N ==> r[j] == e[j].(Water := r[j].Water)
    decreases k
  {
    if k > 0 {
      var prev := ProportionalFlow(m, d, e, k - 1);
      ProportionalFlowConserves(m, d, e, k - 1);
      ProportionalStepConserves(m, d, prev, k - 1);
      WaterOnlyChain(e, prev, ProportionalStep(m, d, prev, k - 1));
    }
  }

  /** Two changes of water alone are a change of water alone. */
  lemma WaterOnlyChain(e: seq<Cell>, mid: seq<Cell>, r: seq<Cell>)
    requires |mid| == |e| && |r| == |e|
    requires forall j :: 0 <= j < |e| ==> mid[j] == e[j].(Water := mid[j].Water)
    requires forall j :: 0 <= j < |e| ==> r[j] == mid[j].(Water := r[j].Water)
    ensures forall j :: 0 <= j < |e| ==> r[j] == e[j].(Water := r[j].Water)
  {
  }

  /** With nonnegative water on the grid, the proportional flow debits each visited cell
      of the buffer by at most that cell's water and every other cell by nothing. */
  lemma {:induction false} ProportionalFlowDebits(m: seq<Cell>, d: seq<real>, e: seq<Cell>, k: int)
    requires |m| == N && d == CellDrops(m) && |e| == N && 0 <= k <= N
    requires forall j :: 0 <= j < N ==> m[j].Water >= 0.0
    ensures forall j :: 0 <= j < N ==>
      ProportionalFlow(m, d, e, k)[j].Water >= e[j].Water - (if j < k then m[j].Water else 0.0)
    decreases k
  {
    if k > 0 {
      var prev := ProportionalFlow(m, d, e, k - 1);
      ProportionalFlowDebits(m, d, e, k - 1);
      ProportionalStepDebits(m, d, prev, k - 1);
      DebitChain(m, e, prev, ProportionalStep(m, d, prev, k - 1), k);
    }
  }

  /** Debiting cell `k-1` by at most its water, and no other cell, extends the bound
      of `ProportionalFlowDebits` from `k-1` visited cells to `k`. */
  lemma DebitChain(m: seq<Cell>, e: seq<Cell>, prev: seq<Cell>, r: seq<Cell>, k: int)
    requires |m| == N && |e| == N && |prev| == N && |r| == N && 0 < k <= N
    requires forall j :: 0 <= j < N ==> prev[j].Water >= e[j].Water - (if j < k - 1 then m[j].Water else 0.0)
    requires r[k - 1].Water >= prev[k - 1].Water - m[k - 1].Water
    requires forall j :: 0 <= j < N && j != k - 1 ==> r[j].Water >= prev[j].Water
    ensures forall j :: 0 <= j < N ==> r[j].Water >= e[j].Water - (if j < k then m[j].Water else 0.0)
  {
  }

  // ===========================================================================
  // The merges and the whole passes

  /** The grid after a water delta buffer is added cell by cell. */
  function MergeWater(m: seq<Cell>, d: seq<real>): (r: seq<Cell>)
    requires |d| == |m|
    ensures |r| == |m|
  {
    seq(|m|, i requires 0 <= i < |m| => m[i].(Water := m[i].Water + d[i]))
  }

  /** Merging a water buffer adds its sum to the total water and changes nothing but
      water. */
  lemma MergeWaterTotals(m: seq<Cell>, d: seq<real>)
    requires |d| == |m|
    ensures Total(MergeWater(m, d), WaterQ) == Total(m, WaterQ) + Sum(d)
    ensures forall i :: 0 <= i < |m| ==> MergeWater(m, d)[i] == m[i].(Water := m[i].Water + d[i])
  {
    TotalAddDeltas(m, MergeWater(m, d), d, WaterQ);
  }

  /** The grid after the fast flow. */
  function FastFlow(m: seq<Cell>): (r: seq<Cell>)
    requires |m| == N
    ensures |r| == N
  {
    MergeWater(m, FastDiffs(m, Zeros(N), N))
  }

  /** The fast flow keeps the total water, changes nothing but water, and leaves no
      cell with negative water if none had any. */
  lemma FastFlowConserves(m: seq<Cell>)
    requires |m| == N
    ensures Total(FastFlow(m), WaterQ) == Total(m, WaterQ)
    ensures forall i :: 0 <= i < N ==> FastFlow(m)[i] == m[i].(Water := FastFlow(m)[i].Water)
    ensures (forall i :: 0 <= i < N ==> m[i].Water >= 0.0) ==> forall i :: 0 <= i < N ==> FastFlow(m)[i].Water >= 0.0
  {
    var d := FastDiffs(m, Zeros(N), N);
    FastDiffsBalance(m, Zeros(N), N);
    MergeWaterTotals(m, d);
  }

  /** The grid after the slow flow, whose carried lowest height starts at 0. */
  function SlowFlow(m: seq<Cell>): (r: seq<Cell>)
    requires |m| == N
    ensures |r| == N
  {
    MergeWater(m, SlowPass(m, SlowState(Zeros(N), 0.0), N).d)
  }

  /** The slow flow keeps the total water, changes nothing but water, and leaves every
      cell with nonnegative water at least nine tenths of it. */
  lemma SlowFlowConserves(m: seq<Cell>)
    requires |m| == N
    ensures Total(SlowFlow(m), WaterQ) == Total(m, WaterQ)
    ensures forall i :: 0 <= i < N ==> SlowFlow(m)[i] == m[i].(Water := SlowFlow(m)[i].Water)
    ensures forall i :: 0 <= i < N && m[i].Water >= 0.0 ==> SlowFlow(m)[i].Water >= 0.9 * m[i].Water
  {
    var d := SlowPass(m, SlowState(Zeros(N), 0.0), N).d;
    SlowPassBalance(m, SlowState(Zeros(N), 0.0), N);
    MergeWaterTotals(m, d);
  }

  /** The grid after the erosion buffer's rock, sediment and water are added cell by
      cell; its height deltas are not merged. */
  function MergeErosion(m: seq<Cell>, e: seq<Cell>): (r: seq<Cell>)
    requires |e| == |m|
    ensures |r| == |m|
  {
    seq(|m|, i requires 0 <= i < |m| =>
      m[i].(Hard := m[i].Hard + e[i].Hard, Loose := m[i].Loose + e[i].Loose, Water := m[i].Water + e[i].Water))
  }

  /** The grid after the proportional flow, whose erosion buffer starts cleared and
      whose drops are those of the grid. */
  function ProportionalFlowGrid(m: seq<Cell>): (r: seq<Cell>)
    requires |m| == N
    ensures |r| == N
  {
    MergeErosion(m, ProportionalFlow(m, CellDrops(m), ZeroGrid(N), N))
  }

  /** The proportional flow keeps the total water, changes nothing but water, and
      leaves no cell with negative water if none had any. */
  lemma ProportionalFlowGridConserves(m: seq<Cell>)
    requires |m| == N
    ensures Total(ProportionalFlowGrid(m), WaterQ) == Total(m, WaterQ)
    ensures forall i :: 0 <= i < N ==> ProportionalFlowGrid(m)[i] == m[i].(Water := ProportionalFlowGrid(m)[i].Water)
    ensures (forall i :: 0 <= i < N ==> m[i].Water >= 0.0) ==>
      forall i :: 0 <= i < N ==> ProportionalFlowGrid(m)[i].Water >= 0.0
  {
    var z, d := ZeroGrid(N), CellDrops(m);
    var e := ProportionalFlow(m, d, z, N);
    ProportionalFlowConserves(m, d, z, N);
    TotalZero(z, WaterQ);
    if forall i :: 0 <= i < N ==> m[i].Water >= 0.0 {
      ProportionalFlowDebits(m, d, z, N);
      assert forall j :: 0 <= j < N ==> e[j].Water >= -m[j].Water;
    }
    MergeWaterBuffer(m, z, e);
  }

  /** Merging a buffer that holds water alone, with no net water and no cell debited
      beyond the grid's water, keeps the total water, changes nothing but water, and
      leaves no cell with negative water if none had any. */
  lemma MergeWaterBuffer(m: seq<Cell>, z: seq<Cell>, e: seq<Cell>)
    requires |m| == N && z == ZeroGrid(N) && |e| == N && Total(z, WaterQ) == 0.0
    requires Total(e, WaterQ) == Total(z, WaterQ)
    requires forall j :: 0 <= j < N ==> e[j] == z[j].(Water := e[j].Water)
    requires (forall i :: 0 <= i < N ==> m[i].Water >= 0.0) ==>
      forall j :: 0 <= j < N ==> e[j].Water >= -m[j].Water
    ensures var r := MergeErosion(m, e);
      Total(r, WaterQ) == Total(m, WaterQ) &&
      (forall i :: 0 <= i < N ==> r[i] == m[i].(Water := r[i].Water)) &&
      ((forall i :: 0 <= i < N ==> m[i].Water >= 0.0) ==> forall i :: 0 <= i < N ==> r[i].Water >= 0.0)
  {
    var r := MergeErosion(m, e);
    TotalMerge(m, r, e, WaterQ);
  }
}
