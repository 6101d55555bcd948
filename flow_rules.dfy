/** The decision rules of the water-transport algorithms, as functions of the grid.

    Every rule here reads the grid and decides what to move; the terrain class applies
    the decisions in place. */
module FlowRules {
  import opened Addressing
  import opened Cells

  /** A cell holds water worth listing when it has more than this. */
  const WetThreshold: real := 0.0001

  /** The stochastic flow skips a sampled cell with less water than this. */
  const DryThreshold: real := 0.000001

  /** Below this much loose material the stochastic flow erodes rock instead. */
  const LooseThreshold: real := 0.0001

  // ---------------------------------------------------------------------------
  // The active-water list

  /** The indices below `k` whose cell holds more than `WetThreshold` of water, in
      increasing order: the contents of the water map after its rebuild. */
  function WetPrefix(m: seq<Cell>, k: int): (r: seq<int>)
    requires 0 <= k <= |m|
    ensures |r| <= k
    ensures forall j :: 0 <= j < |r| ==> 0 <= r[j] < k
    decreases k
  {
    if k == 0 then []
    else if m[k - 1].Water > WetThreshold then WetPrefix(m, k - 1) + [k - 1]
    else WetPrefix(m, k - 1)
  }

  /** Every listed index is wet, and the list is strictly increasing. */
  lemma {:induction false} WetPrefixSorted(m: seq<Cell>, k: int)
    requires 0 <= k <= |m|
    ensures forall j :: 0 <= j < |WetPrefix(m, k)| ==> m[WetPrefix(m, k)[j]].Water > WetThreshold
    ensures forall j, j' :: 0 <= j < j' < |WetPrefix(m, k)| ==> WetPrefix(m, k)[j] < WetPrefix(m, k)[j']
    decreases k
  {
    if k > 0 {
      WetPrefixSorted(m, k - 1);
    }
  }

  /** Every index below `k` whose cell holds more than `WetThreshold` of water is
      listed. */
  lemma {:induction false} WetPrefixComplete(m: seq<Cell>, k: int)
    requires 0 <= k <= |m|
    ensures forall i :: 0 <= i < k && m[i].Water > WetThreshold ==> i in WetPrefix(m, k)
    decreases k
  {
    if k > 0 {
      WetPrefixComplete(m, k - 1);
    }
  }

  // ---------------------------------------------------------------------------
  // The lowest-neighbour fold

  /** The fold's accumulator: the candidate cell and its height, plus the scan slot it
      was found at. */
  datatype Lowest = Lowest(slot: int, index: int, height: real)

  /** The fold over the first `k` cells of `ns`: it starts from the first cell and
      replaces the candidate only by a strictly lower one. */
  function LowestAmong(m: seq<Cell>, ns: seq<int>, k: int): (r: Lowest)
    requires |m| == N && CellList(ns) && 1 <= k <= |ns|
    ensures 0 <= r.slot < k && r.index == ns[r.slot] && r.height == m[ns[r.slot]].Height()
    ensures forall j :: 0 <= j < k ==> r.height <= m[ns[j]].Height()
    ensures forall j :: 0 <= j < r.slot ==> m[ns[j]].Height() > r.height
    decreases k
  {
    if k == 1 then Lowest(0, ns[0], m[ns[0]].Height())
    else
      var best := LowestAmong(m, ns, k - 1);
      var i := ns[k - 1];
      if m[i].Height() < best.height then Lowest(k - 1, i, m[i].Height()) else best
  }

  /** The lowest of the eight neighbours of `(x, y)`: one of the neighbours, never the
      cell itself, no higher than any neighbour, and the first such in scan order. */
  function LowestNeighbour(m: seq<Cell>, x: int, y: int): (r: Lowest)
    requires |m| == N
    ensures 0 <= r.slot < 8 && r.index == ScanCells(x, y)[r.slot]
    ensures 0 <= r.index < N && r.index != C(x, y)
    ensures r.height == m[r.index].Height()
    ensures forall j :: 0 <= j < 8 ==> r.height <= m[ScanCells(x, y)[j]].Height()
    ensures forall j :: 0 <= j < r.slot ==> m[ScanCells(x, y)[j]].Height() > r.height
  {
    LowestAmong(m, ScanCells(x, y), 8)
  }

  // ---------------------------------------------------------------------------
  // One sample of the stochastic flow

  /** What a sample does to the erosion buffer. */
  datatype Erosion =
    | NoErosion
      /** Loose material moves from the sampled cell to its lowest neighbour. */
    | ErodeLoose(amount: real)
      /** Rock of the sampled cell becomes loose material at its lowest neighbour. */
    | ErodeHard(amount: real)

  /** The outcome of one sample: nothing, or a flow of water with its erosion. */
  datatype Sample = Skip | Flow(from: int, to: int, water: real, erosion: Erosion)

  /** Erosion when the ground slopes down: the candidate `groundToMove` is capped by
      `cap`; it takes exactly the least of those two and the loose material when
      more than `LooseThreshold` of it is available, and otherwise rock at exactly a
      fifth of the lesser of the two. */
  function ErosionRule(groundToMove: real, cap: real, looseAvailable: real): (e: Erosion)
    ensures looseAvailable > LooseThreshold <==> e.ErodeLoose?
    ensures e.ErodeLoose? ==> e.amount <= groundToMove && e.amount <= cap && e.amount <= looseAvailable
    ensures e.ErodeLoose? && 0.0 <= groundToMove && 0.0 <= cap ==> 0.0 <= e.amount
    ensures e.ErodeLoose? ==> e.amount == groundToMove || e.amount == cap || e.amount == looseAvailable
    ensures e.ErodeHard? ==> e.amount <= 0.2 * groundToMove && e.amount <= 0.2 * cap
    ensures e.ErodeHard? ==> e.amount == 0.2 * groundToMove || e.amount == 0.2 * cap
    ensures e.ErodeHard? && 0.0 <= groundToMove && 0.0 <= cap ==> 0.0 <= e.amount
  {
    var g := if groundToMove > cap then cap else groundToMove;
    if looseAvailable > LooseThreshold then
      ErodeLoose(if g > looseAvailable then looseAvailable else g)
    else
      ErodeHard(g * 0.2)
  }

  /** One sample at cell `celli`: skip a dry cell and a cell whose lowest neighbour
      is higher; otherwise move the lesser of half the height gap and all the water to
      the lowest neighbour, and erode when the ground under the water slopes down. */
  function PlanSample(m: seq<Cell>, celli: int): (s: Sample)
    requires |m| == N && 0 <= celli < N
    ensures s.Flow? ==> s.from == celli && 0 <= s.to < N
  {
    CEncode(celli);
    var cellx, celly := CX(celli), CY(celli);
    var water := m[celli].Water;
    if water < DryThreshold then Skip
    else
      var h := m[celli].Height();
      var low := LowestNeighbour(m, cellx, celly);
      if low.height > h then Skip
      else
        var cellni, nh := low.index, low.height;
        var diff := (h - nh) * 0.5;
        var amountToMove := if diff < water then diff else water;
        var groundFrom := m[celli].GroundLevel();
        var groundTo := m[cellni].GroundLevel();
        var groundToMove := amountToMove * 0.25;
        var erosion :=
          if groundFrom > groundTo then ErosionRule(groundToMove, (groundFrom - groundTo) * 0.8, m[celli].Loose)
          else NoErosion;
        Flow(celli, cellni, amountToMove, erosion)
  }

  /** What a sample decides. It skips exactly when the cell is dry or its lowest
      neighbour is higher. Otherwise it moves water from the cell to its lowest
      neighbour, never more than the cell holds and never more than half the height gap,
      and it erodes exactly when the ground slopes down to that neighbour. Loose
      material is taken only when more than `LooseThreshold` of it lies on the cell,
      and then exactly the least of what lies there, a quarter of the water moved and
      0.8 of the ground drop; otherwise rock is worn at exactly a fifth of the lesser
      of the last two. */
  lemma PlanSampleProperties(m: seq<Cell>, celli: int)
    requires |m| == N && 0 <= celli < N
    ensures var s, low := PlanSample(m, celli), LowestNeighbour(m, CX(celli), CY(celli));
      s.Skip? <==> m[celli].Water < DryThreshold || low.height > m[celli].Height()
    ensures var s := PlanSample(m, celli);
      s.Flow? ==> s.to == LowestNeighbour(m, CX(celli), CY(celli)).index && s.to != celli
    ensures var s := PlanSample(m, celli);
      s.Flow? ==> 0.0 <= s.water <= m[celli].Water && s.water <= (m[celli].Height() - m[s.to].Height()) * 0.5
    ensures var s := PlanSample(m, celli);
      s.Flow? ==> s.water == m[celli].Water || s.water == (m[celli].Height() - m[s.to].Height()) * 0.5
    ensures var s := PlanSample(m, celli);
      s.Flow? ==> (s.erosion.NoErosion? <==> m[celli].GroundLevel() <= m[s.to].GroundLevel())
    ensures var s := PlanSample(m, celli);
      s.Flow? && s.erosion.ErodeLoose? ==>
        m[celli].Loose > LooseThreshold && 0.0 <= s.erosion.amount <= m[celli].Loose &&
        s.erosion.amount <= 0.25 * s.water &&
        s.erosion.amount <= 0.8 * (m[celli].GroundLevel() - m[s.to].GroundLevel())
    ensures var s := PlanSample(m, celli);
      s.Flow? && s.erosion.ErodeHard? ==>
        m[celli].Loose <= LooseThreshold && 0.0 <= s.erosion.amount &&
        s.erosion.amount <= 0.2 * (0.25 * s.water) &&
        s.erosion.amount <= 0.2 * (0.8 * (m[celli].GroundLevel() - m[s.to].GroundLevel()))
    ensures var s := PlanSample(m, celli);
      s.Flow? && s.erosion.ErodeLoose? ==>
        s.erosion.amount == m[celli].Loose || s.erosion.amount == 0.25 * s.water ||
        s.erosion.amount == 0.8 * (m[celli].GroundLevel() - m[s.to].GroundLevel())
    ensures var s := PlanSample(m, celli);
      s.Flow? && s.erosion.ErodeHard? ==>
        s.erosion.amount == 0.2 * (0.25 * s.water) ||
        s.erosion.amount == 0.2 * (0.8 * (m[celli].GroundLevel() - m[s.to].GroundLevel()))
  {
    CEncode(celli);
  }

  /** The grid after `a` of water moves from `from` to `to`. */
  function MoveWater(m: seq<Cell>, from: int, to: int, a: real): seq<Cell>
    requires 0 <= from < |m| && 0 <= to < |m|
  {
    var m1 := m[from := m[from].(Water := m[from].Water - a)];
    m1[to := m1[to].(Water := m1[to].Water + a)]
  }

  /** Moving water keeps the total water, and touches neither rock nor sediment. */
  lemma MoveWaterConserves(m: seq<Cell>, from: int, to: int, a: real)
    requires 0 <= from < |m| && 0 <= to < |m|
    ensures |MoveWater(m, from, to, a)| == |m|
    ensures Total(MoveWater(m, from, to, a), WaterQ) == Total(m, WaterQ)
    ensures forall i :: 0 <= i < |m| ==>
      MoveWater(m, from, to, a)[i] == m[i].(Water := MoveWater(m, from, to, a)[i].Water)
    ensures from != to ==> MoveWater(m, from, to, a)[from].Water == m[from].Water - a
    ensures from != to ==> MoveWater(m, from, to, a)[to].Water == m[to].Water + a
    ensures forall i :: 0 <= i < |m| && i != from && i != to ==> MoveWater(m, from, to, a)[i] == m[i]
  {
    TotalTwoCells(m, MoveWater(m, from, to, a), from, to, WaterQ);
  }

  /** After a flow the source column is still at least as high as the destination:
      the move never overshoots the level. */
  lemma FlowKeepsOrder(m: seq<Cell>, celli: int)
    requires |m| == N && 0 <= celli < N
    requires PlanSample(m, celli).Flow?
    ensures var s := PlanSample(m, celli);
      MoveWater(m, s.from, s.to, s.water)[s.from].Height() >= MoveWater(m, s.from, s.to, s.water)[s.to].Height()
  {
    var s := PlanSample(m, celli);
    PlanSampleProperties(m, celli);
    MoveWaterConserves(m, s.from, s.to, s.water);
  }

  /** The erosion buffer after a sample's erosion is recorded. */
  function ApplyErosion(e: seq<Cell>, from: int, to: int, er: Erosion): (r: seq<Cell>)
    requires 0 <= from < |e| && 0 <= to < |e|
    ensures |r| == |e|
  {
    match er
    case NoErosion => e
    case ErodeLoose(g) =>
      var e1 := e[from := e[from].(Loose := e[from].Loose - g)];
      e1[to := e1[to].(Loose := e1[to].Loose + g)]
    case ErodeHard(g) =>
      var e1 := e[from := e[from].(Hard := e[from].Hard - g)];
      e1[to := e1[to].(Loose := e1[to].Loose + g)]
  }

  /** Erosion bookkeeping: the summed rock and sediment of the buffer never changes;
      loose erosion keeps the sediment total, rock erosion turns exactly as much rock
      into sediment. Water and the height deltas are untouched. */
  lemma ErosionBookkeeping(e: seq<Cell>, from: int, to: int, er: Erosion)
    requires 0 <= from < |e| && 0 <= to < |e|
    ensures |ApplyErosion(e, from, to, er)| == |e|
    ensures Total(ApplyErosion(e, from, to, er), GroundQ) == Total(e, GroundQ)
    ensures !er.ErodeHard? ==> Total(ApplyErosion(e, from, to, er), LooseQ) == Total(e, LooseQ)
    ensures er.ErodeHard? ==>
      Total(ApplyErosion(e, from, to, er), HardQ) == Total(e, HardQ) - er.amount &&
      Total(ApplyErosion(e, from, to, er), LooseQ) == Total(e, LooseQ) + er.amount
    ensures forall i :: 0 <= i < |e| ==>
      ApplyErosion(e, from, to, er)[i].Water == e[i].Water &&
      ApplyErosion(e, from, to, er)[i].DeltaHeight == e[i].DeltaHeight
  {
    match er
    case NoErosion =>
    case ErodeLoose(g) => LooseErosionTotals(e, from, to, g);
    case ErodeHard(g) => HardErosionTotals(e, from, to, g);
  }

  /** Loose erosion moves sediment: the ground and sediment totals are kept. */
  lemma LooseErosionTotals(e: seq<Cell>, from: int, to: int, g: real)
    requires 0 <= from < |e| && 0 <= to < |e|
    ensures var r := ApplyErosion(e, from, to, ErodeLoose(g));
      Total(r, GroundQ) == Total(e, GroundQ) && Total(r, LooseQ) == Total(e, LooseQ)
  {
    var r := ApplyErosion(e, from, to, ErodeLoose(g));
    TotalTwoCells(e, r, from, to, GroundQ);
    TotalTwoCells(e, r, from, to, LooseQ);
  }

  /** Rock erosion turns `g` of rock at the source into sediment at the destination. */
  lemma HardErosionTotals(e: seq<Cell>, from: int, to: int, g: real)
    requires 0 <= from < |e| && 0 <= to < |e|
    ensures var r := ApplyErosion(e, from, to, ErodeHard(g));
      Total(r, GroundQ) == Total(e, GroundQ) &&
      Total(r, HardQ) == Total(e, HardQ) - g && Total(r, LooseQ) == Total(e, LooseQ) + g
  {
    var r := ApplyErosion(e, from, to, ErodeHard(g));
    TotalTwoCells(e, r, from, to, GroundQ);
    TotalTwoCells(e, r, from, to, LooseQ);
    TotalTwoCells(e, r, from, to, HardQ);
  }

  // ---------------------------------------------------------------------------
  // Scratch-buffer transfers (compute-then-merge passes)

  /** The delta buffer after `a` is debited at `from` and credited at `to`. */
  function Transfer(d: seq<real>, from: int, to: int, a: real): seq<real>
    requires 0 <= from < |d| && 0 <= to < |d|
  {
    var d1 := d[from := d[from] - a];
    d1[to := d1[to] + a]
  }

  /** A transfer keeps the sum of the buffer and touches only its two entries. */
  lemma TransferKeepsSum(d: seq<real>, from: int, to: int, a: real)
    requires 0 <= from < |d| && 0 <= to < |d|
    ensures |Transfer(d, from, to, a)| == |d|
    ensures Sum(Transfer(d, from, to, a)) == Sum(d)
    ensures forall i :: 0 <= i < |d| && i != from && i != to ==> Transfer(d, from, to, a)[i] == d[i]
  {
    var d1 := d[from := d[from] - a];
    SumUpdate(d, from, d1[from]);
    SumUpdate(d1, to, d1[to] + a);
  }

  // ---------------------------------------------------------------------------
  // The proportional flow

  function PositivePart(d: real): real {
    if d > 0.0 then d else 0.0
  }

  /** Heights of the four cross neighbours in the order N, W, E, S. */
  function CrossHeights(m: seq<Cell>, x: int, y: int): (hs: seq<real>)
    requires |m| == N
    ensures |hs| == 4
  {
    [m[C(x, y - 1)].Height(), m[C(x - 1, y)].Height(), m[C(x + 1, y)].Height(), m[C(x, y + 1)].Height()]
  }

  /** The summed positive drops from height `h` down to the heights `hs`. */
  function DropSum(h: real, hs: seq<real>): (r: real)
    ensures r >= 0.0
    decreases |hs|
  {
    if |hs| == 0 then 0.0 else DropSum(h, hs[..|hs| - 1]) + PositivePart(h - hs[|hs| - 1])
  }

  /** Every positive drop is part of the summed drop. */
  lemma {:induction false} DropSumBounds(h: real, hs: seq<real>)
    ensures forall k :: 0 <= k < |hs| ==> PositivePart(h - hs[k]) <= DropSum(h, hs)
    decreases |hs|
  {
    if |hs| > 0 {
      var init := hs[..|hs| - 1];
      DropSumBounds(h, init);
      assert forall k :: 0 <= k < |init| ==> init[k] == hs[k];
    }
  }

  /** The share of `waterAmount` that goes to a neighbour of height `nh`: in proportion
      to its drop, and nothing to a neighbour that is not lower. */
  function Share(h: real, nh: real, waterAmount: real, totalDrop: real): real
    requires totalDrop > 0.0
  {
    waterAmount * (PositivePart(h - nh) / totalDrop)
  }

  function ShareSum(h: real, hs: seq<real>, waterAmount: real, totalDrop: real): real
    requires totalDrop > 0.0
    decreases |hs|
  {
    if |hs| == 0 then 0.0
    else ShareSum(h, hs[..|hs| - 1], waterAmount, totalDrop) + Share(h, hs[|hs| - 1], waterAmount, totalDrop)
  }

  /** `w * (a / t) + w * (b / t) == w * ((a + b) / t)`. */
  lemma ScaleAdd(w: real, a: real, b: real, t: real)
    requires t > 0.0
    ensures w * (a / t) + w * (b / t) == w * ((a + b) / t)
  {
    assert (a + b) / t == a / t + b / t;
  }

  /** A share whose drop is part of the total lies between nothing and all the water. */
  lemma ShareBounded(h: real, nh: real, w: real, t: real)
    requires t > 0.0 && PositivePart(h - nh) <= t && w >= 0.0
    ensures 0.0 <= Share(h, nh, w, t) <= w
  {
    if h > nh {
      FractionBounds(h - nh, t);
      ScaleBelow(w, (h - nh) / t);
    }
  }

  /** A part of a positive whole is a fraction between 0 and 1 of it. */
  lemma FractionBounds(a: real, t: real)
    requires t > 0.0 && 0.0 <= a <= t
    ensures 0.0 <= a / t <= 1.0
  {
    assert a / t * t == a;
  }

  /** A fraction between 0 and 1 of a nonnegative amount lies between nothing and it. */
  lemma ScaleBelow(w: real, f: real)
    requires w >= 0.0 && 0.0 <= f <= 1.0
    ensures 0.0 <= w * f <= w
  {
    assert w * f <= w * 1.0;
  }

  /** `w * (t / t) == w`. */
  lemma ScaleAll(w: real, t: real)
    requires t > 0.0
    ensures w * (t / t) == w
  {
  }

  /** The shares of neighbours `hs` are the water scaled by their summed drops over
      the total. */
  lemma {:induction false} ShareSumScales(h: real, hs: seq<real>, waterAmount: real, totalDrop: real)
    requires totalDrop > 0.0
    ensures ShareSum(h, hs, waterAmount, totalDrop) == waterAmount * (DropSum(h, hs) / totalDrop)
    decreases |hs|
  {
    if |hs| == 0 {
      var zero := DropSum(h, hs) / totalDrop;
      assert zero == 0.0;
      assert ShareSum(h, hs, waterAmount, totalDrop) == 0.0;
      assert waterAmount * zero == 0.0;
    } else {
      var k := |hs| - 1;
      var init := hs[..k];
      ShareSumScales(h, init, waterAmount, totalDrop);
      ScaleStep(ShareSum(h, hs, waterAmount, totalDrop), ShareSum(h, init, waterAmount, totalDrop),
                Share(h, hs[k], waterAmount, totalDrop), waterAmount,
                DropSum(h, init), PositivePart(h - hs[k]), DropSum(h, hs), totalDrop);
    }
  }

  /** The inductive step of `ShareSumScales`, on plain numbers. */
  lemma ScaleStep(sum: real, sumInit: real, share: real, w: real, a: real, b: real, d: real, t: real)
    requires t > 0.0 && sum == sumInit + share && d == a + b
    requires sumInit == w * (a / t) && share == w * (b / t)
    ensures sum == w * (d / t)
  {
    ScaleAdd(w, a, b, t);
  }

  /** The shares of the lower neighbours add up to exactly the water that moves, and
      each is between nothing and all of it. */
  lemma ProportionalSplit(h: real, hs: seq<real>, waterAmount: real)
    requires DropSum(h, hs) > 0.0
    ensures ShareSum(h, hs, waterAmount, DropSum(h, hs)) == waterAmount
    ensures waterAmount >= 0.0 ==> forall k :: 0 <= k < |hs| ==>
      0.0 <= Share(h, hs[k], waterAmount, DropSum(h, hs)) <= waterAmount
  {
    var t := DropSum(h, hs);
    DropSumBounds(h, hs);
    ShareSumScales(h, hs, waterAmount, t);
    ScaleAll(waterAmount, t);
    forall k | 0 <= k < |hs| && waterAmount >= 0.0
      ensures 0.0 <= Share(h, hs[k], waterAmount, t) <= waterAmount
    {
      ShareBounded(h, hs[k], waterAmount, t);
    }
  }

  // ---------------------------------------------------------------------------
  // The diffusive ("slow") flow

  /** The damped amount a cell sheds in the slow flow: the gap to the carried lowest
      height, capped by the water, times 0.1. */
  function SlowDamped(h: real, lowest: real, water: real): (r: real)
    ensures h > lowest && water >= 0.0 ==> 0.0 <= r <= 0.1 * water
  {
    var diff := h - lowest;
    var capped := if diff > water then water else diff;
    capped * 0.1
  }

  /** Because the carried lowest height starts at 0 and is never reset, on ground that
      is not below 0 every cell with water sheds exactly a tenth of it, however small
      the height gap to its lower neighbours. */
  lemma SlowShedsTenth(c: Cell, lowest: real)
    requires lowest <= 0.0 && c.GroundLevel() >= 0.0 && c.Water >= 0.0
    ensures SlowDamped(c.Height(), lowest, c.Water) == 0.1 * c.Water
  {
  }

  // ---------------------------------------------------------------------------
  // The rain budget

  /** `ClampInclusive(v, lo, hi)`: `v` raised to `lo`, then lowered to `hi`. */
  function ClampInclusive(v: real, lo: real, hi: real): real {
    var raised := if v < lo then lo else v;
    if raised > hi then hi else raised
  }

  /** The atmospheric budget after one tick: while positive it is lowered by the
      per-tick maximum, clamped to what is left. */
  function BudgetAfterTick(budget: real, maxRain: real): (r: real)
    ensures budget <= 0.0 ==> r == budget
    ensures budget >= 0.0 ==> r >= 0.0
    ensures maxRain >= 0.0 ==> r <= budget
    ensures budget > 0.0 && maxRain >= 0.0 ==> budget - r <= maxRain
    ensures budget > 0.0 && maxRain >= 0.0 && r > 0.0 ==> budget - r == maxRain
  {
    if budget > 0.0 then
      var rainAmount := ClampInclusive(budget, 0.0, maxRain);
      budget - rainAmount
    else budget
  }
}
