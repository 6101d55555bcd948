/** Grid maintenance and rain: what `Clear`, `SetBaseLevel`, `AddLooseMaterial`,
    `AddRain` and `AddRainRandom` do to the grid, and the totals they move. */
module GridOps {
  import opened Addressing
  import opened Cells
  import opened Draws
  import opened WaterPasses

  /** A cleared grid holds nothing. */
  lemma ClearedTotals(n: nat, q: Quantity)
    ensures Total(ZeroGrid(n), q) == 0.0
  {
    TotalZero(ZeroGrid(n), q);
  }

  /** The grid with every cell's rock lowered by `v`. */
  function Lowered(m: seq<Cell>, v: real): (r: seq<Cell>)
    ensures |r| == |m|
    ensures forall i :: 0 <= i < |m| ==> r[i] == m[i].(Hard := m[i].Hard - v)
  {
    seq(|m|, i requires 0 <= i < |m| => m[i].(Hard := m[i].Hard - v))
  }

  /** The grid after `SetBaseLevel`: the lowest rock is at level 0, no rock is below it,
      and every difference between two rock levels, and every other field, is kept. */
  function BaseLevelled(m: seq<Cell>): (r: seq<Cell>)
    requires |m| > 0
    ensures |r| == |m|
    ensures exists i :: 0 <= i < |m| && r[i].Hard == 0.0
    ensures forall i :: 0 <= i < |m| ==> r[i].Hard >= 0.0
    ensures forall i, j :: 0 <= i < |m| && 0 <= j < |m| ==> r[i].Hard - r[j].Hard == m[i].Hard - m[j].Hard
    ensures forall i :: 0 <= i < |m| ==>
      r[i].Loose == m[i].Loose && r[i].Water == m[i].Water && r[i].DeltaHeight == m[i].DeltaHeight
  {
    Lowered(m, MinHard(m))
  }

  /** The grid with `amount` of loose material added to every cell. */
  function WithLoose(m: seq<Cell>, amount: real): (r: seq<Cell>)
    ensures |r| == |m|
  {
    seq(|m|, i requires 0 <= i < |m| => m[i].(Loose := m[i].Loose + amount))
  }

  /** Adding loose material everywhere raises the sediment total by the grid size times
      the amount, and changes nothing else. */
  lemma WithLooseTotal(m: seq<Cell>, amount: real)
    ensures Total(WithLoose(m, amount), LooseQ) == Total(m, LooseQ) + |m| as real * amount
    ensures forall i :: 0 <= i < |m| ==> WithLoose(m, amount)[i] == m[i].(Loose := WithLoose(m, amount)[i].Loose)
  {
    TotalAddConstant(m, WithLoose(m, amount), amount, LooseQ);
  }

  /** The grid with `amount` of water added to every cell. */
  function Rained(m: seq<Cell>, amount: real): (r: seq<Cell>)
    ensures |r| == |m|
  {
    seq(|m|, i requires 0 <= i < |m| => m[i].(Water := m[i].Water + amount))
  }

  /** `AddRain(total)` spreads `total` evenly: the total water rises by exactly `total`,
      and nothing but water changes. */
  lemma RainedTotal(m: seq<Cell>, total: real)
    requires |m| == N
    ensures Total(Rained(m, total / N as real), WaterQ) == Total(m, WaterQ) + total
    ensures forall i :: 0 <= i < N ==>
      Rained(m, total / N as real)[i] == m[i].(Water := Rained(m, total / N as real)[i].Water)
    ensures total >= 0.0 ==> forall i :: 0 <= i < N ==> Rained(m, total / N as real)[i].Water >= m[i].Water
  {
    var amount := total / N as real;
    TotalAddConstant(m, Rained(m, amount), amount, WaterQ);
    assert N as real * amount == total;
  }

  /** The grid after the first `k` drops of `AddRainRandom`, each of `amount`, the drop
      `j` landing on cell `Next(drops[j], N)`. */
  function RainDrops(m: seq<Cell>, drops: seq<nat>, k: nat, amount: real): (r: seq<Cell>)
    requires |m| == N && k <= |drops|
    ensures |r| == N
    decreases k
  {
    if k == 0 then m
    else
      var prev := RainDrops(m, drops, k - 1, amount);
      var i := Next(drops[k - 1], N);
      prev[i := prev[i].(Water := prev[i].Water + amount)]
  }

  /** `k` drops raise the total water by `k` times the drop, change nothing but water,
      and with a nonnegative drop lower no cell's water. */
  lemma {:induction false} RainDropsTotal(m: seq<Cell>, drops: seq<nat>, k: nat, amount: real)
    requires |m| == N && k <= |drops|
    ensures Total(RainDrops(m, drops, k, amount), WaterQ) == Total(m, WaterQ) + Times(k, amount)
    ensures forall i :: 0 <= i < N ==> RainDrops(m, drops, k, amount)[i] == m[i].(Water := RainDrops(m, drops, k, amount)[i].Water)
    ensures amount >= 0.0 ==> forall i :: 0 <= i < N ==> RainDrops(m, drops, k, amount)[i].Water >= m[i].Water
    decreases k
  {
    if k > 0 {
      var prev := RainDrops(m, drops, k - 1, amount);
      var i := Next(drops[k - 1], N);
      RainDropsTotal(m, drops, k - 1, amount);
      TotalUpdate(prev, i, prev[i].(Water := prev[i].Water + amount), WaterQ);
    }
  }

  /** The drop size of `AddRainRandom(total, numDrops)`; with no drops it is never used. */
  function DropSize(total: real, numDrops: int): real {
    if numDrops > 0 then total / numDrops as real else 0.0
  }

  /** With at least one drop, `AddRainRandom(total, numDrops)` raises the total water by
      exactly `total`. */
  lemma RainRandomTotal(m: seq<Cell>, drops: seq<nat>, total: real, numDrops: int)
    requires |m| == N && 0 < numDrops <= |drops|
    ensures Total(RainDrops(m, drops, numDrops, DropSize(total, numDrops)), WaterQ) == Total(m, WaterQ) + total
  {
    var amount := DropSize(total, numDrops);
    var n := numDrops as real;
    assert amount == total / n;
    TimesProduct(numDrops, amount);
    DivideBack(total, n);
    assert Times(numDrops, amount) == total;
    RainDropsTotal(m, drops, numDrops, amount);
  }

  /** Dividing by a nonzero `n` and multiplying back gives the original. */
  lemma DivideBack(t: real, n: real)
    requires n != 0.0
    ensures n * (t / n) == t
  {
  }
}
