/** The terrain cell and the grid-wide totals used to state conservation. */
module Cells {

  /** One grid cell. The source's single-precision fields are exact reals here. */
  datatype Cell = Cell(Hard: real, Loose: real, Water: real, DeltaHeight: real)
  {
    /** Total height of the column: rock, sediment and water. */
    function Height(): real {
      Hard + Loose + Water
    }

    /** Height of the ground under the water. */
    function GroundLevel(): real {
      Hard + Loose
    }
  }

  /** A freshly allocated or cleared cell. */
  const Zero: Cell := Cell(0.0, 0.0, 0.0, 0.0)

  /** The quantities whose grid totals the operations conserve or change. */
  datatype Quantity = HardQ | LooseQ | WaterQ | GroundQ

  function Amount(c: Cell, q: Quantity): real {
    match q
    case HardQ => c.Hard
    case LooseQ => c.Loose
    case WaterQ => c.Water
    case GroundQ => c.Hard + c.Loose
  }

  /** Sum of a quantity over a sequence of cells. */
  function Total(m: seq<Cell>, q: Quantity): real
    decreases |m|
  {
    if |m| == 0 then 0.0 else Total(m[..|m| - 1], q) + Amount(m[|m| - 1], q)
  }

  /** Sum of a sequence of reals (the scratch delta buffers). */
  function Sum(s: seq<real>): real
    decreases |s|
  {
    if |s| == 0 then 0.0 else Sum(s[..|s| - 1]) + s[|s| - 1]
  }

  /** Replacing one cell changes a total by the difference of that cell's amounts. */
  lemma {:induction false} TotalUpdate(m: seq<Cell>, i: int, c: Cell, q: Quantity)
    requires 0 <= i < |m|
    ensures Total(m[i := c], q) == Total(m, q) - Amount(m[i], q) + Amount(c, q)
    decreases |m|
  {
    var m' := m[i := c];
    if i < |m| - 1 {
      assert m'[..|m| - 1] == m[..|m| - 1][i := c];
      TotalUpdate(m[..|m| - 1], i, c, q);
    } else {
      assert m'[..|m| - 1] == m[..|m| - 1];
    }
  }

  /** Replacing one entry changes the sum by the difference of the entries. */
  lemma {:induction false} SumUpdate(s: seq<real>, i: int, v: real)
    requires 0 <= i < |s|
    ensures Sum(s[i := v]) == Sum(s) - s[i] + v
    decreases |s|
  {
    var s' := s[i := v];
    if i < |s| - 1 {
      assert s'[..|s| - 1] == s[..|s| - 1][i := v];
      SumUpdate(s[..|s| - 1], i, v);
    } else {
      assert s'[..|s| - 1] == s[..|s| - 1];
    }
  }

  /** A grid that differs from `m` at most at `from` and `to` differs in total by those
      two cells' changes (one change when they are the same cell). */
  lemma TotalTwoCells(m: seq<Cell>, r: seq<Cell>, from: int, to: int, q: Quantity)
    requires |r| == |m| && 0 <= from < |m| && 0 <= to < |m|
    requires forall j :: 0 <= j < |m| && j != from && j != to ==> r[j] == m[j]
    ensures from != to ==>
      Total(r, q) == Total(m, q) + (Amount(r[from], q) - Amount(m[from], q)) + (Amount(r[to], q) - Amount(m[to], q))
    ensures from == to ==> Total(r, q) == Total(m, q) + (Amount(r[from], q) - Amount(m[from], q))
  {
    var m1 := m[from := r[from]];
    TotalUpdate(m, from, r[from], q);
    TotalUpdate(m1, to, r[to], q);
    assert m1[to := r[to]] == r;
  }

  /** Adding a delta buffer cell by cell adds its sum to the total. */
  lemma {:induction false} TotalAddDeltas(m: seq<Cell>, m': seq<Cell>, d: seq<real>, q: Quantity)
    requires |m'| == |m| == |d|
    requires forall i :: 0 <= i < |m| ==> Amount(m'[i], q) == Amount(m[i], q) + d[i]
    ensures Total(m', q) == Total(m, q) + Sum(d)
    decreases |m|
  {
    if |m| > 0 {
      var k := |m| - 1;
      TotalAddDeltas(m[..k], m'[..k], d[..k], q);
    }
  }

  /** Adding the same amount to every cell adds `|m|` times that amount to the total. */
  lemma {:induction false} TotalAddConstant(m: seq<Cell>, m': seq<Cell>, v: real, q: Quantity)
    requires |m'| == |m|
    requires forall i :: 0 <= i < |m| ==> Amount(m'[i], q) == Amount(m[i], q) + v
    ensures Total(m', q) == Total(m, q) + |m| as real * v
    decreases |m|
  {
    if |m| > 0 {
      var k := |m| - 1;
      TotalAddConstant(m[..k], m'[..k], v, q);
    }
  }

  /** Cells that agree on a quantity have the same total of it. */
  lemma {:induction false} TotalSame(m: seq<Cell>, m': seq<Cell>, q: Quantity)
    requires |m'| == |m|
    requires forall i :: 0 <= i < |m| ==> Amount(m'[i], q) == Amount(m[i], q)
    ensures Total(m', q) == Total(m, q)
    decreases |m|
  {
    if |m| > 0 {
      var k := |m| - 1;
      TotalSame(m[..k], m'[..k], q);
    }
  }

  /** A buffer of zeros sums to zero. */
  lemma {:induction false} SumZeros(s: seq<real>)
    requires forall i :: 0 <= i < |s| ==> s[i] == 0.0
    ensures Sum(s) == 0.0
    decreases |s|
  {
    if |s| > 0 {
      SumZeros(s[..|s| - 1]);
    }
  }

  /** Adding a buffer of cells field by field adds its total to the total. */
  lemma {:induction false} TotalMerge(m: seq<Cell>, m': seq<Cell>, e: seq<Cell>, q: Quantity)
    requires |m'| == |m| == |e|
    requires forall i :: 0 <= i < |m| ==> Amount(m'[i], q) == Amount(m[i], q) + Amount(e[i], q)
    ensures Total(m', q) == Total(m, q) + Total(e, q)
    decreases |m|
  {
    if |m| > 0 {
      var k := |m| - 1;
      TotalMerge(m[..k], m'[..k], e[..k], q);
    }
  }

  /** A grid of cleared cells has every total zero. */
  lemma {:induction false} TotalZero(m: seq<Cell>, q: Quantity)
    requires forall i :: 0 <= i < |m| ==> m[i] == Zero
    ensures Total(m, q) == 0.0
    decreases |m|
  {
    if |m| > 0 {
      TotalZero(m[..|m| - 1], q);
    }
  }

  /** The smallest rock level of a non-empty grid, as the source's LINQ `Min` finds it. */
  function MinHard(m: seq<Cell>): (r: real)
    requires |m| > 0
    ensures exists i :: 0 <= i < |m| && m[i].Hard == r
    ensures forall i :: 0 <= i < |m| ==> r <= m[i].Hard
    decreases |m|
  {
    if |m| == 1 then m[0].Hard
    else
      var rest := MinHard(m[..|m| - 1]);
      assert forall i :: 0 <= i < |m| - 1 ==> m[..|m| - 1][i] == m[i];
      if m[|m| - 1].Hard < rest then m[|m| - 1].Hard else rest
  }
}
