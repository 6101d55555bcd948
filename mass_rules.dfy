/** Mass movement: the sampled slump and collapse passes, which pull material from the
    eight neighbours of a sampled cell into it through a scratch buffer, and the point
    collapses, which move sediment between a cell and its neighbours in place. */
module MassRules {
  import opened Addressing
  import opened Cells
  import opened Draws

  /** Slump's diagonal threshold factor. */
  const SlumpDiagonal: real := 1.414

  /** Collapse's diagonal threshold factor, the square root of two in double precision. */
  const Sqrt2: real := 1.4142135623730951

  /** The point collapses scale the diagonal neighbours' amount by this. */
  const PointDiagonal: real := 0.707

  // ===========================================================================
  // Per-neighbour amounts

  /** Slump from neighbour `from` into a cell whose running ground level is `h`: only
      loose material moves, only above the threshold, never more than the neighbour's
      loose material, scaled by `a`. */
  function SlumpAmount(from: Cell, h: real, a: real, th: real): (r: real)
    ensures from.Loose <= 0.0 || from.GroundLevel() - h <= th ==> r == 0.0
    ensures from.Loose > 0.0 && from.GroundLevel() - h > th ==>
      r == a * (if from.GroundLevel() - h - th > from.Loose then from.Loose else from.GroundLevel() - h - th)
    ensures a >= 0.0 ==> 0.0 <= r <= a * PositiveLoose(from)
  {
    var loose := from.Loose;
    if loose > 0.0 then
      var diff := (from.Hard + loose) - h;
      if diff > th then
        var excess := diff - th;
        var capped := if excess > loose then loose else excess;
        capped * a
      else 0.0
    else 0.0
  }

  /** The loose material of a cell, or nothing when it is not positive. */
  function PositiveLoose(c: Cell): real {
    if c.Loose > 0.0 then c.Loose else 0.0
  }

  /** Collapse from neighbour `from`: nothing when the neighbour is covered by more
      than `looseThreshold` of sediment; otherwise its rock above the running level
      `h` plus the threshold, scaled by `a`. */
  function CollapseAmount(from: Cell, h: real, a: real, th: real, looseThreshold: real): (r: real)
    ensures from.Loose > looseThreshold || from.Hard - h <= th ==> r == 0.0
    ensures from.Loose <= looseThreshold && from.Hard - h > th ==> r == a * (from.Hard - h - th)
    ensures a >= 0.0 ==> r >= 0.0
  {
    if from.Loose > looseThreshold then 0.0
    else
      var diff := from.Hard - h;
      if diff > th then (diff - th) * a else 0.0
  }

  /** Which sampled pass is running. */
  datatype MassRule = SlumpRule | CollapseRule(looseThreshold: real)

  function MoveAmount(rule: MassRule, from: Cell, h: real, a: real, th: real): (r: real)
    ensures a >= 0.0 ==> r >= 0.0
  {
    match rule
    case SlumpRule => SlumpAmount(from, h, a, th)
    case CollapseRule(lt) => CollapseAmount(from, h, a, th, lt)
  }

  /** The threshold at slot `k` of the slump order: the straight neighbours come first. */
  function SlotThreshold(k: int, th: real, thDiag: real): real {
    if k < 4 then th else thDiag
  }

  // ===========================================================================
  // One sample: the eight pulls into the sampled cell

  /** The scratch buffer after the pulls from `ns[k..]` into cell `p`, starting at
      running level `h`; each pull raises the running level by the amount pulled, and
      the first four use threshold `th`, the rest `thDiag`. */
  function PullFrom(rule: MassRule, m: seq<Cell>, d: seq<real>, p: int, ns: seq<int>, k: int, h: real,
                    a: real, th: real, thDiag: real): (r: seq<real>)
    requires |m| == N && |d| == N && 0 <= p < N && CellList(ns) && 0 <= k <= |ns|
    ensures |r| == N
    decreases |ns| - k
  {
    if k == |ns| then d
    else
      var from := ns[k];
      var amount := MoveAmount(rule, m[from], h, a, SlotThreshold(k, th, thDiag));
      var d1 := d[from := d[from] - amount];
      var d2 := d1[p := d1[p] + amount];
      PullFrom(rule, m, d2, p, ns, k + 1, h + amount, a, th, thDiag)
  }

  /** The first of the remaining pulls, taken on its own. */
  lemma PullFromStep(rule: MassRule, m: seq<Cell>, d: seq<real>, p: int, ns: seq<int>, k: int, h: real,
                     a: real, th: real, thDiag: real, amount: real)
    requires |m| == N && |d| == N && 0 <= p < N && CellList(ns) && 0 <= k < |ns|
    requires amount == MoveAmount(rule, m[ns[k]], h, a, SlotThreshold(k, th, thDiag))
    ensures var d1 := d[ns[k] := d[ns[k]] - amount];
      PullFrom(rule, m, d, p, ns, k, h, a, th, thDiag) ==
      PullFrom(rule, m, d1[p := d1[p] + amount], p, ns, k + 1, h + amount, a, th, thDiag)
  {
  }

  /** A debit at one index and an equal credit at another keep the sum. */
  lemma MoveKeepsSum(d: seq<real>, from: int, to: int, amount: real)
    requires 0 <= from < |d| && 0 <= to < |d|
    ensures var d1 := d[from := d[from] - amount];
      Sum(d1[to := d1[to] + amount]) == Sum(d)
  {
    var d1 := d[from := d[from] - amount];
    SumUpdate(d, from, d1[from]);
    SumUpdate(d1, to, d1[to] + amount);
  }

  /** The pulls of one sample keep the buffer's sum. */
  lemma {:induction false} PullFromKeepsSum(rule: MassRule, m: seq<Cell>, d: seq<real>, p: int, ns: seq<int>, k: int,
                                            h: real, a: real, th: real, thDiag: real)
    requires |m| == N && |d| == N && 0 <= p < N && CellList(ns) && 0 <= k <= |ns|
    ensures Sum(PullFrom(rule, m, d, p, ns, k, h, a, th, thDiag)) == Sum(d)
    decreases |ns| - k
  {
    if k < |ns| {
      var from := ns[k];
      var amount := MoveAmount(rule, m[from], h, a, SlotThreshold(k, th, thDiag));
      var d1 := d[from := d[from] - amount];
      var d2 := d1[p := d1[p] + amount];
      MoveKeepsSum(d, from, p, amount);
      PullFromKeepsSum(rule, m, d2, p, ns, k + 1, h + amount, a, th, thDiag);
    }
  }

  /** The pulls of one sample touch only the sampled cell and the cells pulled from. */
  lemma {:induction false} PullFromLocal(rule: MassRule, m: seq<Cell>, d: seq<real>, p: int, ns: seq<int>, k: int,
                                         h: real, a: real, th: real, thDiag: real, i: int)
    requires |m| == N && |d| == N && 0 <= p < N && CellList(ns) && 0 <= k <= |ns|
    requires 0 <= i < N && i != p && i !in ns
    ensures PullFrom(rule, m, d, p, ns, k, h, a, th, thDiag)[i] == d[i]
    decreases |ns| - k
  {
    if k < |ns| {
      var from := ns[k];
      var amount := MoveAmount(rule, m[from], h, a, SlotThreshold(k, th, thDiag));
      var d1 := d[from := d[from] - amount];
      var d2 := d1[p := d1[p] + amount];
      PullFromLocal(rule, m, d2, p, ns, k + 1, h + amount, a, th, thDiag, i);
    }
  }

  // ===========================================================================
  // The sampled passes

  /** The scratch buffer after the first `k` samples; sample `s` takes its column and
      row from draws `2s` and `2s + 1`. The grid `m` is only read. */
  function MassSamples(rule: MassRule, m: seq<Cell>, d: seq<real>, draws: seq<nat>, k: nat,
                       a: real, th: real, thDiag: real): (r: seq<real>)
    requires |m| == N && |d| == N && 2 * k <= |draws|
    ensures |r| == N
    decreases k
  {
    if k == 0 then d
    else
      var prev := MassSamples(rule, m, d, draws, k - 1, a, th, thDiag);
      var x := Next(draws[2 * (k - 1)], Size);
      var y := Next(draws[2 * (k - 1) + 1], Size);
      PullFrom(rule, m, prev, C(x, y), PullCells(x, y), 0, m[C(x, y)].GroundLevel(), a, th, thDiag)
  }

  /** Sample `i` runs after the first `i`, at the column and row that draws `2 i` and
      `2 i + 1` pick. */
  lemma MassSamplesNext(rule: MassRule, m: seq<Cell>, d: seq<real>, draws: seq<nat>, i: nat,
                        a: real, th: real, thDiag: real)
    requires |m| == N && |d| == N && 2 * i + 2 <= |draws|
    ensures var x, y := Next(draws[2 * i], Size), Next(draws[2 * i + 1], Size);
      MassSamples(rule, m, d, draws, i + 1, a, th, thDiag) ==
      PullFrom(rule, m, MassSamples(rule, m, d, draws, i, a, th, thDiag), C(x, y), PullCells(x, y), 0,
               m[C(x, y)].GroundLevel(), a, th, thDiag)
  {
  }

  /** However many samples run, the scratch buffer's sum is unchanged. */
  lemma {:induction false} MassSamplesKeepSum(rule: MassRule, m: seq<Cell>, d: seq<real>, draws: seq<nat>, k: nat,
                                             a: real, th: real, thDiag: real)
    requires |m| == N && |d| == N && 2 * k <= |draws|
    ensures Sum(MassSamples(rule, m, d, draws, k, a, th, thDiag)) == Sum(d)
    decreases k
  {
    if k > 0 {
      var prev := MassSamples(rule, m, d, draws, k - 1, a, th, thDiag);
      MassSamplesKeepSum(rule, m, d, draws, k - 1, a, th, thDiag);
      var x := Next(draws[2 * (k - 1)], Size);
      var y := Next(draws[2 * (k - 1) + 1], Size);
      PullFromKeepsSum(rule, m, prev, C(x, y), PullCells(x, y), 0, m[C(x, y)].GroundLevel(), a, th, thDiag);
    }
  }

  /** Slump's merge: every delta goes to the loose material. */
  function SlumpMerge(m: seq<Cell>, d: seq<real>): (r: seq<Cell>)
    requires |d| == |m|
    ensures |r| == |m|
  {
    seq(|m|, i requires 0 <= i < |m| => m[i].(Loose := m[i].Loose + d[i]))
  }

  /** Collapse's merge: a negative delta is taken from the rock, a positive one added to
      the loose material. */
  function CollapseMerge(m: seq<Cell>, d: seq<real>): (r: seq<Cell>)
    requires |d| == |m|
    ensures |r| == |m|
  {
    seq(|m|, i requires 0 <= i < |m| =>
      if d[i] < 0.0 then m[i].(Hard := m[i].Hard + d[i]) else m[i].(Loose := m[i].Loose + d[i]))
  }

  /** Slump's merge changes only the loose material, adding the buffer's sum to its
      total. */
  lemma SlumpMergeTotals(m: seq<Cell>, d: seq<real>)
    requires |d| == |m|
    ensures forall i :: 0 <= i < |m| ==> SlumpMerge(m, d)[i] == m[i].(Loose := SlumpMerge(m, d)[i].Loose)
    ensures Total(SlumpMerge(m, d), LooseQ) == Total(m, LooseQ) + Sum(d)
  {
    TotalAddDeltas(m, SlumpMerge(m, d), d, LooseQ);
  }

  /** Collapse's merge leaves water and height deltas alone and adds the buffer's sum to
      the total ground. */
  lemma CollapseMergeTotals(m: seq<Cell>, d: seq<real>)
    requires |d| == |m|
    ensures forall i :: 0 <= i < |m| ==>
      CollapseMerge(m, d)[i].Water == m[i].Water && CollapseMerge(m, d)[i].DeltaHeight == m[i].DeltaHeight
    ensures forall i :: 0 <= i < |m| ==> d[i] < 0.0 ==> CollapseMerge(m, d)[i].Loose == m[i].Loose
    ensures forall i :: 0 <= i < |m| ==> d[i] >= 0.0 ==> CollapseMerge(m, d)[i].Hard == m[i].Hard
    ensures Total(CollapseMerge(m, d), GroundQ) == Total(m, GroundQ) + Sum(d)
  {
    TotalAddDeltas(m, CollapseMerge(m, d), d, GroundQ);
  }

  /** A whole slump pass from a zeroed buffer changes only the loose material and keeps
      its total. */
  lemma SlumpConserves(m: seq<Cell>, z: seq<real>, draws: seq<nat>, k: nat, a: real, th: real)
    requires |m| == N && |z| == N && 2 * k <= |draws| && Sum(z) == 0.0
    ensures var r := SlumpMerge(m, MassSamples(SlumpRule, m, z, draws, k, a, th, th * SlumpDiagonal));
      Total(r, LooseQ) == Total(m, LooseQ) &&
      forall i :: 0 <= i < N ==> r[i] == m[i].(Loose := r[i].Loose)
  {
    var d := MassSamples(SlumpRule, m, z, draws, k, a, th, th * SlumpDiagonal);
    MassSamplesKeepSum(SlumpRule, m, z, draws, k, a, th, th * SlumpDiagonal);
    SlumpMergeTotals(m, d);
  }

  /** A whole collapse pass from a zeroed buffer keeps the total ground and leaves water
      and height deltas alone. */
  lemma CollapseConserves(m: seq<Cell>, z: seq<real>, draws: seq<nat>, k: nat, a: real, th: real, lt: real)
    requires |m| == N && |z| == N && 2 * k <= |draws| && Sum(z) == 0.0
    ensures var r := CollapseMerge(m, MassSamples(CollapseRule(lt), m, z, draws, k, a, th, th * Sqrt2));
      Total(r, GroundQ) == Total(m, GroundQ) &&
      forall i :: 0 <= i < N ==> r[i].Water == m[i].Water && r[i].DeltaHeight == m[i].DeltaHeight
  {
    var d := MassSamples(CollapseRule(lt), m, z, draws, k, a, th, th * Sqrt2);
    MassSamplesKeepSum(CollapseRule(lt), m, z, draws, k, a, th, th * Sqrt2);
    CollapseMergeTotals(m, d);
  }

  // ===========================================================================
  // Point collapses, applied in place

  /** What `CollapseFrom` adds to neighbour `c` of the centre `centre` whose height was
      `h`: the neighbour's shortfall below `h`, capped at a fifth of the centre's loose
      material, scaled by `a`; nothing when that is not positive. */
  function FromGain(centre: Cell, c: Cell, h: real, a: real): (r: real)
    ensures h - c.Height() <= 0.0 || centre.Loose <= 0.0 ==> r == 0.0
    ensures h - c.Height() > 0.0 && centre.Loose > 0.0 ==>
      r == a * (if h - c.Height() > centre.Loose * 0.2 then centre.Loose * 0.2 else h - c.Height())
    ensures a >= 0.0 ==> 0.0 <= r <= a * (0.2 * PositiveLoose(centre))
  {
    var diff := h - c.Height();
    var capped := if diff > centre.Loose * 0.2 then centre.Loose * 0.2 else diff;
    if capped > 0.0 then capped * a else 0.0
  }

  /** What `CollapseTo` takes from neighbour `c` of a centre whose height was `h`: the
      neighbour's excess above `h`, capped at a quarter of its own loose material, scaled
      by `a`; nothing when that is not positive. */
  function ToLoss(c: Cell, h: real, a: real): (r: real)
    ensures c.Height() - h <= 0.0 || c.Loose <= 0.0 ==> r == 0.0
    ensures c.Height() - h > 0.0 && c.Loose > 0.0 ==>
      r == a * (if c.Height() - h > c.Loose * 0.25 then c.Loose * 0.25 else c.Height() - h)
    ensures a >= 0.0 ==> 0.0 <= r <= a * (0.25 * PositiveLoose(c))
  {
    var diff := c.Height() - h;
    var capped := if diff > c.Loose * 0.25 then c.Loose * 0.25 else diff;
    if capped > 0.0 then capped * a else 0.0
  }

  /** The grid and the running total after one of the point collapses has visited
      neighbours `ns[k..]`. */
  datatype PointState = PointState(grid: seq<Cell>, moved: real)

  /** Which point collapse is running. */
  datatype PointRule = FromRule | ToRule

  /** The change to neighbour `i`'s loose material at slot `k`, and what it adds to the
      running total; straight neighbours use `a`, diagonal ones `a2`. */
  function PointAmount(rule: PointRule, m: seq<Cell>, ci: int, i: int, k: int, h: real, a: real, a2: real): real
    requires |m| == N && 0 <= ci < N && 0 <= i < N
  {
    var s := if k < 4 then a else a2;
    match rule
    case FromRule => FromGain(m[ci], m[i], h, s)
    case ToRule => ToLoss(m[i], h, s)
  }

  /** The neighbour pass of a point collapse: each neighbour in turn gains (`FromRule`)
      or loses (`ToRule`) loose material, and the amount joins the running total. */
  function PointFold(rule: PointRule, m: seq<Cell>, ci: int, ns: seq<int>, k: int, h: real, a: real, a2: real,
                     moved: real): (r: PointState)
    requires |m| == N && 0 <= ci < N && CellList(ns) && 0 <= k <= |ns|
    ensures |r.grid| == N
    decreases |ns| - k
  {
    if k == |ns| then PointState(m, moved)
    else
      var i := ns[k];
      var v := PointAmount(rule, m, ci, i, k, h, a, a2);
      var loose := if rule == FromRule then m[i].Loose + v else m[i].Loose - v;
      PointFold(rule, m[i := m[i].(Loose := loose)], ci, ns, k + 1, h, a, a2, moved + v)
  }

  /** The first of the remaining steps of the neighbour pass, taken on its own. */
  lemma PointFoldStep(rule: PointRule, m: seq<Cell>, ci: int, ns: seq<int>, k: int, h: real, a: real, a2: real,
                      moved: real, v: real)
    requires |m| == N && 0 <= ci < N && CellList(ns) && 0 <= k < |ns|
    requires v == PointAmount(rule, m, ci, ns[k], k, h, a, a2)
    ensures var i := ns[k];
      var loose := if rule == FromRule then m[i].Loose + v else m[i].Loose - v;
      PointFold(rule, m, ci, ns, k, h, a, a2, moved) ==
      PointFold(rule, m[i := m[i].(Loose := loose)], ci, ns, k + 1, h, a, a2, moved + v)
  {
  }

  /** The neighbour pass shifts the grid's loose total by the running total's growth
      (up for `FromRule`, down for `ToRule`). */
  lemma {:induction false} PointFoldBalance(rule: PointRule, m: seq<Cell>, ci: int, ns: seq<int>, k: int,
                                            h: real, a: real, a2: real, moved: real)
    requires |m| == N && 0 <= ci < N && CellList(ns) && 0 <= k <= |ns|
    ensures var r := PointFold(rule, m, ci, ns, k, h, a, a2, moved);
      Total(r.grid, LooseQ) == Total(m, LooseQ) + (if rule == FromRule then 1.0 else -1.0) * (r.moved - moved)
    decreases |ns| - k
  {
    if k < |ns| {
      var i := ns[k];
      var v := PointAmount(rule, m, ci, i, k, h, a, a2);
      var loose := if rule == FromRule then m[i].Loose + v else m[i].Loose - v;
      var m' := m[i := m[i].(Loose := loose)];
      TotalUpdate(m, i, m'[i], LooseQ);
      PointFoldBalance(rule, m', ci, ns, k + 1, h, a, a2, moved + v);
    }
  }

  /** The neighbour pass changes only loose material, and nothing outside `ns`. */
  lemma {:induction false} PointFoldFrame(rule: PointRule, m: seq<Cell>, ci: int, ns: seq<int>, k: int,
                                          h: real, a: real, a2: real, moved: real)
    requires |m| == N && 0 <= ci < N && CellList(ns) && 0 <= k <= |ns|
    ensures var r := PointFold(rule, m, ci, ns, k, h, a, a2, moved);
      forall j :: 0 <= j < N ==> r.grid[j] == m[j].(Loose := r.grid[j].Loose)
    ensures var r := PointFold(rule, m, ci, ns, k, h, a, a2, moved);
      forall j :: 0 <= j < N && j !in ns ==> r.grid[j] == m[j]
    decreases |ns| - k
  {
    if k < |ns| {
      var i := ns[k];
      var v := PointAmount(rule, m, ci, i, k, h, a, a2);
      var loose := if rule == FromRule then m[i].Loose + v else m[i].Loose - v;
      PointFoldFrame(rule, m[i := m[i].(Loose := loose)], ci, ns, k + 1, h, a, a2, moved + v);
    }
  }

  /** With nonnegative scales the running total only grows. */
  lemma {:induction false} PointFoldMoved(rule: PointRule, m: seq<Cell>, ci: int, ns: seq<int>, k: int,
                                          h: real, a: real, a2: real, moved: real)
    requires |m| == N && 0 <= ci < N && CellList(ns) && 0 <= k <= |ns|
    requires a >= 0.0 && a2 >= 0.0
    ensures PointFold(rule, m, ci, ns, k, h, a, a2, moved).moved >= moved
    decreases |ns| - k
  {
    if k < |ns| {
      var i := ns[k];
      var v := PointAmount(rule, m, ci, i, k, h, a, a2);
      var loose := if rule == FromRule then m[i].Loose + v else m[i].Loose - v;
      PointFoldMoved(rule, m[i := m[i].(Loose := loose)], ci, ns, k + 1, h, a, a2, moved + v);
    }
  }

  /** A scale in [0, 1] does not enlarge a nonnegative amount. */
  lemma ScaleAtMost(s: real, t: real)
    requires 0.0 <= s <= 1.0 && t >= 0.0
    ensures s * t <= t
  {
    assert t - s * t == (1.0 - s) * t;
  }

  /** With a scale in [0, 1], a neighbour with no negative loose material never loses
      more than it has. */
  lemma ToLossKeepsLoose(c: Cell, h: real, s: real)
    requires 0.0 <= s <= 1.0 && c.Loose >= 0.0
    ensures c.Loose - ToLoss(c, h, s) >= 0.0
  {
    var q := 0.25 * PositiveLoose(c);
    assert q == 0.25 * c.Loose;
    var r := ToLoss(c, h, s);
    assert r <= s * q;
    ScaleAtMost(s, q);
  }

  /** With scales in [0, 1], `ToRule` leaves every cell that had
      no negative loose material with none. */
  lemma {:induction false} PointFoldKeepsLoose(m: seq<Cell>, ci: int, ns: seq<int>, k: int,
                                               h: real, a: real, a2: real, moved: real)
    requires |m| == N && 0 <= ci < N && CellList(ns) && 0 <= k <= |ns|
    requires 0.0 <= a <= 1.0 && 0.0 <= a2 <= 1.0
    requires forall j :: 0 <= j < N ==> m[j].Loose >= 0.0
    ensures forall j :: 0 <= j < N ==> PointFold(ToRule, m, ci, ns, k, h, a, a2, moved).grid[j].Loose >= 0.0
    decreases |ns| - k
  {
    if k < |ns| {
      var i := ns[k];
      var v := PointAmount(ToRule, m, ci, i, k, h, a, a2);
      ToLossKeepsLoose(m[i], h, if k < 4 then a else a2);
      var m' := m[i := m[i].(Loose := m[i].Loose - v)];
      PointFoldKeepsLoose(m', ci, ns, k + 1, h, a, a2, moved + v);
    }
  }

  /** The grid after `CollapseFrom(x, y, a)`: the neighbours below the centre gain loose
      material, and the centre pays the total from its loose material, then from its
      rock once the loose material is used up. */
  function CollapseFromCells(m: seq<Cell>, x: int, y: int, a: real): (r: seq<Cell>)
    requires |m| == N
    ensures |r| == N
  {
    var ci := C(x, y);
    var f := PointFold(FromRule, m, ci, ScanCells(x, y), 0, m[ci].Height(), a, a * PointDiagonal, 0.0);
    Debit(f.grid, ci, f.moved)
  }

  /** Cell `ci` pays `moved`: from its loose material while that is more than enough,
      otherwise all of its loose material and the rest from its rock. */
  function Debit(g: seq<Cell>, ci: int, moved: real): (r: seq<Cell>)
    requires 0 <= ci < |g|
    ensures |r| == |g| && forall j :: 0 <= j < |g| && j != ci ==> r[j] == g[j]
    ensures r[ci].Hard + r[ci].Loose == g[ci].Hard + g[ci].Loose - moved
    ensures r[ci].Loose >= 0.0 && r[ci].Water == g[ci].Water && r[ci].DeltaHeight == g[ci].DeltaHeight
  {
    var c := g[ci];
    g[ci := if moved < c.Loose then c.(Loose := c.Loose - moved)
            else c.(Hard := c.Hard - (moved - c.Loose), Loose := 0.0)]
  }

  /** The grid after `CollapseTo(x, y, a)`: the neighbours above the centre lose loose
      material and the centre's loose material gains the total. */
  function CollapseToCells(m: seq<Cell>, x: int, y: int, a: real): (r: seq<Cell>)
    requires |m| == N
    ensures |r| == N
  {
    var ci := C(x, y);
    PointTo(m, ci, ScanCells(x, y), m[ci].Height(), a, a * PointDiagonal)
  }

  /** A `CollapseTo` around centre `ci` with neighbours `ns`: the neighbour pass, then
      the centre credited with the total. */
  function PointTo(m: seq<Cell>, ci: int, ns: seq<int>, h: real, a: real, a2: real): (r: seq<Cell>)
    requires |m| == N && 0 <= ci < N && CellList(ns)
    ensures |r| == N
  {
    var f := PointFold(ToRule, m, ci, ns, 0, h, a, a2, 0.0);
    f.grid[ci := f.grid[ci].(Loose := f.grid[ci].Loose + f.moved)]
  }

  /** A point collapse towards the centre keeps the loose total and changes only loose
      material, and only at the centre and in `ns`. */
  lemma PointToConserves(m: seq<Cell>, ci: int, ns: seq<int>, h: real, a: real, a2: real)
    requires |m| == N && 0 <= ci < N && CellList(ns) && ci !in ns
    ensures Total(PointTo(m, ci, ns, h, a, a2), LooseQ) == Total(m, LooseQ)
    ensures forall j :: 0 <= j < N ==>
      PointTo(m, ci, ns, h, a, a2)[j].Hard == m[j].Hard && PointTo(m, ci, ns, h, a, a2)[j].Water == m[j].Water &&
      PointTo(m, ci, ns, h, a, a2)[j].DeltaHeight == m[j].DeltaHeight
    ensures forall j :: 0 <= j < N && j != ci && j !in ns ==> PointTo(m, ci, ns, h, a, a2)[j] == m[j]
  {
    var f := PointFold(ToRule, m, ci, ns, 0, h, a, a2, 0.0);
    PointFoldBalance(ToRule, m, ci, ns, 0, h, a, a2, 0.0);
    PointFoldFrame(ToRule, m, ci, ns, 0, h, a, a2, 0.0);
    assert f.grid[ci] == m[ci];
    CreditCentre(m, f.grid, ci, f.moved);
  }

  /** `CollapseFrom` keeps the grid's total ground. */
  lemma CollapseFromConserves(m: seq<Cell>, x: int, y: int, a: real)
    requires |m| == N
    ensures Total(CollapseFromCells(m, x, y, a), GroundQ) == Total(m, GroundQ)
  {
    var ci := C(x, y);
    var ns := ScanCells(x, y);
    var f := PointFold(FromRule, m, ci, ns, 0, m[ci].Height(), a, a * PointDiagonal, 0.0);
    PointFoldBalance(FromRule, m, ci, ns, 0, m[ci].Height(), a, a * PointDiagonal, 0.0);
    PointFoldFrame(FromRule, m, ci, ns, 0, m[ci].Height(), a, a * PointDiagonal, 0.0);
    assert Total(f.grid, LooseQ) == Total(m, LooseQ) + f.moved;
    DebitCentre(m, f.grid, ci, f.moved);
  }

  /** Taking `moved` from the centre undoes, as far as total ground goes, a gain of
      `moved` in loose material elsewhere. */
  lemma DebitCentre(m: seq<Cell>, g: seq<Cell>, ci: int, moved: real)
    requires |m| == N && |g| == N && 0 <= ci < N
    requires Total(g, LooseQ) == Total(m, LooseQ) + moved
    requires forall j :: 0 <= j < N ==> g[j] == m[j].(Loose := g[j].Loose)
    ensures Total(Debit(g, ci, moved), GroundQ) == Total(m, GroundQ)
  {
    TotalMergeLooseHard(m, g);
    TotalUpdate(g, ci, Debit(g, ci, moved)[ci], GroundQ);
  }

  /** `CollapseFrom` leaves water and height deltas alone, touches only the centre and
      its eight neighbours, and never leaves the centre with negative loose material. */
  lemma CollapseFromFrame(m: seq<Cell>, x: int, y: int, a: real)
    requires |m| == N
    ensures var r := CollapseFromCells(m, x, y, a);
      forall j :: 0 <= j < N ==> r[j].Water == m[j].Water && r[j].DeltaHeight == m[j].DeltaHeight
    ensures var r := CollapseFromCells(m, x, y, a);
      forall j :: 0 <= j < N && j != C(x, y) && j !in ScanCells(x, y) ==> r[j] == m[j]
    ensures CollapseFromCells(m, x, y, a)[C(x, y)].Loose >= 0.0
  {
    var ci := C(x, y);
    var ns := ScanCells(x, y);
    PointFoldFrame(FromRule, m, ci, ns, 0, m[ci].Height(), a, a * PointDiagonal, 0.0);
  }

  /** Ground is rock plus loose material, so a change to loose material alone changes
      the ground total by as much as the loose total. */
  lemma TotalMergeLooseHard(m: seq<Cell>, m': seq<Cell>)
    requires |m'| == |m|
    requires forall j :: 0 <= j < |m| ==> m'[j] == m[j].(Loose := m'[j].Loose)
    ensures Total(m', GroundQ) - Total(m, GroundQ) == Total(m', LooseQ) - Total(m, LooseQ)
  {
    var d := seq(|m|, j requires 0 <= j < |m| => m'[j].Loose - m[j].Loose);
    TotalAddDeltas(m, m', d, GroundQ);
    TotalAddDeltas(m, m', d, LooseQ);
  }

  /** `CollapseTo` keeps the grid's total loose material and changes nothing but loose
      material. */
  lemma CollapseToConserves(m: seq<Cell>, x: int, y: int, a: real)
    requires |m| == N
    ensures Total(CollapseToCells(m, x, y, a), LooseQ) == Total(m, LooseQ)
    ensures forall j :: 0 <= j < N ==>
      CollapseToCells(m, x, y, a)[j].Hard == m[j].Hard && CollapseToCells(m, x, y, a)[j].Water == m[j].Water &&
      CollapseToCells(m, x, y, a)[j].DeltaHeight == m[j].DeltaHeight
    ensures forall j :: 0 <= j < N && j != C(x, y) && j !in ScanCells(x, y) ==> CollapseToCells(m, x, y, a)[j] == m[j]
  {
    var ci := C(x, y);
    PointToConserves(m, ci, ScanCells(x, y), m[ci].Height(), a, a * PointDiagonal);
  }

  /** Crediting the centre with what the neighbours lost restores the loose total. */
  lemma CreditCentre(m: seq<Cell>, g: seq<Cell>, ci: int, moved: real)
    requires |m| == N && |g| == N && 0 <= ci < N
    requires Total(g, LooseQ) == Total(m, LooseQ) + -1.0 * moved
    requires forall j :: 0 <= j < N ==> g[j] == m[j].(Loose := g[j].Loose)
    ensures var r := g[ci := g[ci].(Loose := g[ci].Loose + moved)];
      Total(r, LooseQ) == Total(m, LooseQ) &&
      forall j :: 0 <= j < N ==> r[j].Hard == m[j].Hard && r[j].Water == m[j].Water && r[j].DeltaHeight == m[j].DeltaHeight
  {
    TotalUpdate(g, ci, g[ci].(Loose := g[ci].Loose + moved), LooseQ);
  }

  /** With a scale in [0, 1], `CollapseTo` keeps all loose material nonnegative. */
  lemma CollapseToKeepsLoose(m: seq<Cell>, x: int, y: int, a: real)
    requires |m| == N && 0.0 <= a <= 1.0
    requires forall j :: 0 <= j < N ==> m[j].Loose >= 0.0
    ensures forall j :: 0 <= j < N ==> CollapseToCells(m, x, y, a)[j].Loose >= 0.0
  {
    var ci := C(x, y);
    var ns := ScanCells(x, y);
    PointFoldKeepsLoose(m, ci, ns, 0, m[ci].Height(), a, a * PointDiagonal, 0.0);
    PointFoldMoved(ToRule, m, ci, ns, 0, m[ci].Height(), a, a * PointDiagonal, 0.0);
  }
}
