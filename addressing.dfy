/** Toroidal addressing of the terrain grid.

    The simulator stores its cells in a flat array and reaches every cell through the
    address function `C(x, y)`, which keeps the low ten bits of each coordinate and packs
    `y` above `x`. The index space is therefore always 1024 x 1024, whatever size the grid
    was built with; the terrain class fixes its size to match. */
module Addressing {

  /** Side of the fixed ten-bit index space. */
  const Size: int := 1024

  /** Number of addressable cells, 2^20 = 1024 * 1024. */
  const N: int := 1024 * Size

  /** `v & 1023` on a two's-complement integer. Because 1024 divides 2^32 this is the
      Euclidean remainder of `v` modulo 1024 for every integer, including when the
      source's `x + 1024` overflows. */
  function Low10(v: int): (r: int)
    ensures 0 <= r < Size
  {
    v % 1024
  }

  /** Adding 1024 does not change the remainder modulo 1024. */
  lemma ModShift(v: int)
    ensures (v + Size) % 1024 == v % 1024
  {
    var q, r := v / 1024, v % 1024;
    assert v == q * 1024 + r;
    assert v + Size == (q + 1) * 1024 + r;
  }

  /** `C(x, y) = ((x + 1024) & 1023) + (((y + 1024) & 1023) << 10)`. */
  function C(x: int, y: int): (i: int)
    ensures 0 <= i < N
  {
    Low10(x + 1024) + Low10(y + 1024) * 1024
  }

  /** `CX(i) = i & 1023`. */
  function CX(i: int): (x: int)
    ensures 0 <= x < Size
  {
    Low10(i)
  }

  /** `CY(i) = (i >> 10) & 1023`; an arithmetic shift right by ten bits is floor
      division by 1024, which is Dafny's `/` for a positive divisor. */
  function CY(i: int): (y: int)
    ensures 0 <= y < Size
  {
    Low10(i / 1024)
  }

  /** The address is the column plus 1024 times the row, both reduced modulo 1024. */
  lemma CFormula(x: int, y: int)
    ensures C(x, y) == x % 1024 + 1024 * (y % 1024)
  {
    ModShift(x);
    ModShift(y);
  }

  /** The address function has period 1024 in both axes. */
  lemma CPeriodic(x: int, y: int)
    ensures C(x + Size, y) == C(x, y)
    ensures C(x, y + Size) == C(x, y)
  {
    CFormula(x, y);
    CFormula(x + Size, y);
    CFormula(x, y + Size);
  }

  /** Decoding an address gives back the coordinates modulo 1024. */
  lemma CDecode(x: int, y: int)
    ensures CX(C(x, y)) == x % 1024
    ensures CY(C(x, y)) == y % 1024
  {
    CFormula(x, y);
  }

  /** Every index of the grid is the address of its own decoded coordinates. */
  lemma CEncode(i: int)
    requires 0 <= i < N
    ensures C(CX(i), CY(i)) == i
  {
    CFormula(CX(i), CY(i));
  }

  /** Inside the grid, decoding an address gives back its column and row. */
  lemma CDecodeInRange(x: int, y: int)
    requires 0 <= x < Size && 0 <= y < Size
    ensures CX(C(x, y)) == x && CY(C(x, y)) == y
  {
    CDecode(x, y);
    assert x % 1024 == x && y % 1024 == y;
  }

  /** Inside the 1024 x 1024 square the address is plain row-major order. */
  lemma CRowMajor(x: int, y: int)
    requires 0 <= x < Size && 0 <= y < Size
    ensures C(x, y) == y * 1024 + x
  {
    CFormula(x, y);
  }

  /** Two coordinate pairs share an address exactly when they agree modulo 1024. */
  lemma CSameCell(x: int, y: int, x': int, y': int)
    ensures C(x, y) == C(x', y') <==> x % 1024 == x' % 1024 && y % 1024 == y' % 1024
  {
    CFormula(x, y);
    CFormula(x', y');
  }

  /** Two offsets of at most one step that wrap to the same column are equal. */
  lemma ModStepEqual(v: int, a: int, b: int)
    requires -1 <= a <= 1 && -1 <= b <= 1
    requires (v + a) % 1024 == (v + b) % 1024
    ensures a == b
  {
    var q, q' := (v + a) / 1024, (v + b) / 1024;
    assert v + a == q * 1024 + (v + a) % 1024;
    assert v + b == q' * 1024 + (v + b) % 1024;
    assert a - b == (q - q') * 1024;
  }

  /** A coordinate and its two neighbours along one axis wrap to three different values. */
  lemma ModNeighbours(v: int)
    ensures (v - 1) % 1024 != v % 1024 && (v + 1) % 1024 != v % 1024
    ensures (v - 1) % 1024 != (v + 1) % 1024
  {
    if (v - 1) % 1024 == v % 1024 {
      ModStepEqual(v, -1, 0);
    }
    if (v + 1) % 1024 == v % 1024 {
      ModStepEqual(v, 1, 0);
    }
    if (v - 1) % 1024 == (v + 1) % 1024 {
      ModStepEqual(v, -1, 1);
    }
  }

  /** The centre and its eight neighbours are nine distinct cells, as written in the
      source's point operations. */
  lemma NeighbourhoodDistinct(x: int, y: int)
    ensures C(x, y) != C(x - 1, y) && C(x, y) != C(x + 1, y) && C(x, y) != C(x, y - 1) && C(x, y) != C(x, y + 1)
    ensures C(x, y) != C(x - 1, y - 1) && C(x, y) != C(x - 1, y + 1) && C(x, y) != C(x + 1, y - 1) && C(x, y) != C(x + 1, y + 1)
    ensures C(x - 1, y) != C(x + 1, y) && C(x - 1, y) != C(x, y - 1) && C(x - 1, y) != C(x, y + 1)
    ensures C(x - 1, y) != C(x - 1, y - 1) && C(x - 1, y) != C(x - 1, y + 1) && C(x - 1, y) != C(x + 1, y - 1) && C(x - 1, y) != C(x + 1, y + 1)
    ensures C(x + 1, y) != C(x, y - 1) && C(x + 1, y) != C(x, y + 1)
    ensures C(x + 1, y) != C(x - 1, y - 1) && C(x + 1, y) != C(x - 1, y + 1) && C(x + 1, y) != C(x + 1, y - 1) && C(x + 1, y) != C(x + 1, y + 1)
    ensures C(x, y - 1) != C(x, y + 1)
    ensures C(x, y - 1) != C(x - 1, y - 1) && C(x, y - 1) != C(x - 1, y + 1) && C(x, y - 1) != C(x + 1, y - 1) && C(x, y - 1) != C(x + 1, y + 1)
    ensures C(x, y + 1) != C(x - 1, y - 1) && C(x, y + 1) != C(x - 1, y + 1) && C(x, y + 1) != C(x + 1, y - 1) && C(x, y + 1) != C(x + 1, y + 1)
    ensures C(x - 1, y - 1) != C(x - 1, y + 1) && C(x - 1, y - 1) != C(x + 1, y - 1) && C(x - 1, y - 1) != C(x + 1, y + 1)
    ensures C(x - 1, y + 1) != C(x + 1, y - 1) && C(x - 1, y + 1) != C(x + 1, y + 1)
    ensures C(x + 1, y - 1) != C(x + 1, y + 1)
  {
    ModNeighbours(x);
    ModNeighbours(y);
    CFormula(x, y);
    CFormula(x - 1, y);
    CFormula(x + 1, y);
    CFormula(x, y - 1);
    CFormula(x, y + 1);
    CFormula(x - 1, y - 1);
    CFormula(x - 1, y + 1);
    CFormula(x + 1, y - 1);
    CFormula(x + 1, y + 1);
  }

  /** Indices that all lie in the grid. */
  predicate CellList(ns: seq<int>) {
    forall j :: 0 <= j < |ns| ==> 0 <= ns[j] < N
  }

  /** `AllNeighbours(x, y)`: the eight cells around `(x, y)` in ring order, row by row
      from the top left. */
  function AllNeighbours(x: int, y: int): (ns: seq<int>)
    ensures |ns| == 8 && forall j :: 0 <= j < 8 ==> 0 <= ns[j] < N && ns[j] != C(x, y)
  {
    NeighbourhoodDistinct(x, y);
    [C(x - 1, y - 1), C(x, y - 1), C(x + 1, y - 1), C(x - 1, y), C(x + 1, y),
     C(x - 1, y + 1), C(x, y + 1), C(x + 1, y + 1)]
  }

  /** The ring lists eight different cells. */
  lemma AllNeighboursDistinct(x: int, y: int)
    ensures forall j, j' :: 0 <= j < j' < 8 ==> AllNeighbours(x, y)[j] != AllNeighbours(x, y)[j']
  {
    NeighbourhoodDistinct(x, y);
  }

  /** The eight neighbours of `(x, y)` in the order the sampled slump and collapse passes
      visit them: n, s, w, e, nw, ne, sw, se. */
  function PullCells(x: int, y: int): (ns: seq<int>)
    ensures |ns| == 8 && forall j :: 0 <= j < 8 ==> 0 <= ns[j] < N && ns[j] != C(x, y)
    ensures forall j, j' :: 0 <= j < j' < 8 ==> ns[j] != ns[j']
  {
    NeighbourhoodDistinct(x, y);
    [C(x, y - 1), C(x, y + 1), C(x - 1, y), C(x + 1, y),
     C(x - 1, y - 1), C(x + 1, y - 1), C(x - 1, y + 1), C(x + 1, y + 1)]
  }

  /** The eight neighbours of `(x, y)` in the order the lowest-neighbour search and the
      point collapses visit them: w, e, n, s, then (-1,-1), (-1,+1), (+1,-1), (+1,+1). */
  function ScanCells(x: int, y: int): (ns: seq<int>)
    ensures |ns| == 8 && forall j :: 0 <= j < 8 ==> 0 <= ns[j] < N && ns[j] != C(x, y)
    ensures forall j, j' :: 0 <= j < j' < 8 ==> ns[j] != ns[j']
  {
    NeighbourhoodDistinct(x, y);
    [C(x - 1, y), C(x + 1, y), C(x, y - 1), C(x, y + 1),
     C(x - 1, y - 1), C(x - 1, y + 1), C(x + 1, y - 1), C(x + 1, y + 1)]
  }

  /** The four cross neighbours of `(x, y)` in the proportional flow's order: N, W, E, S. */
  function CrossCells(x: int, y: int): (ns: seq<int>)
    ensures |ns| == 4 && forall j :: 0 <= j < 4 ==> 0 <= ns[j] < N && ns[j] != C(x, y)
    ensures forall j, j' :: 0 <= j < j' < 4 ==> ns[j] != ns[j']
  {
    NeighbourhoodDistinct(x, y);
    [C(x, y - 1), C(x - 1, y), C(x + 1, y), C(x, y + 1)]
  }
}
