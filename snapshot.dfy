/** The snapshot file as a sequence of 32-bit words: the magic number, the width and
    the height as integers, then four single-precision words per cell (rock, sediment,
    water, height delta), cells in index order. */
module Snapshot {
  import opened Cells

  /** "TER1" read as a little-endian 32-bit integer. */
  const FileMagic: int := 0x54455231

  /** One word of the file, as it was written. */
  datatype Word = I32(i: int) | F32(f: real)

  /** What loading a file ends in. */
  datatype LoadResult =
    | Loaded
      /** The first word is not the magic number; nothing is changed. */
    | NotATerrainFile
      /** The stored size differs from the grid's; nothing is changed. */
    | SizeMismatch(w: int, h: int)
      /** The file ended early; every field read before that point was stored. */
    | EndOfStream

  /** The four words that store a cell. */
  function CellWords(c: Cell): (ws: seq<Word>)
    ensures |ws| == 4
  {
    [F32(c.Hard), F32(c.Loose), F32(c.Water), F32(c.DeltaHeight)]
  }

  /** The words that store cells `m`, four per cell. */
  function BodyWords(m: seq<Cell>): (ws: seq<Word>)
    ensures |ws| == 4 * |m|
    decreases |m|
  {
    if |m| == 0 then [] else BodyWords(m[..|m| - 1]) + CellWords(m[|m| - 1])
  }

  /** The file `Save` writes for a grid of `width` by `height` cells `m`. */
  function SaveWords(m: seq<Cell>, width: int, height: int): (ws: seq<Word>)
    ensures |ws| == 3 + 4 * |m|
  {
    [I32(FileMagic), I32(width), I32(height)] + BodyWords(m)
  }

  /** Field `f` (0 rock, 1 sediment, 2 water, 3 height delta) of a cell. */
  function Field(c: Cell, f: int): real
    requires 0 <= f < 4
  {
    if f == 0 then c.Hard else if f == 1 then c.Loose else if f == 2 then c.Water else c.DeltaHeight
  }

  /** Cell `i`'s field `f` is the word at `4 i + f` of the body. */
  lemma {:induction false} BodyLayout(m: seq<Cell>, i: int, f: int)
    requires 0 <= i < |m| && 0 <= f < 4
    ensures BodyWords(m)[4 * i + f] == F32(Field(m[i], f))
    decreases |m|
  {
    var k := |m| - 1;
    if i < k {
      BodyLayout(m[..k], i, f);
      assert m[..k][i] == m[i];
    }
  }

  /** Reading a word as a 32-bit integer: an integer word is itself, a float word is
      reinterpreted by `asInt`. */
  function ReadInt(w: Word, asInt: real -> int): int {
    match w
    case I32(v) => v
    case F32(v) => asInt(v)
  }

  /** Reading a word as a float: a float word is itself, an integer word is
      reinterpreted by `asReal`. */
  function ReadReal(w: Word, asReal: int -> real): real {
    match w
    case I32(v) => asReal(v)
    case F32(v) => v
  }

  /** The header check of `Load`: the magic, then the size. */
  function HeaderCheck(ws: seq<Word>, width: int, height: int, asInt: real -> int): (r: LoadResult)
    ensures r.Loaded? <==>
      |ws| >= 3 && ReadInt(ws[0], asInt) == FileMagic && ReadInt(ws[1], asInt) == width && ReadInt(ws[2], asInt) == height
    ensures r.NotATerrainFile? <==> |ws| >= 1 && ReadInt(ws[0], asInt) != FileMagic
  {
    if |ws| < 1 then EndOfStream
    else if ReadInt(ws[0], asInt) != FileMagic then NotATerrainFile
    else if |ws| < 3 then EndOfStream
    else
      var w, h := ReadInt(ws[1], asInt), ReadInt(ws[2], asInt);
      if w != width || h != height then SizeMismatch(w, h) else Loaded
  }

  /** Cell `c` after the load reached it: each field whose word is in the file is
      replaced, the ones past the end of the file are kept. */
  function LoadCell(c: Cell, ws: seq<Word>, base: int, asReal: int -> real): (r: Cell)
    requires base >= 0
    ensures base + 4 <= |ws| ==> r == Cell(ReadReal(ws[base], asReal), ReadReal(ws[base + 1], asReal),
                                           ReadReal(ws[base + 2], asReal), ReadReal(ws[base + 3], asReal))
    ensures base >= |ws| ==> r == c
  {
    Cell(if base < |ws| then ReadReal(ws[base], asReal) else c.Hard,
         if base + 1 < |ws| then ReadReal(ws[base + 1], asReal) else c.Loose,
         if base + 2 < |ws| then ReadReal(ws[base + 2], asReal) else c.Water,
         if base + 3 < |ws| then ReadReal(ws[base + 3], asReal) else c.DeltaHeight)
  }

  /** The grid after the cell loop of `Load` has read as much of `ws` as there is. */
  function LoadBody(m: seq<Cell>, ws: seq<Word>, asReal: int -> real): (r: seq<Cell>)
    ensures |r| == |m|
  {
    seq(|m|, i requires 0 <= i < |m| => LoadCell(m[i], ws, 3 + 4 * i, asReal))
  }

  /** What `Load` ends in: a failed header check, or the end of the file before the
      last cell, or success. */
  function LoadOutcome(m: seq<Cell>, ws: seq<Word>, width: int, height: int, asInt: real -> int): (r: LoadResult)
    ensures r.Loaded? <==> HeaderCheck(ws, width, height, asInt).Loaded? && |ws| >= 3 + 4 * |m|
  {
    var header := HeaderCheck(ws, width, height, asInt);
    if !header.Loaded? then header
    else if |ws| < 3 + 4 * |m| then EndOfStream
    else Loaded
  }

  /** The grid after `Load`: unchanged when the header check fails, otherwise the body
      read as far as the file goes. */
  function LoadGrid(m: seq<Cell>, ws: seq<Word>, width: int, height: int,
                    asInt: real -> int, asReal: int -> real): (r: seq<Cell>)
    ensures |r| == |m|
    ensures !HeaderCheck(ws, width, height, asInt).Loaded? ==> r == m
  {
    if HeaderCheck(ws, width, height, asInt).Loaded? then LoadBody(m, ws, asReal) else m
  }

  /** In a saved file, cell `i`'s four fields are the words at `3 + 4 i` onwards. */
  lemma SavedCellWords(m: seq<Cell>, width: int, height: int, i: int)
    requires 0 <= i < |m|
    ensures var ws, b := SaveWords(m, width, height), 3 + 4 * i;
      ws[b] == F32(m[i].Hard) && ws[b + 1] == F32(m[i].Loose) &&
      ws[b + 2] == F32(m[i].Water) && ws[b + 3] == F32(m[i].DeltaHeight)
  {
    var ws, body := SaveWords(m, width, height), BodyWords(m);
    for f := 0 to 4
      invariant forall g :: 0 <= g < f ==> ws[3 + (4 * i + g)] == F32(Field(m[i], g))
    {
      BodyLayout(m, i, f);
      assert ws[3 + (4 * i + f)] == body[4 * i + f];
    }
    var b := 3 + 4 * i;
    assert ws[b] == F32(Field(m[i], 0)) && ws[b + 1] == F32(Field(m[i], 1));
    assert ws[b + 2] == F32(Field(m[i], 2)) && ws[b + 3] == F32(Field(m[i], 3));
  }

  /** Saving a grid and loading the file into any grid of the same size succeeds and
      reproduces every cell, whatever the word reinterpretations are. */
  lemma SaveLoadRoundTrip(m: seq<Cell>, m0: seq<Cell>, width: int, height: int,
                          asInt: real -> int, asReal: int -> real)
    requires |m0| == |m|
    ensures LoadOutcome(m0, SaveWords(m, width, height), width, height, asInt) == Loaded
    ensures LoadGrid(m0, SaveWords(m, width, height), width, height, asInt, asReal) == m
  {
    var ws := SaveWords(m, width, height);
    assert ws[0] == I32(FileMagic) && ws[1] == I32(width) && ws[2] == I32(height);
    var r := LoadGrid(m0, ws, width, height, asInt, asReal);
    forall i | 0 <= i < |m|
      ensures r[i] == m[i]
    {
      SavedCellWords(m, width, height, i);
    }
  }
}
