// What a conversion does to a texture, block by block, told from the bytes of its header alone.
module RpakBlocks {
  import opened Options
  import opened Arithmetic
  import opened Bits
  import opened RpakTextures
  import opened RpakMips
  import opened RpakImage

  // ---------- Formats ----------

  // Bytes for a block and the block's side in pixels, format by format.
  const BYTES_0: seq<nat> := [8, 8, 16, 16, 16, 16, 8, 8, 16, 16, 16, 16, 16, 16, 16, 16, 16, 12, 12, 12]
  const BYTES_20: seq<nat> := [8, 8, 8, 8, 8, 8, 8, 8, 4, 4, 4, 4, 4, 4, 4, 4, 4, 4, 4, 4, 4, 4, 4, 4]
  const BYTES_44: seq<nat> := [2, 2, 2, 2, 2, 2, 2, 2, 2, 1, 1, 1, 1, 1, 4, 4, 4, 2]
  const SIDES_0: seq<nat> := [4, 4, 4, 4, 4, 4, 4, 4, 4, 4, 4, 4, 4, 4, 1, 1, 1, 1, 1, 1]
  const SIDES_20: seq<nat> := [1, 1, 1, 1, 1, 1, 1, 1, 1, 1, 1, 1, 1, 1, 1, 1, 1, 1, 1, 1, 1, 1, 1, 1]
  const SIDES_44: seq<nat> := [1, 1, 1, 1, 1, 1, 1, 1, 1, 1, 1, 1, 1, 1, 1, 1, 1, 1]

  const FORMAT_BYTES: seq<nat> := BYTES_0 + BYTES_20 + BYTES_44
  const FORMAT_SIDES: seq<nat> := SIDES_0 + SIDES_20 + SIDES_44

  lemma FirstFormats(f: nat)
    requires f < 20
    ensures |FORMAT_BYTES| == |FORMAT_SIDES| == 62
    ensures BlockBytes(f) == FORMAT_BYTES[f] >= 1 && BlockSide(f) == FORMAT_SIDES[f] >= 1
  {
    assert FORMAT_BYTES[f] == BYTES_0[f] && FORMAT_SIDES[f] == SIDES_0[f];
  }

  lemma MiddleFormats(f: nat)
    requires 20 <= f < 44
    ensures |FORMAT_BYTES| == |FORMAT_SIDES| == 62
    ensures BlockBytes(f) == FORMAT_BYTES[f] >= 1 && BlockSide(f) == FORMAT_SIDES[f] >= 1
  {
    assert FORMAT_BYTES[f] == BYTES_20[f - 20] && FORMAT_SIDES[f] == SIDES_20[f - 20];
  }

  lemma LastFormats(f: nat)
    requires 44 <= f < 62
    ensures |FORMAT_BYTES| == |FORMAT_SIDES| == 62
    ensures BlockBytes(f) == FORMAT_BYTES[f] >= 1 && BlockSide(f) == FORMAT_SIDES[f] >= 1
  {
    assert FORMAT_BYTES[f] == BYTES_44[f - 44] && FORMAT_SIDES[f] == SIDES_44[f - 44];
  }

  lemma FormatTable(f: nat)
    requires f < 62
    ensures FORMATS == |FORMAT_BYTES| == |FORMAT_SIDES| == 62
    ensures BlockBytes(f) == FORMAT_BYTES[f] >= 1 && BlockSide(f) == FORMAT_SIDES[f] >= 1
  {
    if f < 20 {
      FirstFormats(f);
    } else if f < 44 {
      MiddleFormats(f);
    } else {
      LastFormats(f);
    }
  }

  // ---------- A mip's blocks ----------

  // The blocks of one mip: how many in a row, how many rows, and the bytes of each.
  datatype Grid = Grid(columns: nat, rows: nat, bytes: nat) {
    // Where block (x, y) starts, rows one after the other.
    function Linear(x: nat, y: nat): nat {
      (y * columns + x) * bytes
    }

    // The bytes of all rows, padded to sixteen.
    function Stored(): nat {
      (columns * rows * bytes + 15) / 16 * 16
    }

    function Across(): nat {
      (columns + 7) / 8
    }

    function Down(): nat {
      (rows + 7) / 8
    }

    // Whole tiles of eight by eight.
    function Tiled(): nat {
      Across() * Down() * 64 * bytes
    }

    // Where block (x, y) starts in the tiles: tile after tile, and in its tile by the bits of x and y in turn.
    function Placed(x: nat, y: nat): nat {
      Slot(x, y) * bytes
    }

    function Slot(x: nat, y: nat): nat {
      64 * Tile(x, y) + Interleaved(x, y)
    }

    // The tile it is in, row by row.
    function Tile(x: nat, y: nat): nat {
      y / 8 * Across() + x / 8
    }
  }

  function Interleaved(x: nat, y: nat): nat {
    x % 2 + 2 * (y % 2) + 4 * (x / 2 % 2) + 8 * (y / 2 % 2) + 16 * (x / 4 % 2) + 32 * (y / 4 % 2)
  }

  // A side of the mip: halved each time, and at least 1.
  function Halved(n: nat, mip: nat): nat {
    if mip > 0 then Halved(n / 2, mip - 1) else if n == 0 then 1 else n
  }

  function GridOf(width: nat, height: nat, format: nat, mip: nat): Grid
    requires format < 62
  {
    FormatTable(format);
    var side := FORMAT_SIDES[format];
    Grid((Halved(width, mip) + side - 1) / side, (Halved(height, mip) + side - 1) / side, FORMAT_BYTES[format])
  }

  // The bytes of the mips from `mip` to last - 1: as stored, and as tiled.
  function StoredSize(width: nat, height: nat, format: nat, mip: nat, last: nat): nat
    requires format < 62 && mip <= last
    decreases last - mip
  {
    if mip == last then 0
    else GridOf(width, height, format, mip).Stored() + StoredSize(width, height, format, mip + 1, last)
  }

  function TiledSize(width: nat, height: nat, format: nat, mip: nat, last: nat): nat
    requires format < 62 && mip <= last
    decreases last - mip
  {
    if mip == last then 0
    else GridOf(width, height, format, mip).Tiled() + TiledSize(width, height, format, mip + 1, last)
  }

  // ---------- The same as the model's ----------

  lemma {:induction false} HalvedIs(n: nat, mip: nat)
    ensures Halved(n, mip) == AtLeastOne(ShiftRight(n, mip))
    decreases mip
  {
    if mip > 0 {
      HalvedIs(n / 2, mip - 1);
    }
  }

  lemma BlocksAre(width: nat, height: nat, format: nat, mip: nat)
    requires format < 62
    ensures var m, g := Texture(width, height, format, 1).Level(mip), GridOf(width, height, format, mip);
            m.Valid() && g.bytes == m.bytes && g.columns == m.BlocksX() && g.rows == m.BlocksY()
  {
    FormatTable(format);
    HalvedIs(width, mip);
    HalvedIs(height, mip);
    hide ShiftRight, Halved, FORMAT_BYTES, FORMAT_SIDES, BlockBytes, BlockSide;
  }

  lemma TilesAre(m: Mip, g: Grid)
    requires m.Valid() && g.bytes == m.bytes && g.columns == m.BlocksX() && g.rows == m.BlocksY()
    ensures Matches(m, g) && m.TilesX() == g.Across() && m.TilesY() == g.Down()
    ensures m.Tiled() == g.Tiled() && Align16(m.Linear()) == g.Stored()
  {
    hide Mip.BlocksX, Mip.BlocksY;
  }

  lemma LevelIs(width: nat, height: nat, format: nat, mip: nat)
    requires format < 62
    ensures var m, g := Texture(width, height, format, 1).Level(mip), GridOf(width, height, format, mip);
            && Matches(m, g) && g.bytes == m.bytes >= 1
            && m.BlocksX() == g.columns >= 1 && m.BlocksY() == g.rows >= 1 && m.TilesX() == g.Across() && m.TilesY() == g.Down()
            && m.Tiled() == g.Tiled() && Align16(m.Linear()) == g.Stored()
  {
    hide GridOf, Texture.Level, Mip.Tiled, Mip.Linear, Grid.Stored, Grid.Tiled, Align16, Mip.BlocksX, Mip.BlocksY;
    hide Mip.TilesX, Mip.TilesY, Grid.Across, Grid.Down, Matches;
    BlocksAre(width, height, format, mip);
    TilesAre(Texture(width, height, format, 1).Level(mip), GridOf(width, height, format, mip));
  }

  lemma OneMip(width: nat, height: nat, format: nat, mip: nat)
    requires format < 62
    ensures var t, g := Texture(width, height, format, 1), GridOf(width, height, format, mip);
            t.MipSource(mip) == g.Stored() && t.MipTiled(mip) == g.Tiled()
  {
    LevelIs(width, height, format, mip);
    hide GridOf, Texture.Level, Mip.Tiled, Mip.Linear, Grid.Stored, Grid.Tiled, Align16;
  }

  lemma {:induction false} SizesAre(width: nat, height: nat, format: nat, mip: nat, last: nat)
    requires format < 62 && mip <= last
    ensures var t := Texture(width, height, format, 1);
            && t.SourceSize(mip, last) == StoredSize(width, height, format, mip, last)
            && t.TiledSize(mip, last) == TiledSize(width, height, format, mip, last)
    decreases last - mip
  {
    hide GridOf, Texture.Level, Mip.Tiled, Mip.Linear, Grid.Stored, Grid.Tiled, Align16, Texture.MipSource, Texture.MipTiled;
    if mip < last {
      OneMip(width, height, format, mip);
      SizesAre(width, height, format, mip + 1, last);
    }
  }

  lemma LowThree(n: nat)
    ensures n % 8 == n % 2 + 2 * (n / 2 % 2) + 4 * (n / 4 % 2)
  {
    var a := n / 2;
    var b := a / 2;
    var c := b / 2;
    assert b == n / 4;
    DivModUnique(n, 8, c, n % 2 + 2 * (a % 2) + 4 * (b % 2));
  }

  lemma Interleaves(x: nat, y: nat)
    ensures Unmorton8(y % 8 * 8 + x % 8) == Interleaved(x, y)
  {
    var x0, x1, x2 := x % 2, x / 2 % 2, x / 4 % 2;
    var y0, y1, y2 := y % 2, y / 2 % 2, y / 4 % 2;
    LowThree(x);
    LowThree(y);
    SixBits(x0, x1, x2, y0, y1, y2);
    assert y % 8 * 8 + x % 8 == Six(x0, x1, x2, y0, y1, y2);
  }

  // ---------- Where every block goes ----------

  // The grid of a level.
  ghost predicate Matches(m: Mip, g: Grid) {
    && m.Valid() && g.bytes == m.bytes && g.columns == m.BlocksX() && g.rows == m.BlocksY() && g.Across() == m.TilesX()
  }

  // In one mip.
  lemma BlockInSlot(m: Mip, g: Grid, source: seq<Byte>, x: nat, y: nat)
    requires Matches(m, g) && m.Linear() <= |source| && x < g.columns && y < g.rows
    ensures g.Placed(x, y) + g.bytes <= m.Tiled() && g.Linear(x, y) + g.bytes <= m.Linear()
    ensures Swizzled(m, source)[g.Placed(x, y)..g.Placed(x, y) + g.bytes] == source[g.Linear(x, y)..g.Linear(x, y) + g.bytes]
  {
    hide SlotX, SlotY, Morton8, TiledSlots, Unmorton8;
    var slot := SlotOf(m, x, y);
    SlotRoundTrip(m, x, y);
    Interleaves(x, y);
    SlotPlaced(m, g, x, y);
    hide SlotOf, Grid.Placed;
    SlotBound(m, slot);
    SlotStands(m, source, Slots(m), slot);
    LinearBound(m, x, y);
  }

  // In a group of mips.
  lemma BlockInGroup(t: Texture, g: Grid, source: seq<Byte>, first: nat, mip: nat, last: nat, x: nat, y: nat)
    requires t.format < FORMATS && t.arrays == 1 && first <= mip < last && t.SourceSize(first, last) <= |source|
    requires Matches(t.Level(mip), g) && x < g.columns && y < g.rows
    ensures var at, from := t.TiledSize(first, mip) + g.Placed(x, y), t.SourceSize(mip + 1, last) + g.Linear(x, y);
            && at + g.bytes <= t.TiledSize(first, last) && from + g.bytes <= |source|
            && Converted(t, source, first, last)[at..at + g.bytes] == source[from..from + g.bytes]
  {
    hide Matches, Texture.Level, Texture.SourceSize, Texture.TiledSize, Converted, Swizzled, Grid.Placed, Grid.Linear,
      Mip.Tiled, Mip.Linear;
    MipStands(t, source, first, mip, last);
    var m, after := t.Level(mip), t.SourceSize(mip + 1, last);
    BlockInSlot(m, g, source[after..], x, y);
    SubSlice(Converted(t, source, first, last), t.TiledSize(first, mip), m.Tiled(), g.Placed(x, y), g.bytes);
    Behind(source, after, g.Linear(x, y), g.bytes);
  }

  lemma SlotPlaced(m: Mip, g: Grid, x: nat, y: nat)
    requires m.Valid() && g.bytes == m.bytes && g.Across() == m.TilesX()
    requires Unmorton8(y % 8 * 8 + x % 8) == Interleaved(x, y)
    ensures g.Placed(x, y) == SlotOf(m, x, y) * m.bytes
  {
    hide Unmorton8, Interleaved;
  }

  // Block (x, y) of a mip stands, in the tiles of that mip behind those of the larger ones, as it stood in the mip's rows
  // behind the data of the smaller ones.
  lemma BlockPlaced(width: nat, height: nat, format: nat, source: seq<Byte>, first: nat, mip: nat, last: nat, x: nat, y: nat)
    requires format < 62 && first <= mip < last && StoredSize(width, height, format, first, last) <= |source|
    requires x < GridOf(width, height, format, mip).columns && y < GridOf(width, height, format, mip).rows
    ensures var t, g := Texture(width, height, format, 1), GridOf(width, height, format, mip);
            var at := TiledSize(width, height, format, first, mip) + g.Placed(x, y);
            var from := StoredSize(width, height, format, mip + 1, last) + g.Linear(x, y);
            && format < FORMATS && t.SourceSize(first, last) <= |source|
            && at + g.bytes <= |Converted(t, source, first, last)| && from + g.bytes <= |source|
            && Converted(t, source, first, last)[at..at + g.bytes] == source[from..from + g.bytes]
  {
    FormatTable(format);
    var t, g := Texture(width, height, format, 1), GridOf(width, height, format, mip);
    SizesAre(width, height, format, first, last);
    SizesAre(width, height, format, first, mip);
    SizesAre(width, height, format, mip + 1, last);
    LevelIs(width, height, format, mip);
    hide *;
    BlockInGroup(t, g, source, first, mip, last, x, y);
  }

  lemma Behind(s: seq<Byte>, at: nat, d: nat, k: nat)
    requires at + d + k <= |s|
    ensures s[at..][d..d + k] == s[at + d..at + d + k]
  {
    assert s[at..] == s[at..|s|];
    SubSlice(s, at, |s| - at, d, k);
  }
}
