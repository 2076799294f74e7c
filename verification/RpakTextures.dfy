// Texture mips: sizes, the Morton tiling of the PS4 layout, and the conversion of a group of mips.
module RpakTextures {
  import opened Arithmetic
  import opened Bits

  const SIZE_MAX: nat := 0xffff_ffff_ffff_ffff

  const FORMATS: nat := 62

  // Bytes for each compression block (or pixel), by format number.
  function BlockBytes(format: nat): (n: nat)
    requires format < FORMATS
    ensures 1 <= n <= 16
  {
    if format < 2 then 8 else if format < 6 then 16 else if format < 8 then 8
    else if format < 17 then 16 else if format < 20 then 12 else if format < 28 then 8
    else if format < 44 then 4 else if format < 53 then 2 else if format < 58 then 1
    else if format < 61 then 4 else 2
  }

  // The block's side in pixels.
  function BlockSide(format: nat): (n: nat)
    ensures n == 1 || n == 4
  {
    if format < 14 then 4 else 1
  }

  // ---------- Sizes ----------

  function CeilDiv(n: nat, d: nat): (q: nat)
    requires d >= 1
    ensures q * d >= n
    ensures n >= 1 ==> q >= 1
  {
    CeilDivFacts(n, d);
    (n + d - 1) / d
  }

  lemma CeilDivFacts(n: nat, d: nat)
    requires d >= 1
    ensures (n + d - 1) / d * d >= n && (n + d - 1) / d >= 0
    ensures n >= 1 ==> (n + d - 1) / d >= 1
  {
    var x := n + d - 1;
    assert x == d * (x / d) + x % d;
  }

  // A size that the code's guards would find too large reads as 0.
  function Guarded(size: nat): nat {
    if size > SIZE_MAX then 0 else size
  }

  datatype Mip = Mip(width: nat, height: nat, bytes: nat, side: nat) {
    predicate Valid() {
      width >= 1 && height >= 1 && bytes >= 1 && side >= 1
    }

    function BlocksX(): (n: nat)
      requires Valid()
      ensures n >= 1
    {
      CeilDiv(width, side)
    }

    function BlocksY(): (n: nat)
      requires Valid()
      ensures n >= 1
    {
      CeilDiv(height, side)
    }

    function TilesX(): (n: nat)
      requires Valid()
      ensures n >= 1 && n * 8 >= BlocksX()
    {
      CeilDiv(BlocksX(), 8)
    }

    function TilesY(): (n: nat)
      requires Valid()
      ensures n >= 1 && n * 8 >= BlocksY()
    {
      CeilDiv(BlocksY(), 8)
    }

    function Linear(): nat
      requires Valid()
    {
      BlocksX() * BlocksY() * bytes
    }

    function Tiled(): nat
      requires Valid()
    {
      TilesX() * TilesY() * 64 * bytes
    }
  }

  lemma MulMonotone(a: nat, b: nat, c: nat, d: nat)
    requires a <= c && b <= d
    ensures a * b <= c * d
  {
    assert c * d - a * b == (c - a) * d + a * (d - b);
  }

  // Rounded up to a multiple of 16.
  function Align16(n: nat): (r: nat)
    ensures n <= r < n + 16 && r % 16 == 0
  {
    (n + 15) / 16 * 16
  }

  lemma Mul64(t: nat, n: nat)
    ensures t * 64 * n == 64 * (t * n)
  {
  }

  // The tiled form of a mip is never smaller than its linear form padded to 16 bytes.
  lemma TilingNeverShrinks(m: Mip)
    requires m.Valid()
    ensures Align16(m.Linear()) <= m.Tiled()
  {
    var bw, bh, tx, ty := m.BlocksX(), m.BlocksY(), m.TilesX(), m.TilesY();
    TilesCover(bw, bh, tx, ty);
    MulMonotone(bw * bh, m.bytes, tx * ty * 64, m.bytes);
    Mul64(tx * ty, m.bytes);
    AlignBelow(m.Linear(), tx * ty * m.bytes);
  }

  lemma TilesCover(bw: nat, bh: nat, tx: nat, ty: nat)
    requires bw <= tx * 8 && bh <= ty * 8
    ensures bw * bh <= tx * ty * 64
  {
    MulMonotone(bw, bh, tx * 8, ty * 8);
    assert (tx * 8) * (ty * 8) == tx * ty * 64;
  }

  lemma AlignBelow(n: nat, k: nat)
    requires n <= 64 * k
    ensures Align16(n) <= 64 * k
  {
  }

  // ---------- Morton order ----------

  // Position k of a tile holds block y * 8 + x, the six low bits of k dealt out alternately.
  function Morton8(k: nat): nat {
    var x := k % 2 + 2 * (k / 4 % 2) + 4 * (k / 16 % 2);
    var y := k / 2 % 2 + 2 * (k / 8 % 2) + 4 * (k / 32 % 2);
    y * 8 + x
  }

  // The position of block m = y * 8 + x.
  function Unmorton8(m: nat): nat {
    m % 2 + 2 * (m / 8 % 2) + 4 * (m / 2 % 2) + 8 * (m / 16 % 2) + 16 * (m / 4 % 2) + 32 * (m / 32 % 2)
  }

  predicate IsBit(b: nat) {
    b < 2
  }

  function Six(b0: nat, b1: nat, b2: nat, b3: nat, b4: nat, b5: nat): nat {
    b0 + 2 * b1 + 4 * b2 + 8 * b3 + 16 * b4 + 32 * b5
  }

  lemma SixBits(b0: nat, b1: nat, b2: nat, b3: nat, b4: nat, b5: nat)
    requires IsBit(b0) && IsBit(b1) && IsBit(b2) && IsBit(b3) && IsBit(b4) && IsBit(b5)
    ensures var v := Six(b0, b1, b2, b3, b4, b5);
            && v % 2 == b0 && v / 2 % 2 == b1 && v / 4 % 2 == b2 && v / 8 % 2 == b3 && v / 16 % 2 == b4 && v / 32 % 2 == b5
  {
    var v := Six(b0, b1, b2, b3, b4, b5);
    assert v / 2 == b1 + 2 * b2 + 4 * b3 + 8 * b4 + 16 * b5;
    assert v / 4 == b2 + 2 * b3 + 4 * b4 + 8 * b5;
    assert v / 8 == b3 + 2 * b4 + 4 * b5;
    assert v / 16 == b4 + 2 * b5;
    assert v / 32 == b5;
  }

  lemma SplitSix(k: nat) returns (b0: nat, b1: nat, b2: nat, b3: nat, b4: nat, b5: nat)
    requires k < 64
    ensures IsBit(b0) && IsBit(b1) && IsBit(b2) && IsBit(b3) && IsBit(b4) && IsBit(b5)
    ensures k == Six(b0, b1, b2, b3, b4, b5)
  {
    var h1 := k / 2;
    var h2 := h1 / 2;
    var h3 := h2 / 2;
    var h4 := h3 / 2;
    b0, b1, b2, b3, b4, b5 := k % 2, h1 % 2, h2 % 2, h3 % 2, h4 % 2, h4 / 2;
  }

  lemma MortonInverse(k: nat)
    requires k < 64
    ensures Morton8(k) < 64 && Unmorton8(Morton8(k)) == k
    ensures Unmorton8(k) < 64 && Morton8(Unmorton8(k)) == k
  {
    var b0, b1, b2, b3, b4, b5 := SplitSix(k);
    SixBits(b0, b1, b2, b3, b4, b5);
    SixBits(b0, b2, b4, b1, b3, b5);
    SixBits(b0, b3, b1, b4, b2, b5);
    assert Morton8(k) == Six(b0, b2, b4, b1, b3, b5);
    assert Unmorton8(k) == Six(b0, b3, b1, b4, b2, b5);
  }

  // ---------- Swizzling one mip ----------

  // Tile t of a grid w tiles wide.
  function TileX(t: nat, w: nat): (x: nat)
    requires w >= 1
    ensures x < w
  {
    t % w
  }

  function TileY(t: nat, w: nat): (y: nat)
    requires w >= 1
    ensures t == y * w + TileX(t, w)
  {
    TileSplit(t, w);
    t / w
  }

  lemma TileSplit(t: nat, w: nat)
    requires w >= 1
    ensures t / w >= 0 && t == t / w * w + t % w
  {
    NonzeroMultiple(w, t / w);
  }

  lemma TileIs(w: nat, x: nat, y: nat)
    requires x < w
    ensures TileX(y * w + x, w) == x && TileY(y * w + x, w) == y
  {
    DivModUnique(y * w + x, w, y, x);
  }

  // The block that a slot of the tiled layout holds.
  function SlotX(m: Mip, slot: nat): nat
    requires m.Valid()
  {
    TileX(slot / 64, m.TilesX()) * 8 + Morton8(slot % 64) % 8
  }

  function SlotY(m: Mip, slot: nat): nat
    requires m.Valid()
  {
    TileY(slot / 64, m.TilesX()) * 8 + Morton8(slot % 64) / 8
  }

  function Slots(m: Mip): nat
    requires m.Valid()
  {
    m.TilesX() * m.TilesY() * 64
  }

  predicate InMip(m: Mip, x: nat, y: nat)
    requires m.Valid()
  {
    x < m.BlocksX() && y < m.BlocksY()
  }

  // Where block (x, y) starts in the linear layout.
  function LinearAt(m: Mip, x: nat, y: nat): nat
    requires m.Valid()
  {
    (y * m.BlocksX() + x) * m.bytes
  }

  // The slot that holds block (x, y).
  function SlotOf(m: Mip, x: nat, y: nat): nat
    requires m.Valid()
  {
    TileStart(m, x / 8, y / 8) + Unmorton8(y % 8 * 8 + x % 8)
  }

  // The first slot of a tile.
  function TileStart(m: Mip, tileX: nat, tileY: nat): nat
    requires m.Valid()
  {
    (tileY * m.TilesX() + tileX) * 64
  }

  lemma LinearBound(m: Mip, x: nat, y: nat)
    requires m.Valid() && InMip(m, x, y)
    ensures LinearAt(m, x, y) + m.bytes <= m.Linear()
  {
    var w, h := m.BlocksX(), m.BlocksY();
    MulMonotone(y + 1, w, h, w);
    assert (y + 1) * w == y * w + w;
    MulMonotone(y * w + x + 1, m.bytes, w * h, m.bytes);
    assert (y * w + x + 1) * m.bytes == (y * w + x) * m.bytes + m.bytes;
  }

  lemma TileSlots(m: Mip, tileX: nat, tileY: nat, k: nat)
    requires m.Valid() && tileX < m.TilesX() && tileY < m.TilesY() && k < 64
    ensures TileStart(m, tileX, tileY) + k < Slots(m)
    ensures SlotX(m, TileStart(m, tileX, tileY) + k) == tileX * 8 + Morton8(k) % 8
    ensures SlotY(m, TileStart(m, tileX, tileY) + k) == tileY * 8 + Morton8(k) / 8
  {
    hide TileX, TileY, Morton8;
    var tile := tileY * m.TilesX() + tileX;
    TileIs(m.TilesX(), tileX, tileY);
    TileInGrid(m.TilesX(), m.TilesY(), tileX, tileY);
    assert (tile * 64 + k) / 64 == tile && (tile * 64 + k) % 64 == k;
  }

  lemma TileInGrid(w: nat, h: nat, x: nat, y: nat)
    requires x < w && y < h
    ensures y * w + x + 1 <= w * h
  {
    MulMonotone(y + 1, w, h, w);
    MulStep(y, w);
  }

  // Block and slot lead to each other.
  lemma SlotRoundTrip(m: Mip, x: nat, y: nat)
    requires m.Valid() && InMip(m, x, y)
    ensures SlotOf(m, x, y) < Slots(m)
    ensures SlotX(m, SlotOf(m, x, y)) == x && SlotY(m, SlotOf(m, x, y)) == y
  {
    hide Morton8, Unmorton8, TileStart, SlotX, SlotY, Slots;
    var k := y % 8 * 8 + x % 8;
    MortonInverse(k);
    TileSlots(m, x / 8, y / 8, Unmorton8(k));
  }

  lemma SlotBack(m: Mip, slot: nat)
    requires m.Valid() && slot < Slots(m)
    ensures SlotOf(m, SlotX(m, slot), SlotY(m, slot)) == slot
  {
    hide Morton8, Unmorton8, TileX, TileY;
    var tw, tile, k := m.TilesX(), slot / 64, Morton8(slot % 64);
    MortonInverse(slot % 64);
    var x, y := SlotX(m, slot), SlotY(m, slot);
    assert x / 8 == TileX(tile, tw) && x % 8 == k % 8 && y / 8 == TileY(tile, tw) && y % 8 == k / 8;
  }

  function Zeros(n: nat): (s: seq<Byte>)
    ensures |s| == n
  {
    seq(n, _ => 0)
  }

  // The bytes of one slot: its block's, or zero padding.
  function SlotBytes(m: Mip, source: seq<Byte>, slot: nat): (s: seq<Byte>)
    requires m.Valid() && m.Linear() <= |source|
    ensures |s| == m.bytes
  {
    var x, y := SlotX(m, slot), SlotY(m, slot);
    if InMip(m, x, y) then
      LinearBound(m, x, y);
      source[LinearAt(m, x, y)..LinearAt(m, x, y) + m.bytes]
    else Zeros(m.bytes)
  }

  // The first n slots.
  function TiledSlots(m: Mip, source: seq<Byte>, n: nat): (s: seq<Byte>)
    requires m.Valid() && m.Linear() <= |source|
    ensures |s| == n * m.bytes
    decreases n, |source|
  {
    if n == 0 then [] else
      MulStep(n - 1, m.bytes);
      TiledSlots(m, source, n - 1) + SlotBytes(m, source, n - 1)
  }

  lemma MulStep(n: nat, k: nat)
    ensures (n + 1) * k == n * k + k
  {
  }

  // The tiled form of the mip whose linear form the source starts with.
  function Swizzled(m: Mip, source: seq<Byte>): (s: seq<Byte>)
    requires m.Valid() && m.Linear() <= |source|
    ensures |s| == m.Tiled()
  {
    TiledSlots(m, source, Slots(m))
  }

  // Reading the mip's blocks back out of the tiled form, row by row.
  function LinearBlocks(m: Mip, tiled: seq<Byte>, n: nat): (s: seq<Byte>)
    requires m.Valid() && |tiled| == m.Tiled() && n <= m.BlocksX() * m.BlocksY()
    ensures |s| == n * m.bytes
    decreases n, |tiled|
  {
    if n == 0 then [] else
      MulStep(n - 1, m.bytes);
      LinearBlocks(m, tiled, n - 1) + BlockOf(m, tiled, n - 1)
  }

  // Where the n-th block in row order starts in the tiled form.
  function BlockAt(m: Mip, n: nat): (at: nat)
    requires m.Valid() && n < m.BlocksX() * m.BlocksY()
    ensures at + m.bytes <= m.Tiled()
  {
    BlockSlot(m, n);
    SlotOf(m, TileX(n, m.BlocksX()), TileY(n, m.BlocksX())) * m.bytes
  }

  lemma BlockSlot(m: Mip, n: nat)
    requires m.Valid() && n < m.BlocksX() * m.BlocksY()
    ensures var slot := SlotOf(m, TileX(n, m.BlocksX()), TileY(n, m.BlocksX()));
            slot < Slots(m) && slot * m.bytes + m.bytes <= m.Tiled()
  {
    hide SlotOf, Slots, TileX, TileY;
    var x, y := TileX(n, m.BlocksX()), TileY(n, m.BlocksX());
    BlockInMip(m, n);
    SlotRoundTrip(m, x, y);
    SlotBound(m, SlotOf(m, x, y));
  }

  function BlockOf(m: Mip, tiled: seq<Byte>, n: nat): (s: seq<Byte>)
    requires m.Valid() && |tiled| == m.Tiled() && n < m.BlocksX() * m.BlocksY()
    ensures |s| == m.bytes
  {
    tiled[BlockAt(m, n)..BlockAt(m, n) + m.bytes]
  }

  lemma BlockInMip(m: Mip, n: nat)
    requires m.Valid() && n < m.BlocksX() * m.BlocksY()
    ensures InMip(m, TileX(n, m.BlocksX()), TileY(n, m.BlocksX()))
  {
    var w, h := m.BlocksX(), m.BlocksY();
    var y := TileY(n, w);
    if y >= h {
      MulMonotone(h, w, y, w);
    }
  }

  lemma SlotBound(m: Mip, slot: nat)
    requires m.Valid() && slot < Slots(m)
    ensures slot * m.bytes + m.bytes <= m.Tiled()
  {
    MulMonotone(slot + 1, m.bytes, Slots(m), m.bytes);
    MulStep(slot, m.bytes);
  }

  function Unswizzled(m: Mip, tiled: seq<Byte>): seq<Byte>
    requires m.Valid() && |tiled| == m.Tiled()
  {
    LinearBlocks(m, tiled, m.BlocksX() * m.BlocksY())
  }

  // Each slot of the tiled form holds its own bytes; in particular a slot of no block is all zero.
  lemma {:induction false} SlotStands(m: Mip, source: seq<Byte>, n: nat, slot: nat)
    requires m.Valid() && m.Linear() <= |source| && slot < n
    ensures slot * m.bytes + m.bytes <= n * m.bytes
    ensures TiledSlots(m, source, n)[slot * m.bytes..slot * m.bytes + m.bytes] == SlotBytes(m, source, slot)
    decreases n
  {
    hide SlotBytes;
    MulStep(n - 1, m.bytes);
    MulStep(slot, m.bytes);
    var init, last := TiledSlots(m, source, n - 1), SlotBytes(m, source, n - 1);
    if slot == n - 1 {
      assert (init + last)[|init|..|init| + m.bytes] == last;
    } else {
      SlotStands(m, source, n - 1, slot);
      assert (init + last)[slot * m.bytes..slot * m.bytes + m.bytes] == init[slot * m.bytes..slot * m.bytes + m.bytes];
    }
  }

  lemma PaddingIsZero(m: Mip, source: seq<Byte>, slot: nat)
    requires m.Valid() && m.Linear() <= |source| && slot < Slots(m)
    requires !InMip(m, SlotX(m, slot), SlotY(m, slot))
    ensures slot * m.bytes + m.bytes <= m.Tiled()
    ensures Swizzled(m, source)[slot * m.bytes..slot * m.bytes + m.bytes] == Zeros(m.bytes)
  {
    SlotBound(m, slot);
    SlotStands(m, source, Slots(m), slot);
  }

  lemma BlockBack(m: Mip, source: seq<Byte>, n: nat)
    requires m.Valid() && m.Linear() <= |source| && n < m.BlocksX() * m.BlocksY()
    ensures n * m.bytes + m.bytes <= m.Linear()
    ensures BlockOf(m, Swizzled(m, source), n) == source[n * m.bytes..n * m.bytes + m.bytes]
  {
    hide SlotX, SlotY, SlotOf, TiledSlots;
    var x, y := TileX(n, m.BlocksX()), TileY(n, m.BlocksX());
    BlockInMip(m, n);
    LinearBound(m, x, y);
    SlotRoundTrip(m, x, y);
    SlotStands(m, source, Slots(m), SlotOf(m, x, y));
  }

  lemma {:induction false} BlocksBack(m: Mip, source: seq<Byte>, n: nat)
    requires m.Valid() && m.Linear() <= |source| && n <= m.BlocksX() * m.BlocksY()
    ensures n * m.bytes <= m.Linear()
    ensures LinearBlocks(m, Swizzled(m, source), n) == source[..n * m.bytes]
  {
    hide BlockOf, Swizzled;
    MulMonotone(n, m.bytes, m.BlocksX() * m.BlocksY(), m.bytes);
    if n > 0 {
      MulStep(n - 1, m.bytes);
      BlocksBack(m, source, n - 1);
      BlockBack(m, source, n - 1);
      assert source[..n * m.bytes] ==
             source[..(n - 1) * m.bytes] + source[(n - 1) * m.bytes..(n - 1) * m.bytes + m.bytes];
    }
  }

  // Unswizzling recovers the linear form of every mip.
  lemma Unswizzles(m: Mip, source: seq<Byte>)
    requires m.Valid() && m.Linear() <= |source|
    ensures Unswizzled(m, Swizzled(m, source)) == source[..m.Linear()]
  {
    BlocksBack(m, source, m.BlocksX() * m.BlocksY());
  }

  lemma TileSteps(m: Mip, tileX: nat, tileY: nat)
    requires m.Valid()
    ensures TileStart(m, 0, 0) == 0 && TileStart(m, 0, m.TilesY()) == Slots(m)
    ensures TileStart(m, tileX + 1, tileY) == TileStart(m, tileX, tileY) + 64
    ensures TileStart(m, m.TilesX(), tileY) == TileStart(m, 0, tileY + 1)
  {
    MulStep(tileY, m.TilesX());
  }

  // One mip, block by block in tile order, into a zeroed buffer; refused when a size overflows or the
  // source is short.
  method SwizzleMip(source: seq<Byte>, m: Mip) returns (ok: bool, output: seq<Byte>)
    requires m.Valid()
    ensures ok <==> m.Linear() <= SIZE_MAX && m.Tiled() <= SIZE_MAX && m.Linear() <= |source|
    ensures ok ==> output == Swizzled(m, source)
  {
    hide Filled, TileStart, Slots, TiledSlots;
    LinearPositive(m);
    if Guarded(m.Linear()) == 0 || Guarded(m.Tiled()) == 0 || |source| < m.Linear() {
      return false, [];
    }
    var buffer := new Byte[m.Tiled()](_ => 0);
    NothingFilled(m, source, buffer);
    TileSteps(m, 0, 0);
    var destination := 0;
    var tileY := 0;
    while tileY < m.TilesY()
      invariant 0 <= tileY <= m.TilesY()
      invariant Filled(m, source, buffer, TileStart(m, 0, tileY), destination)
    {
      destination := FillRow(m, source, buffer, tileY, destination);
      tileY := tileY + 1;
    }
    AllFilled(m, source, buffer, destination);
    return true, buffer[..];
  }

  // The first n slots are written, up to `destination`, and the rest is still zero.
  ghost predicate Filled(m: Mip, source: seq<Byte>, buffer: array<Byte>, n: nat, destination: nat)
    requires m.Valid() && m.Linear() <= |source|
    reads buffer
  {
    && buffer.Length == m.Tiled() && destination == n * m.bytes && destination <= buffer.Length
    && buffer[..destination] == TiledSlots(m, source, n)
    && forall i :: destination <= i < buffer.Length ==> buffer[i] == 0
  }

  lemma NothingFilled(m: Mip, source: seq<Byte>, buffer: array<Byte>)
    requires m.Valid() && m.Linear() <= |source| && buffer.Length == m.Tiled()
    requires forall i :: 0 <= i < buffer.Length ==> buffer[i] == 0
    ensures Filled(m, source, buffer, 0, 0)
  {
  }

  lemma AllFilled(m: Mip, source: seq<Byte>, buffer: array<Byte>, destination: nat)
    requires m.Valid() && m.Linear() <= |source|
    requires Filled(m, source, buffer, Slots(m), destination)
    ensures buffer[..] == Swizzled(m, source)
  {
    hide TiledSlots;
    assert destination == m.Tiled();
  }

  lemma LinearPositive(m: Mip)
    requires m.Valid()
    ensures 1 <= m.Linear() <= m.Tiled()
  {
    TilingNeverShrinks(m);
    MulMonotone(1, 1, m.BlocksX(), m.BlocksY());
    MulMonotone(1, 1, m.BlocksX() * m.BlocksY(), m.bytes);
  }

  method FillRow(m: Mip, source: seq<Byte>, buffer: array<Byte>, tileY: nat, destination: nat) returns (next: nat)
    requires m.Valid() && m.Linear() <= |source| && tileY < m.TilesY()
    requires Filled(m, source, buffer, TileStart(m, 0, tileY), destination)
    modifies buffer
    ensures Filled(m, source, buffer, TileStart(m, 0, tileY + 1), next)
  {
    hide Filled, TileStart;
    next := destination;
    var tileX := 0;
    while tileX < m.TilesX()
      invariant 0 <= tileX <= m.TilesX()
      invariant Filled(m, source, buffer, TileStart(m, tileX, tileY), next)
    {
      next := FillTile(m, source, buffer, tileY, tileX, next);
      TileSteps(m, tileX, tileY);
      tileX := tileX + 1;
    }
    TileSteps(m, 0, tileY);
  }

  method FillTile(m: Mip, source: seq<Byte>, buffer: array<Byte>, tileY: nat, tileX: nat, destination: nat)
    returns (next: nat)
    requires m.Valid() && m.Linear() <= |source| && tileY < m.TilesY() && tileX < m.TilesX()
    requires Filled(m, source, buffer, TileStart(m, tileX, tileY), destination)
    modifies buffer
    ensures Filled(m, source, buffer, TileStart(m, tileX, tileY) + 64, next)
  {
    hide Filled, TileStart, Morton8, SlotX, SlotY, Slots;
    next := destination;
    var k := 0;
    while k < 64
      invariant 0 <= k <= 64 && Filled(m, source, buffer, TileStart(m, tileX, tileY) + k, next)
    {
      var morton := Morton8(k);
      TileSlots(m, tileX, tileY, k);
      next := FillSlot(m, source, buffer, TileStart(m, tileX, tileY) + k, next,
                       tileX * 8 + morton % 8, tileY * 8 + morton / 8);
      k := k + 1;
    }
  }

  method FillSlot(m: Mip, source: seq<Byte>, buffer: array<Byte>, ghost slot: nat, destination: nat, x: nat, y: nat)
    returns (next: nat)
    requires m.Valid() && m.Linear() <= |source| && slot < Slots(m)
    requires x == SlotX(m, slot) && y == SlotY(m, slot)
    requires Filled(m, source, buffer, slot, destination)
    modifies buffer
    ensures Filled(m, source, buffer, slot + 1, next)
  {
    hide SlotX, SlotY;
    SlotBound(m, slot);
    MulStep(slot, m.bytes);
    next := destination + m.bytes;
    ghost var before := buffer[..];
    ghost var bytes := SlotBytes(m, source, slot);
    if x < m.BlocksX() && y < m.BlocksY() {
      LinearBound(m, x, y);
      var offset := (y * m.BlocksX() + x) * m.bytes;
      CopyInto(buffer, destination, source[offset..offset + m.bytes]);
    }
    assert buffer[destination..next] == bytes;
    assert buffer[..next] == buffer[..destination] + buffer[destination..next];
    assert buffer[..destination] == before[..destination];
  }

  method CopyInto(buffer: array<Byte>, at: nat, bytes: seq<Byte>)
    requires at + |bytes| <= buffer.Length
    modifies buffer
    ensures buffer[..] == old(buffer[..at]) + bytes + old(buffer[at + |bytes|..])
  {
    forall i | 0 <= i < |bytes| {
      buffer[at + i] := bytes[i];
    }
  }
}
