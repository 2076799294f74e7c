// Which textures of an archive are converted, and what replaces their data.
module RpakSpecs {
  import opened Bits
  import opened RpakBytes
  import opened RpakTextures
  import opened RpakMips
  import opened RpakImage
  import opened RpakLayout

  // The asset type 'txtr', as a little-endian word.
  const TEXTURE_TYPE: nat := 0x7274_7874
  const HEAD_SIZE: nat := 56
  const PS4_PLATFORM: nat := 8

  // What a texture header says.
  datatype Head = Head(texture: Texture, platform: Byte, permanent: nat, streamed: nat) {
    predicate Supported() {
      && texture.width > 0 && texture.height > 0 && permanent > 0 && permanent + streamed <= 13
      && texture.arrays == 1 && texture.format < FORMATS
    }

    function Last(): nat {
      streamed + permanent
    }
  }

  function HeadAt(page: seq<Byte>, at: nat): (h: Head)
    requires at + HEAD_SIZE <= |page|
    ensures h.texture.width < 65536 && h.texture.height < 65536
  {
    Wide(page, at + 16);
    Wide(page, at + 18);
    Head(Texture(U16(page, at + 16), U16(page, at + 18), U16(page, at + 22), AtLeastOne(page[at + 30] as nat)),
         page[at + 28], page[at + 33] as nat, page[at + 34] as nat)
  }

  lemma Wide(s: seq<Byte>, at: nat)
    requires at + 2 <= |s|
    ensures U16(s, at) < 65536
  {
    LeBound(s, at, 2);
    assert Limit(2) == 65536;
  }

  // A texture to convert: its header, where its data is, how much of it there is and what replaces it.
  datatype Conversion = Conversion(headPage: nat, headOffset: nat, cpuPage: nat, cpuOffset: nat, head: Head,
                                   stream: nat, oldSize: nat, newTotal: nat, data: seq<Byte>)

  datatype Examined = Keep | Refuse | Convert(conversion: Conversion)

  // One asset's descriptor.
  datatype Asset = Asset(kind: nat, headPage: nat, headOffset: nat, cpuPage: nat, cpuOffset: nat, stream: nat, headSize: nat)

  function AssetAt(t: seq<Byte>, at: nat): Asset
    requires at + 72 <= |t|
  {
    Asset(U32(t, at + 68), U32(t, at + 16), U32(t, at + 20), U32(t, at + 24), U32(t, at + 28), U64(t, at + 32), U32(t, at + 60))
  }

  predicate HeadInside(a: Asset, pages: seq<seq<Byte>>) {
    && a.headPage < |pages| && a.cpuPage < |pages| && HEAD_SIZE <= a.headSize
    && a.headOffset + a.headSize <= |pages[a.headPage]|
  }

  // The permanent mips of a supported texture, from position `at` of a page.
  function ConvertedFrom(a: Asset, h: Head, page: seq<Byte>): Examined
    requires h.Supported()
  {
    if a.cpuOffset > |page| || h.texture.SourceSize(h.streamed, h.Last()) > |page| - a.cpuOffset then Refuse else
    Convert(Conversion(a.headPage, a.headOffset, a.cpuPage, a.cpuOffset, h, a.stream,
                       h.texture.SourceSize(h.streamed, h.Last()), h.texture.TiledSize(0, h.Last()),
                       Converted(h.texture, page[a.cpuOffset..], h.streamed, h.Last())))
  }

  function ExaminedAsset(a: Asset, pages: seq<seq<Byte>>): Examined {
    if a.kind != TEXTURE_TYPE then Keep
    else if !HeadInside(a, pages) then Refuse
    else
      var h := HeadAt(pages[a.headPage], a.headOffset);
      if h.platform == PS4_PLATFORM then Keep
      else if h.platform != 0 || !h.Supported() then Refuse
      else ConvertedFrom(a, h, pages[a.cpuPage])
  }

  function AssetOf(im: Image, i: nat): Asset
    requires WellFormed(im) && i < LayoutOf(im.tables).assets
  {
    AssetAt(im.tables, LayoutOf(im.tables).Asset(i))
  }

  datatype Collected = Bad | Good(conversions: seq<Conversion>)

  function Collect(before: Collected, e: Examined): Collected {
    match (before, e)
    case (Good(_), Keep) => before
    case (Good(cs), Convert(c)) => Good(cs + [c])
    case _ => Bad
  }

  // The conversions among the first n assets.
  function Conversions(im: Image, n: nat): Collected
    requires WellFormed(im) && n <= LayoutOf(im.tables).assets
    decreases n, |im.tables|
  {
    if n == 0 then Good([]) else
      Collect(Conversions(im, n - 1), ExaminedAsset(AssetOf(im, n - 1), im.pages))
  }

  // A replacement is never empty and never smaller than what it replaces.
  lemma ConversionGrows(a: Asset, h: Head, page: seq<Byte>)
    requires h.Supported() && ConvertedFrom(a, h, page).Convert?
    ensures var c := ConvertedFrom(a, h, page).conversion;
            1 <= c.oldSize <= |c.data| && c.cpuOffset + c.oldSize <= |page|
  {
    var t, first, last := h.texture, h.streamed, h.Last();
    ConvertingNeverShrinks(t, first, last);
    LinearPositive(t.Level(first));
    GroupStep(t, first, last);
    assert t.MipSource(first) == t.Aligned(first);
  }

  // Thirteen mips never overflow the size sum.
  lemma {:induction false} TiledFits(t: Texture, mip: nat, last: nat)
    requires t.Valid() && t.arrays == 1 && mip <= last
    ensures t.TiledSize(mip, last) <= (last - mip) * TILED_MAX
    decreases last - mip
  {
    hide Texture.Level;
    if mip < last {
      TiledFits(t, mip + 1, last);
      LevelBounded(t, mip);
      assert t.MipTiled(mip) == t.Level(mip).Tiled();
    }
  }

  // ---------- The code ----------

  // The sum of the tiled sizes, guarded against overflow.
  method TotalSize(t: Texture, mips: nat) returns (ok: bool, total: nat)
    requires t.Valid() && t.arrays == 1 && mips <= 13
    ensures ok && total == t.TiledSize(0, mips)
  {
    hide Texture.Level;
    total := 0;
    for mip := 0 to mips
      invariant total + t.TiledSize(mip, mips) == t.TiledSize(0, mips)
    {
      TiledFits(t, 0, mips);
      LevelBounded(t, mip);
      assert t.MipTiled(mip) == t.Level(mip).Tiled();
      var tiled := Guarded(t.Level(mip).Tiled());
      if tiled == 0 || tiled > SIZE_MAX - total {
        // The source's overflow error, never reached.
        assert false;
      }
      total := total + tiled;
    }
    ok := true;
  }

  method ExamineHead(a: Asset, h: Head, page: seq<Byte>) returns (r: Examined)
    requires h.texture.width < 65536 && h.texture.height < 65536
    ensures r == if h.platform == PS4_PLATFORM then Keep
                 else if h.platform != 0 || !h.Supported() then Refuse
                 else ConvertedFrom(a, h, page)
  {
    hide Converted, Texture.SourceSize, Texture.TiledSize;
    if h.platform == 8 {
      return Keep;
    }
    if h.platform != 0 {
      return Refuse;
    }
    var t := h.texture;
    if t.width == 0 || t.height == 0 || h.permanent == 0 || h.permanent + h.streamed > 13 || t.arrays != 1 {
      return Refuse;
    }
    if t.format >= FORMATS {
      return Refuse;
    }
    var ok, newTotal := TotalSize(t, h.permanent + h.streamed);
    if a.cpuOffset > |page| {
      return Refuse;
    }
    var permanent, oldSize;
    ok, permanent, oldSize := ConvertMipGroup(page[a.cpuOffset..], t, h.streamed, h.permanent);
    if !ok {
      return Refuse;
    }
    r := Convert(Conversion(a.headPage, a.headOffset, a.cpuPage, a.cpuOffset, h, a.stream, oldSize, newTotal, permanent));
  }

  method ExamineAsset(a: Asset, pages: seq<seq<Byte>>) returns (r: Examined)
    ensures r == ExaminedAsset(a, pages)
  {
    hide ConvertedFrom;
    if a.kind != TEXTURE_TYPE {
      return Keep;
    }
    if a.headPage >= |pages| || a.cpuPage >= |pages| || a.headSize < 56 || a.headOffset > |pages[a.headPage]|
       || a.headSize > |pages[a.headPage]| - a.headOffset {
      return Refuse;
    }
    r := ExamineHead(a, HeadAt(pages[a.headPage], a.headOffset), pages[a.cpuPage]);
  }

  method CollectConversions(im: Image) returns (r: Collected)
    requires WellFormed(im)
    ensures r == Conversions(im, LayoutOf(im.tables).assets)
  {
    var l := LayoutOf(im.tables);
    hide ExaminedAsset, AssetOf, LayoutOf, Conversions, WellFormed;
    ConversionsStart(im);
    r := Good([]);
    for i := 0 to l.assets
      invariant r == Conversions(im, i) && r.Good?
    {
      var examined := ExamineAsset(AssetOf(im, i), im.pages);
      ConversionsStep(im, i);
      r := Collect(r, examined);
      if r.Bad? {
        BadStays(im, i + 1, l.assets);
        return;
      }
    }
  }

  lemma ConversionsStart(im: Image)
    requires WellFormed(im)
    ensures Conversions(im, 0) == Good([])
  {
  }

  lemma ConversionsStep(im: Image, i: nat)
    requires WellFormed(im) && i < LayoutOf(im.tables).assets
    ensures Conversions(im, i + 1) == Collect(Conversions(im, i), ExaminedAsset(AssetOf(im, i), im.pages))
  {
    hide LayoutOf, AssetOf, ExaminedAsset;
  }

  lemma {:induction false} BadStays(im: Image, n: nat, m: nat)
    requires WellFormed(im) && n <= m <= LayoutOf(im.tables).assets && Conversions(im, n).Bad?
    ensures Conversions(im, m).Bad?
    decreases m
  {
    hide LayoutOf, AssetOf, ExaminedAsset;
    if n < m {
      BadStays(im, n, m - 1);
    }
  }
}
