// Archives of one texture, byte by byte, and what they convert to.
module RpakSingle {
  import opened Options
  import opened Bits
  import opened RpakBytes
  import opened RpakTextures
  import opened RpakMips
  import opened RpakPages
  import opened RpakImage
  import opened RpakLayout
  import opened RpakRelocate
  import opened RpakSpecs
  import opened RpakConvert
  import opened RpakMoves
  import opened RpakKept
  import opened RpakTidy
  import opened RpakAgain
  import opened RpakTwins
  import RpakBlocks
  import RpakConverter
  import RpakGate
  import RpakResult
  import RpakSizes
  import RpakStreams

  // ---------- A header's bytes ----------

  // Two bytes, low byte first.
  predicate Pair(s: seq<Byte>, at: nat, v: nat) {
    at + 2 <= |s| && v == s[at] as nat + 256 * s[at + 1] as nat
  }

  // A texture header in the PC layout, and what its bytes have to be for it to be converted.
  predicate Header(page: seq<Byte>, h: nat, width: nat, height: nat, format: nat, permanent: nat, streamed: nat) {
    && h + 56 <= |page| && Pair(page, h + 16, width) && Pair(page, h + 18, height) && Pair(page, h + 22, format)
    && page[h + 28] == 0 && page[h + 30] <= 1 && page[h + 33] as nat == permanent && page[h + 34] as nat == streamed
    && width >= 1 && height >= 1 && format < 62 && permanent >= 1 && permanent + streamed <= 13
  }

  lemma HeaderReads(page: seq<Byte>, h: nat, width: nat, height: nat, format: nat, permanent: nat, streamed: nat)
    requires Header(page, h, width, height, format, permanent, streamed)
    ensures HeadAt(page, h) == Head(Texture(width, height, format, 1), 0, permanent, streamed)
    ensures HeadAt(page, h).Supported()
  {
    hide Le;
    Word2(page, h + 16);
    Word2(page, h + 18);
    Word2(page, h + 22);
  }

  // ---------- Any archive ----------

  // Asset i of an archive is such a texture.
  ghost predicate TextureAt(rpak: seq<Byte>, i: nat, width: nat, height: nat, format: nat, permanent: nat, streamed: nat) {
    && Opens(rpak) && i < LayoutOf(rpak).assets
    && var a := AssetAt(rpak, LayoutOf(rpak).Asset(i));
       && a.kind == TEXTURE_TYPE && a.headPage < LayoutOf(rpak).pages && a.cpuPage < LayoutOf(rpak).pages
       && Header(Opened(rpak).pages[a.headPage], a.headOffset, width, height, format, permanent, streamed)
  }

  // Whatever it was examined to be, nothing else is written where its data goes.
  ghost predicate DataFree(rpak: seq<Byte>, i: nat) {
    forall c :: RpakResult.Converts(rpak, i, c) ==> RpakResult.DataFree(rpak, c)
  }

  // ---------- One page, one texture ----------

  // One page, one texture in it with its data behind the header, and nothing else.
  ghost predicate Lone(im: Image, c: Conversion) {
    && WellFormed(im)
    && var l := LayoutOf(im.tables);
       && l.pages == 1 && l.pointers == 0 && l.uses == 0 && l.assets == 1
       && ExaminedAsset(AssetOf(im, 0), im.pages) == Convert(c)
       && c.headOffset + HEAD_SIZE <= c.cpuOffset && |im.pages[0]| + |c.data| < WORD32 + c.oldSize
  }

  ghost predicate LonePlan(im: Image, plans: seq<Plan>, c: Conversion) {
    && |im.pages| == |plans| == 1 && plans[0] == Plan(|im.pages[0]|, [PatchOf(c)])
    && c.headPage == c.cpuPage == 0
    && 1 <= c.oldSize <= |c.data| && c.cpuOffset + c.oldSize <= |im.pages[0]|
    && c.headOffset + HEAD_SIZE <= c.cpuOffset && |im.pages[0]| + |c.data| < WORD32 + c.oldSize
  }

  lemma LoneFound(im: Image, c: Conversion)
    requires Lone(im, c)
    ensures Finds(im, [c]) && AllGrow([c])
  {
    hide LayoutOf, ExaminedAsset, AssetOf;
    ConversionsStart(im);
    ConversionsStep(im, 0);
    assert [] + [c] == [c];
    ConversionsGrow(im, 1);
  }

  lemma LonePatches(c: Conversion)
    requires c.cpuPage == 0
    ensures var ps := PatchesOf([c], 1, 0); ps == [PatchOf(c)] && Sorted(ps, 1) == ps
  {
    assert PatchesOf([c], 0, 0) == [];
    assert PatchesOf([c], 1, 0) == [PatchOf(c)];
    assert Sorted([PatchOf(c)], 0) == [];
    assert Insert([], PatchOf(c)) == [PatchOf(c)];
  }

  lemma LonePlanned(im: Image, c: Conversion)
    requires Lone(im, c)
    ensures LonePlan(im, Plans(im, [c]), c)
  {
    hide LayoutOf, ExaminedAsset, PageSize, PatchesOf, Sorted, Plans;
    ConvertedParts(AssetOf(im, 0), im.pages);
    LonePatches(c);
    OnlyPlan(im, [c]);
  }

  lemma LoneMaps(im: Image, plans: seq<Plan>, c: Conversion)
    requires LonePlan(im, plans, c)
    ensures MapTarget(plans, 0, c.headOffset).Some? && MapTarget(plans, 0, c.cpuOffset) == Some(c.cpuOffset)
  {
    var ps, size := plans[0].patches, plans[0].size;
    assert ps[0] == PatchOf(c);
    MapDefined(ps, size, c.headOffset);
    MapDefined(ps, size, c.cpuOffset);
    NoDelta(ps, 0, c.cpuOffset);
    hide Delta;
  }

  lemma LoneFacts(im: Image, plans: seq<Plan>, c: Conversion)
    requires LonePlan(im, plans, c)
    ensures Planned(im, plans) && AllValid(plans) && Sized(plans)
    ensures Whole(im, plans, HeadPlace(c), HEAD_SIZE)
  {
    var ps, size := plans[0].patches, plans[0].size;
    assert ps[0] == PatchOf(c);
    assert Delta(ps, 1, size) == 0;
    assert Delta(ps, 0, size) == |c.data| - c.oldSize;
    hide Delta;
  }

  lemma LoneHead(im: Image, plans: seq<Plan>, c: Conversion)
    requires Planned(im, plans) && AllValid(plans) && Whole(im, plans, HeadPlace(c), HEAD_SIZE)
    ensures HeadsMove(im, plans, [c])
  {
    hide Laid, Whole, MovesInto, Planned, AllValid;
    WholeMoves(im, plans, HeadPlace(c), HEAD_SIZE);
  }

  lemma LoneOffsets(im: Image, c: Conversion)
    requires Lone(im, c)
    ensures WellFormed(im) && HEADER <= |im.tables| && LayoutOf(im.tables).assets == 1
    ensures var a := AssetOf(im, 0);
            a.headPage == a.cpuPage == 0 && a.headOffset == c.headOffset && a.cpuOffset == c.cpuOffset
  {
    hide ExaminedAsset, LayoutOf, PageSize;
    ConvertedParts(AssetOf(im, 0), im.pages);
  }

  lemma LoneRef(im: Image, plans: seq<Plan>, k: nat)
    requires WellFormed(im) && Planned(im, plans) && FieldsMove(im, plans) && k < 2
    requires var l := LayoutOf(im.tables); l.pointers == 0 && l.uses == 0 && l.assets == 1
    ensures RefCount(LayoutOf(im.tables)) == 2 && RefAt(im, plans, k) == AssetRef(LayoutOf(im.tables), 0, k == 1)
  {
    hide LayoutOf;
  }

  lemma LoneReference(im: Image, laid: Image, plans: seq<Plan>, c: Conversion, cpu: bool)
    requires Lone(im, c) && laid.tables == im.tables
    requires MapTarget(plans, 0, c.headOffset).Some? && MapTarget(plans, 0, c.cpuOffset).Some?
    ensures var r := AssetRef(LayoutOf(im.tables), 0, cpu); r.Fits(laid) && r.Movable(laid, plans)
  {
    hide Lone, MapTarget, LayoutOf, AssetOf, WellFormed, AssetRef, Reference.Fits, Reference.Page, Reference.Offset;
    hide Reference.Movable, PageSize;
    LoneOffsets(im, c);
    AssetReads(im, laid, 0, cpu);
    LeadsSomewhere(laid, plans, AssetRef(LayoutOf(im.tables), 0, cpu));
  }

  lemma LoneMoves(im: Image, plans: seq<Plan>, c: Conversion)
    requires Lone(im, c) && LonePlan(im, plans, c)
    ensures Planned(im, plans) && FieldsMove(im, plans) && Moving(im, plans).Some?
  {
    var l := LayoutOf(im.tables);
    LoneFacts(im, plans, c);
    LoneMaps(im, plans, c);
    hide MapTarget, RefAt, Laid, ExaminedAsset, Reference.Movable, AllMoved, Alone, AssetRef, LonePlan;
    var refs := Refs(im, plans);
    RefsFit(im, plans);
    forall k | 0 <= k < |refs| ensures Alone(refs, k) && refs[k].Movable(Laid(im, plans), plans) {
      LoneRef(im, plans, k);
      LoneReference(im, Laid(im, plans), plans, c, k == 1);
      TableRefAlone(im, plans, k);
    }
    AllMovable(Laid(im, plans), plans, refs, |refs|);
  }

  // The converter accepts them, and the data stands where it stood.
  lemma LoneAccepted(im: Image, c: Conversion)
    requires Lone(im, c)
    ensures Finds(im, [c]) && AllGrow([c]) && Relaid(im, [c]).Some?
    ensures Uncut(im, Plans(im, [c]), [c]) && MovedPlace(Plans(im, [c]), InPage(0, c.cpuOffset)) == Some(InPage(0, c.cpuOffset))
    ensures c.cpuPage == c.headPage == 0
  {
    hide Whole, Plans, Moving, HeadsMove, FieldsMove, Sized, Planned, AllGrow, Finished, MapTarget, ExaminedAsset;
    LoneFound(im, c);
    LonePlanned(im, c);
    var plans := Plans(im, [c]);
    LoneFacts(im, plans, c);
    LoneMaps(im, plans, c);
    LoneHead(im, plans, c);
    LoneMoves(im, plans, c);
  }

  // So the new data stands in the output's page where the old data stood.
  lemma LoneData(im: Image, c: Conversion, out: Image)
    requires Lone(im, c) && Relaid(im, [c]) == Some(out)
    ensures Yields(im, [c], out) && Fits(out, InPage(0, c.cpuOffset), |c.data|)
    ensures Bytes(out, InPage(0, c.cpuOffset), |c.data|) == c.data
  {
    hide Relaid, Plans, Uncut, MovedPlace, DataApart, LayoutOf, ExaminedAsset;
    LoneAccepted(im, c);
    UncutApart(im, [c], out, 0);
    DataKept(im, [c], out, 0);
  }

  // ---------- The bytes of such an archive ----------

  // Byte k of the tables: the stamp, one page of n bytes, one texture with its header at 0 and its data at 56.
  function SingleByte(k: nat, n: nat): Byte {
    if k == 0 then 82 else if k == 1 then 80 else if k == 2 then 97 else if k == 3 then 107
    else if k == 4 then 7 else if k == 0x3c then 1 else if k == 0x44 then 1
    else if k == 96 then n % 256 else if k == 97 then n / 256 % 256
    else if k == 98 then n / 65536 % 256 else if k == 99 then n / 0x100_0000 % 256
    else if 100 <= k < 172 then DescriptorByte(k - 100, 0, 56)
    else 0
  }

  function SingleTables(n: nat): (t: seq<Byte>)
    ensures |t| == 172
  {
    seq(172, k requires 0 <= k < 172 => SingleByte(k, n))
  }

  function HeaderByte(k: nat, width: nat, height: nat, format: Byte, permanent: Byte): Byte {
    if k == 16 then width % 256 else if k == 17 then width / 256 % 256
    else if k == 18 then height % 256 else if k == 19 then height / 256 % 256
    else if k == 22 then format else if k == 33 then permanent else 0
  }

  function SingleHeader(width: nat, height: nat, format: Byte, permanent: Byte): (t: seq<Byte>)
    ensures |t| == 56
  {
    seq(56, k requires 0 <= k < 56 => HeaderByte(k, width, height, format, permanent))
  }

  function SingleImage(width: nat, height: nat, format: Byte, permanent: Byte, pixels: seq<Byte>): Image {
    Image(SingleTables(56 + |pixels|), [SingleHeader(width, height, format, permanent) + pixels])
  }

  lemma SingleWord(n: nat, at: nat)
    requires at + 4 <= 172
    ensures U32(SingleTables(n), at) ==
            SingleByte(at, n) as nat + 256 * SingleByte(at + 1, n) as nat + 65536 * SingleByte(at + 2, n) as nat +
            0x100_0000 * SingleByte(at + 3, n) as nat
  {
    hide Le, SingleByte;
    Word4(SingleTables(n), at);
  }

  lemma SinglePair(n: nat, at: nat)
    requires at + 2 <= 172
    ensures U16(SingleTables(n), at) == SingleByte(at, n) as nat + 256 * SingleByte(at + 1, n) as nat
  {
    hide Le, SingleByte;
    Word2(SingleTables(n), at);
  }

  lemma SingleLayout(n: nat)
    ensures LayoutOf(SingleTables(n)) == Layout(0, 0, 1, 0, 1, 0, 0)
  {
    hide U16, U32, SingleTables;
    SinglePair(n, 0x38);
    SinglePair(n, 0x3a);
    SinglePair(n, 0x3c);
    SingleWord(n, 0x40);
    SingleWord(n, 0x44);
    SingleWord(n, 0x48);
    SingleWord(n, 0x4c);
  }

  lemma Digits4(n: nat)
    requires n < WORD32
    ensures n % 256 + 256 * (n / 256 % 256) + 65536 * (n / 65536 % 256) + 0x100_0000 * (n / 0x100_0000 % 256) == n
  {
    var a, b := n / 256, n / 65536;
    assert a / 256 == b && b / 256 == n / 0x100_0000;
  }

  lemma SingleWellFormed(width: nat, height: nat, format: Byte, permanent: Byte, pixels: seq<Byte>)
    requires 56 + |pixels| < WORD32
    ensures WellFormed(SingleImage(width, height, format, permanent, pixels))
  {
    hide U16, U32, SingleTables;
    var n := 56 + |pixels|;
    SingleLayout(n);
    hide LayoutOf;
    SingleWord(n, 96);
    Digits4(n);
  }

  lemma SingleAsset(n: nat)
    ensures var a := AssetAt(SingleTables(n), 100);
            && a.kind == TEXTURE_TYPE && a.headPage == a.cpuPage == 0 && a.headSize == 56
            && a.headOffset == 0 && a.cpuOffset == 56
  {
    hide Le, SingleTables, U32, U64;
    SingleWord(n, 116);
    SingleWord(n, 120);
    SingleWord(n, 124);
    SingleWord(n, 128);
    SingleWord(n, 160);
    SingleWord(n, 168);
  }

  lemma SingleHeaded(width: nat, height: nat, format: Byte, permanent: Byte, pixels: seq<Byte>)
    requires 1 <= width < 65536 && 1 <= height < 65536 && format < 62 && 1 <= permanent <= 13
    ensures Header(SingleHeader(width, height, format, permanent) + pixels, 0, width, height, format, permanent, 0)
  {
    var page := SingleHeader(width, height, format, permanent) + pixels;
    assert forall k :: 0 <= k < 56 ==> page[k] == HeaderByte(k, width, height, format, permanent);
  }

  lemma SingleStamped(width: nat, height: nat, format: Byte, permanent: Byte, pixels: seq<Byte>)
    ensures var im := SingleImage(width, height, format, permanent, pixels);
            && |im.tables| >= HEADER && Cleared(im) == im && RpakGate.Stamped(File(im), {0, 1})
  {
    hide Le, Flat, SingleHeader;
    var im, n := SingleImage(width, height, format, permanent, pixels), 56 + |pixels|;
    var t := SingleTables(n);
    assert t[6..8] == [0, 0];
    ClearingFlagless(im);
    SinglePair(n, 4);
    SinglePair(n, 6);
    SinglePair(n, 0x3e);
    assert t[..4] == [82, 80, 97, 107];
    assert File(im)[..|t|] == t == t[..|t|];
    assert RpakGate.Stamped(t, {0, 1});
    RpakGate.SameStamp(t, File(im), {0, 1});
  }

  // ---------- What a header's bytes make of its texture ----------

  // The texture is converted, as its header's bytes say.
  lemma HeaderExamined(a: Asset, pages: seq<seq<Byte>>, width: nat, height: nat, format: nat, permanent: nat, streamed: nat)
    requires a.kind == TEXTURE_TYPE && a.headPage < |pages| && a.cpuPage < |pages|
    requires Header(pages[a.headPage], a.headOffset, width, height, format, permanent, streamed)
    requires !ExaminedAsset(a, pages).Refuse?
    ensures ExaminedAsset(a, pages).Convert? && format < FORMATS
    ensures var c, t := ExaminedAsset(a, pages).conversion, Texture(width, height, format, 1);
            && c.head == Head(t, 0, permanent, streamed) && c.cpuPage == a.cpuPage && c.cpuOffset == a.cpuOffset
            && c.newTotal == t.TiledSize(0, streamed + permanent) && c.oldSize == t.SourceSize(streamed, streamed + permanent)
            && c.cpuOffset <= |pages[c.cpuPage]| && c.oldSize <= |pages[c.cpuPage]| - c.cpuOffset
            && c.data == Converted(t, pages[c.cpuPage][c.cpuOffset..], streamed, streamed + permanent)
  {
    hide Header, HeadAt, Converted, Texture.SourceSize, Texture.TiledSize, HEAD_SIZE, FORMATS;
    HeaderReads(pages[a.headPage], a.headOffset, width, height, format, permanent, streamed);
  }

  lemma SupportedConverts(a: Asset, pages: seq<seq<Byte>>, h: Head)
    requires a.kind == TEXTURE_TYPE && HeadInside(a, pages) && HeadAt(pages[a.headPage], a.headOffset) == h
    requires h.platform == 0 && h.Supported() && a.cpuOffset <= |pages[a.cpuPage]|
    requires h.texture.SourceSize(h.streamed, h.Last()) <= |pages[a.cpuPage]| - a.cpuOffset
    ensures ExaminedAsset(a, pages).Convert?
  {
    hide HeadAt, Converted, Texture.SourceSize, Texture.TiledSize;
  }

  // It is not refused when its header is inside and its data is all there.
  lemma HeaderAccepted(a: Asset, pages: seq<seq<Byte>>, width: nat, height: nat, format: nat, permanent: nat, streamed: nat)
    requires a.kind == TEXTURE_TYPE && HeadInside(a, pages)
    requires Header(pages[a.headPage], a.headOffset, width, height, format, permanent, streamed)
    requires a.cpuOffset <= |pages[a.cpuPage]|
    requires RpakBlocks.StoredSize(width, height, format, streamed, streamed + permanent) <= |pages[a.cpuPage]| - a.cpuOffset
    ensures !ExaminedAsset(a, pages).Refuse?
  {
    hide Header, HeadAt, Texture.SourceSize, RpakBlocks.StoredSize, RpakBlocks.TiledSize, Texture.TiledSize, ExaminedAsset;
    HeaderReads(pages[a.headPage], a.headOffset, width, height, format, permanent, streamed);
    RpakBlocks.SizesAre(width, height, format, streamed, streamed + permanent);
    SupportedConverts(a, pages, HeadAt(pages[a.headPage], a.headOffset));
  }

  // Block (x, y) of a mip, in the new data and in the old.
  ghost predicate BlockStands(data: seq<Byte>, source: seq<Byte>, width: nat, height: nat, format: nat, first: nat, last: nat,
                              mip: nat, x: nat, y: nat)
    requires format < 62 && first <= mip < last
  {
    var g := RpakBlocks.GridOf(width, height, format, mip);
    var at := RpakBlocks.TiledSize(width, height, format, first, mip) + g.Placed(x, y);
    var from := RpakBlocks.StoredSize(width, height, format, mip + 1, last) + g.Linear(x, y);
    at + g.bytes <= |data| && from + g.bytes <= |source| && data[at..at + g.bytes] == source[from..from + g.bytes]
  }

  // Every block of every mip stands in its place.
  ghost predicate AllBlocksStand(data: seq<Byte>, source: seq<Byte>, width: nat, height: nat, format: nat, first: nat, last: nat)
    requires format < 62 && first <= last
  {
    forall mip, x, y :: first <= mip < last && 0 <= x < RpakBlocks.GridOf(width, height, format, mip).columns
                        && 0 <= y < RpakBlocks.GridOf(width, height, format, mip).rows ==>
      BlockStands(data, source, width, height, format, first, last, mip, x, y)
  }

  lemma ConvertedBlocks(width: nat, height: nat, format: nat, source: seq<Byte>, first: nat, last: nat)
    requires format < 62 && first <= last && RpakBlocks.StoredSize(width, height, format, first, last) <= |source|
    ensures format < FORMATS && Texture(width, height, format, 1).SourceSize(first, last) <= |source|
    ensures AllBlocksStand(Converted(Texture(width, height, format, 1), source, first, last), source, width, height, format, first, last)
  {
    RpakBlocks.FormatTable(format);
    RpakBlocks.SizesAre(width, height, format, first, last);
    hide Converted, RpakBlocks.StoredSize, RpakBlocks.TiledSize, Texture.SourceSize, RpakBlocks.GridOf;
    hide RpakBlocks.FORMAT_BYTES, RpakBlocks.FORMAT_SIDES;
    var data := Converted(Texture(width, height, format, 1), source, first, last);
    forall mip, x, y | first <= mip < last && 0 <= x < RpakBlocks.GridOf(width, height, format, mip).columns
                       && 0 <= y < RpakBlocks.GridOf(width, height, format, mip).rows
      ensures BlockStands(data, source, width, height, format, first, last, mip, x, y)
    {
      RpakBlocks.BlockPlaced(width, height, format, source, first, mip, last, x, y);
    }
  }

  // ---------- The archive of one texture, converted ----------

  // What is found in it.
  lemma SingleFound(width: nat, height: nat, format: Byte, permanent: Byte, pixels: seq<Byte>) returns (c: Conversion)
    requires 1 <= width < 65536 && 1 <= height < 65536 && format < 62 && 1 <= permanent <= 13
    requires RpakBlocks.StoredSize(width, height, format, 0, permanent) <= |pixels| && 56 + |pixels| < WORD32
    requires |pixels| + RpakBlocks.TiledSize(width, height, format, 0, permanent) <
             WORD32 - 56 + RpakBlocks.StoredSize(width, height, format, 0, permanent)
    ensures Lone(SingleImage(width, height, format, permanent, pixels), c)
    ensures c.cpuOffset == 56 && c.headOffset == 0 && c.head.streamed == 0
    ensures c.newTotal == |c.data| == RpakBlocks.TiledSize(width, height, format, 0, permanent)
    ensures c.oldSize == RpakBlocks.StoredSize(width, height, format, 0, permanent)
    ensures c.head.texture == Texture(width, height, format, 1)
    ensures AllBlocksStand(c.data, pixels, width, height, format, 0, permanent)
  {
    hide SingleTables, SingleHeader, Header, Converted, LayoutOf, ExaminedAsset, AssetAt, AllBlocksStand;
    hide RpakBlocks.StoredSize, RpakBlocks.TiledSize, Texture.SourceSize, Texture.TiledSize;
    var n := 56 + |pixels|;
    var im := SingleImage(width, height, format, permanent, pixels);
    var page := im.pages[0];
    SingleWellFormed(width, height, format, permanent, pixels);
    SingleLayout(n);
    SingleAsset(n);
    SingleHeaded(width, height, format, permanent, pixels);
    assert page[56..] == pixels;
    var a := AssetOf(im, 0);
    HeaderAccepted(a, im.pages, width, height, format, permanent, 0);
    HeaderExamined(a, im.pages, width, height, format, permanent, 0);
    c := ExaminedAsset(a, im.pages).conversion;
    ConvertedParts(a, im.pages);
    RpakBlocks.SizesAre(width, height, format, 0, permanent);
    ConvertedBlocks(width, height, format, pixels, 0, permanent);
  }

  // A texture without streamed mips asks nothing of the STARPaks.
  lemma NoRequest(starpaks: seq<seq<Byte>>, c: Conversion)
    requires RpakStreams.Formatted([c]) && c.head.streamed == 0
    ensures RpakStreams.Restreamed(starpaks, [c]) == Some(starpaks)
  {
    assert RpakStreams.Requested(starpaks, [c], 0) == Some([]);
    assert RpakStreams.Requested(starpaks, [c], 1) == Some([]);
    RpakStreams.RequestedIndexed(starpaks, [c], 1);
    assert RpakStreams.AllRewritten(starpaks, [], 0) == Some(starpaks);
  }

  lemma LoneOutcome(im: Image, c: Conversion, starpaks: seq<seq<Byte>>)
    requires WellFormed(im) && Cleared(im) == im && Finds(im, [c]) && Relaid(im, [c]).Some?
    requires Opens(File(im)) && Opened(File(im)) == im && RpakGate.Stamped(File(im), {0, 1})
    requires RpakStreams.Formatted([c]) && RpakStreams.Restreamed(starpaks, [c]) == Some(starpaks)
    ensures RpakConverter.ConvertedFiles(File(im), starpaks) == RpakConverter.Files(File(Relaid(im, [c]).value), starpaks)
  {
    hide Relaid, LayoutOf, File, Opened, Cleared, Conversions, RpakStreams.Restreamed, PageSize, RpakGate.Stamped;
    assert [c] != [];
  }

  // One page, right behind the tables.
  lemma OnePageFile(im: Image)
    requires |im.pages| == 1
    ensures File(im) == im.tables + im.pages[0]
  {
    assert Flat(im.pages, 0) == [];
    assert Flat(im.pages, 1) == [] + im.pages[0];
  }

  // What the output's page holds: the header's new total, platform and flag, and the converted data.
  ghost predicate SingleOutput(page: seq<Byte>, pixels: seq<Byte>, width: nat, height: nat, format: nat, permanent: nat)
    requires format < 62
  {
    var tiled := RpakBlocks.TiledSize(width, height, format, 0, permanent);
    && |page| == 56 + |pixels| + tiled - RpakBlocks.StoredSize(width, height, format, 0, permanent) >= 56 + tiled
    && U32(page, 24) == tiled && page[28] == 8 && page[32] % 2 == 1
    && AllBlocksStand(page[56..56 + tiled], pixels, width, height, format, 0, permanent)
  }

  lemma LoneMarked(im: Image, c: Conversion, out: Image)
    requires Lone(im, c) && Yields(im, [c], out) && c.headOffset == 0 && c.newTotal < WORD32
    ensures |out.pages| == 1 && |out.pages[0]| == |im.pages[0]| + |c.data| - c.oldSize >= 56
    ensures U32(out.pages[0], 24) == c.newTotal && out.pages[0][28] == 8 && out.pages[0][32] % 2 == 1
  {
    LonePlanned(im, c);
    var plans := Plans(im, [c]);
    LoneFacts(im, plans, c);
    LoneMapped(im, plans, c);
    hide Yields, Plans, MovedPlace, Lone, Le, Whole;
    HeadKept(im, [c], out, 0);
    LoneSize(im, c, out);
    hide HeadReads;
    MarkedBytes(out, c.newTotal);
  }

  lemma LoneMapped(im: Image, plans: seq<Plan>, c: Conversion)
    requires LonePlan(im, plans, c) && c.headOffset == 0
    ensures MovedPlace(plans, HeadPlace(c)) == Some(InPage(0, 0))
  {
    var ps, size := plans[0].patches, plans[0].size;
    assert ps[0] == PatchOf(c);
    MapDefined(ps, size, 0);
    NoDelta(ps, 0, 0);
    hide Delta;
  }

  lemma MarkedBytes(out: Image, total: nat)
    requires |out.pages| >= 1 && HeadReads(out, InPage(0, 0), total) && total < WORD32
    ensures |out.pages[0]| >= 56 && U32(out.pages[0], 24) == total && out.pages[0][28] == 8 && out.pages[0][32] % 2 == 1
  {
    OneByte(out, InPage(0, 28));
    OneByte(out, InPage(0, 32));
  }

  lemma LoneSize(im: Image, c: Conversion, out: Image)
    requires Lone(im, c) && Yields(im, [c], out)
    ensures |im.pages| == |out.pages| == 1 && |out.pages[0]| == |im.pages[0]| + |c.data| - c.oldSize
  {
    LonePlanned(im, c);
    var plans := Plans(im, [c]);
    LoneGrowth(im, plans, c);
    RpakSizes.PageSizeKept(im, [c], out, 0);
    RpakSizes.StaysWellFormed(im, [c], out);
    hide *;
  }

  lemma LoneGrowth(im: Image, plans: seq<Plan>, c: Conversion)
    requires LonePlan(im, plans, c)
    ensures plans[0].NewSize() == |im.pages[0]| + |c.data| - c.oldSize
  {
    var ps, size := plans[0].patches, plans[0].size;
    assert ps[0] == PatchOf(c);
    assert Delta(ps, 1, size) == 0;
  }

  // For every width, height, format and number of mips that fit, and any pixels: the archive converts to one with the
  // same tables' length, and every block of every mip, largest mip first, stands in its place among the tiles.
  lemma SingleArchive(width: nat, height: nat, format: Byte, permanent: Byte, pixels: seq<Byte>, starpaks: seq<seq<Byte>>)
    returns (file: seq<Byte>)
    requires 1 <= width < 65536 && 1 <= height < 65536 && format < 62 && 1 <= permanent <= 13
    requires RpakBlocks.StoredSize(width, height, format, 0, permanent) <= |pixels| && 56 + |pixels| < WORD32
    requires |pixels| + RpakBlocks.TiledSize(width, height, format, 0, permanent) <
             WORD32 - 56 + RpakBlocks.StoredSize(width, height, format, 0, permanent)
    ensures RpakConverter.ConvertedFiles(SingleTables(56 + |pixels|) + (SingleHeader(width, height, format, permanent) + pixels), starpaks)
            == RpakConverter.Files(file, starpaks)
    ensures |file| >= 172 && SingleOutput(file[172..], pixels, width, height, format, permanent)
  {
    hide SingleTables, SingleHeader, Relaid, LayoutOf, File, Opened, Cleared, Lone, RpakGate.Stamped, RpakStreams.Restreamed;
    hide AllBlocksStand, RpakBlocks.StoredSize, RpakBlocks.TiledSize, Yields, PageSize, RpakConverter.ConvertedFiles;
    var im := SingleImage(width, height, format, permanent, pixels);
    SingleWellFormed(width, height, format, permanent, pixels);
    SingleStamped(width, height, format, permanent, pixels);
    var c := SingleFound(width, height, format, permanent, pixels);
    LoneAccepted(im, c);
    OpenedFile(im);
    OnePageFile(im);
    LoneFormatted(c);
    NoRequest(starpaks, c);
    LoneOutcome(im, c, starpaks);
    var out := Relaid(im, [c]).value;
    file := File(out);
    LoneData(im, c, out);
    LoneMarked(im, c, out);
    RpakSizes.LayoutKept(im, [c], out);
    OnePageFile(out);
    assert file[172..] == out.pages[0];
  }

  lemma LoneFormatted(c: Conversion)
    requires c.head.texture.width < 65536 && c.head.texture.height < 65536 && c.head.texture.format < 62
    ensures RpakStreams.Formatted([c])
  {
  }

  // ---------- Every archive, file to file ----------

  lemma BlocksOnward(data: seq<Byte>, longer: seq<Byte>, source: seq<Byte>, width: nat, height: nat, format: nat, first: nat,
                     last: nat)
    requires format < 62 && first <= last && data <= longer
    requires AllBlocksStand(data, source, width, height, format, first, last)
    ensures AllBlocksStand(longer, source, width, height, format, first, last)
  {
    hide RpakBlocks.GridOf, RpakBlocks.TiledSize, RpakBlocks.StoredSize;
    forall mip, x, y | first <= mip < last && 0 <= x < RpakBlocks.GridOf(width, height, format, mip).columns
                       && 0 <= y < RpakBlocks.GridOf(width, height, format, mip).rows
      ensures BlockStands(longer, source, width, height, format, first, last, mip, x, y)
    {
      assert BlockStands(data, source, width, height, format, first, last, mip, x, y);
      BlockOnward(data, longer, source, width, height, format, first, last, mip, x, y);
    }
  }

  lemma BlockOnward(data: seq<Byte>, longer: seq<Byte>, source: seq<Byte>, width: nat, height: nat, format: nat, first: nat,
                    last: nat, mip: nat, x: nat, y: nat)
    requires format < 62 && first <= mip < last && data <= longer
    requires BlockStands(data, source, width, height, format, first, last, mip, x, y)
    ensures BlockStands(longer, source, width, height, format, first, last, mip, x, y)
  {
    hide RpakBlocks.GridOf, RpakBlocks.TiledSize, RpakBlocks.StoredSize, RpakBlocks.Grid.Placed, RpakBlocks.Grid.Linear;
    var g := RpakBlocks.GridOf(width, height, format, mip);
    var at := RpakBlocks.TiledSize(width, height, format, first, mip) + g.Placed(x, y);
    assert longer[at..at + g.bytes] == longer[..|data|][at..at + g.bytes];
  }

  // Clearing the module flag leaves the assets' descriptors.
  lemma ClearedAsset(rpak: seq<Byte>, i: nat)
    requires Opens(rpak) && WellFormed(Opened(rpak)) && WellFormed(Cleared(Opened(rpak)))
    requires LayoutOf(Cleared(Opened(rpak)).tables) == LayoutOf(rpak) && i < LayoutOf(rpak).assets
    ensures AssetOf(Cleared(Opened(rpak)), i) == AssetAt(rpak, LayoutOf(rpak).Asset(i))
  {
    hide LayoutOf, PageSize, PageStart, FirstPages, Le, File;
    var im, l := Opened(rpak), LayoutOf(rpak);
    var at := l.Asset(i);
    assert im.tables[..l.End()] == rpak[..l.End()];
    SameAsset(im.tables, at);
    PrefixAsset(rpak, im.tables, at, l.End());
  }

  lemma SameAsset(t: seq<Byte>, at: nat)
    requires HEADER <= at && at + 72 <= |t|
    ensures AssetAt(Put(t, 6, 2, 0), at) == AssetAt(t, at)
  {
    hide Le, Put;
    LeElsewhere(t, 6, 2, 0, at + 68, 4);
    LeElsewhere(t, 6, 2, 0, at + 16, 4);
    LeElsewhere(t, 6, 2, 0, at + 20, 4);
    LeElsewhere(t, 6, 2, 0, at + 24, 4);
    LeElsewhere(t, 6, 2, 0, at + 28, 4);
    LeElsewhere(t, 6, 2, 0, at + 32, 8);
    LeElsewhere(t, 6, 2, 0, at + 60, 4);
  }

  lemma PrefixAsset(s: seq<Byte>, t: seq<Byte>, at: nat, k: nat)
    requires k <= |s| && k <= |t| && s[..k] == t[..k] && at + 72 <= k
    ensures AssetAt(t, at) == AssetAt(s, at)
  {
    hide Le;
    SamePrefix(s, t, at + 68, 4, k);
    SamePrefix(s, t, at + 16, 4, k);
    SamePrefix(s, t, at + 20, 4, k);
    SamePrefix(s, t, at + 24, 4, k);
    SamePrefix(s, t, at + 28, 4, k);
    SamePrefix(s, t, at + 32, 8, k);
    SamePrefix(s, t, at + 60, 4, k);
  }

  lemma ImageBlocks(im: Image, cs: seq<Conversion>, out: Image, i: nat, j: nat, width: nat, height: nat, format: nat,
                    permanent: nat, streamed: nat)
    requires Yields(im, cs, out) && i < LayoutOf(im.tables).assets && j < |cs| && DataApart(im, cs, cs[j])
    requires var a := AssetOf(im, i);
             && ExaminedAsset(a, im.pages) == Convert(cs[j])
             && a.kind == TEXTURE_TYPE && a.headPage < |im.pages| && a.cpuPage < |im.pages|
             && Header(im.pages[a.headPage], a.headOffset, width, height, format, permanent, streamed)
    ensures WellFormed(out) && LayoutOf(out.tables) == LayoutOf(im.tables)
    ensures var a, b := AssetOf(im, i), AssetOf(out, i);
            && b.cpuPage == a.cpuPage < |out.pages| && a.cpuOffset <= |im.pages[a.cpuPage]| && b.cpuOffset <= |out.pages[b.cpuPage]|
            && AllBlocksStand(out.pages[b.cpuPage][b.cpuOffset..], im.pages[a.cpuPage][a.cpuOffset..], width, height, format,
                              streamed, streamed + permanent)
  {
    hide LayoutOf, Relaid, PageSize, DataApart, ExaminedAsset, AssetAt, AllBlocksStand, AllGrow, Converted, Header, MovedPlace;
    hide Texture.SourceSize, Texture.TiledSize, RpakBlocks.StoredSize, Plans;
    var a, c := AssetOf(im, i), cs[j];
    HeaderExamined(a, im.pages, width, height, format, permanent, streamed);
    RpakResult.DataPointer(im, cs, out, i, c);
    DataKept(im, cs, out, j);
    RpakBlocks.SizesAre(width, height, format, streamed, streamed + permanent);
    ConvertedBlocks(width, height, format, im.pages[c.cpuPage][c.cpuOffset..], streamed, streamed + permanent);
    var b := AssetOf(out, i);
    SamePage(im, cs, out, i);
    PrefixOf(out, InPage(b.cpuPage, b.cpuOffset), |c.data|);
    BlocksOnward(c.data, out.pages[b.cpuPage][b.cpuOffset..], im.pages[c.cpuPage][c.cpuOffset..], width, height, format,
      streamed, streamed + permanent);
  }

  lemma SamePage(im: Image, cs: seq<Conversion>, out: Image, i: nat)
    requires Yields(im, cs, out) && i < LayoutOf(im.tables).assets
    ensures WellFormed(out) && LayoutOf(out.tables) == LayoutOf(im.tables) && AssetOf(out, i).cpuPage == AssetOf(im, i).cpuPage
  {
    hide Relaid, AllGrow, AssetAt, Plans, MapTarget;
    DescriptorKept(im, cs, out, i);
  }

  lemma HeaderConverted(a: Asset, pages: seq<seq<Byte>>, width: nat, height: nat, format: nat, permanent: nat, streamed: nat)
    requires a.kind == TEXTURE_TYPE && a.headPage < |pages| && a.cpuPage < |pages|
    requires Header(pages[a.headPage], a.headOffset, width, height, format, permanent, streamed)
    requires !ExaminedAsset(a, pages).Refuse?
    ensures ExaminedAsset(a, pages).Convert?
  {
    hide ExaminedAsset, Header;
    HeaderExamined(a, pages, width, height, format, permanent, streamed);
  }

  // For every archive that converts and every texture in it that its header's bytes say is to be converted: reading the
  // output where its own descriptor points, every block of every permanent mip stands in its place among the tiles.
  lemma FileBlocks(rpak: seq<Byte>, starpaks: seq<seq<Byte>>, file: seq<Byte>, streams: seq<seq<Byte>>, i: nat,
                   width: nat, height: nat, format: nat, permanent: nat, streamed: nat)
    requires RpakConverter.ConvertedFiles(rpak, starpaks) == RpakConverter.Files(file, streams)
    requires TextureAt(rpak, i, width, height, format, permanent, streamed) && DataFree(rpak, i)
    ensures Opens(file) && LayoutOf(file) == LayoutOf(rpak)
    ensures var a, b := AssetAt(rpak, LayoutOf(rpak).Asset(i)), AssetAt(file, LayoutOf(rpak).Asset(i));
            var before, after := Opened(rpak).pages, Opened(file).pages;
            && b.cpuPage == a.cpuPage < |after| && a.cpuOffset <= |before[a.cpuPage]| && b.cpuOffset <= |after[b.cpuPage]|
            && AllBlocksStand(after[b.cpuPage][b.cpuOffset..], before[a.cpuPage][a.cpuOffset..], width, height, format,
                              streamed, streamed + permanent)
  {
    hide LayoutOf, Opened, Relaid, File, PageSize, PageStart, Cleared, ConvertedImage, RpakConverter.ConvertedFiles, Header;
    hide RpakTidy.DataApart, ExaminedAsset, AssetAt, Conversions, AllBlocksStand, RpakGate.Stamped, Yields, Converted;
    var cs, out := RpakResult.OutcomeImage(rpak, starpaks, file, streams);
    RpakResult.OutputStamped(rpak, cs, out);
    OpenedFile(out);
    RpakGate.AssetInFile(out, i);
    RpakResult.ClearedPages(Opened(rpak));
    ClearedAsset(rpak, i);
    var was := Cleared(Opened(rpak));
    var j := EachExamined(was, LayoutOf(was.tables).assets, i);
    HeaderConverted(AssetOf(was, i), was.pages, width, height, format, permanent, streamed);
    assert RpakResult.Converts(rpak, i, ExaminedAsset(AssetOf(was, i), was.pages).conversion);
    ImageBlocks(was, cs, out, i, j, width, height, format, permanent, streamed);
  }

  lemma PrefixOf(im: Image, p: Place, n: nat)
    requires p.InPage? && Fits(im, p, n)
    ensures Bytes(im, p, n) <= im.pages[p.page][p.at..]
  {
  }

  // ---------- Streamed mips ----------

  // A requested block that no other one starts in begins with its own data.
  lemma {:induction false} StreamedData(starpaks: seq<seq<Byte>>, streams: seq<seq<Byte>>, cs: seq<Conversion>, j: nat)
    requires RpakStreams.Formatted(cs) && RpakStreams.Restreamed(starpaks, cs) == Some(streams)
    requires j < |cs| && cs[j].head.streamed > 0
    ensures RpakStreams.RequestOf(starpaks, cs[j]).Some? && RpakStreams.Requested(starpaks, cs, |cs|).Some?
    ensures |streams| == |starpaks|
    ensures var rs, r := RpakStreams.Requested(starpaks, cs, |cs|).value, RpakStreams.RequestOf(starpaks, cs[j]).value;
            r.index < |starpaks| &&
            (RpakStreams.BlockApart(starpaks, rs, r) ==> r.offset <= |streams[r.index]| && r.data <= streams[r.index][r.offset..])
  {
    hide RpakStreams.Requested, RpakStreams.AllRewritten, RpakStreams.BlockApart, RpakStreams.Separate, RpakStreams.Listed;
    hide RpakStreams.InOrder, RpakStreams.RequestOf, RpakStreams.Block;
    RpakStreams.RequestedIndexed(starpaks, cs, |cs|);
    RpakStreams.RequestedInOrder(starpaks, cs, |cs|);
    RpakStreams.EachRequested(starpaks, cs, |cs|, j);
    var rs, r := RpakStreams.Requested(starpaks, cs, |cs|).value, RpakStreams.RequestOf(starpaks, cs[j]).value;
    if RpakStreams.BlockApart(starpaks, rs, r) {
      var k :| 0 <= k < |rs| && rs[k] == r;
      var allocation := RpakStreams.AllListed(starpaks, rs, |rs|, k);
      RpakStreams.LaterSeparate(starpaks, rs, k, allocation);
      RpakStreams.ListedFits(starpaks, r, allocation);
      RpakStreams.BlockStands(starpaks, rs, |rs|, k, allocation);
      BlockFirst(streams[r.index], r, allocation);
    }
  }

  lemma BlockFirst(file: seq<Byte>, r: RpakStreams.Request, allocation: nat)
    requires |r.data| <= allocation && r.offset + allocation <= |file|
    requires file[r.offset..r.offset + allocation] == RpakStreams.Block(r, allocation)
    ensures r.data <= file[r.offset..]
  {
    RpakResult.BlockSlice(file, r, allocation, 0, |r.data|);
    assert file[r.offset..][..|r.data|] == file[r.offset..r.offset + |r.data|] == r.data;
  }

  // No other requested block starts inside the one texture i asks for.
  ghost predicate StreamFree(rpak: seq<Byte>, starpaks: seq<seq<Byte>>, i: nat) {
    forall c ::
      (RpakResult.Converts(rpak, i, c) && c.head.texture.format < FORMATS && RpakStreams.RequestOf(starpaks, c).Some?) ==>
        RpakResult.StreamFree(rpak, starpaks, c)
  }

  // The low twelve bits of a stream address name the STARPak, the rest of it the offset.
  ghost predicate StreamBlocksStand(starpaks: seq<seq<Byte>>, streams: seq<seq<Byte>>, address: nat, width: nat, height: nat,
                                    format: nat, streamed: nat)
    requires format < 62
  {
    var index, offset := address % 4096, address / 4096 * 4096;
    && index < |starpaks| == |streams| && offset <= |starpaks[index]| && offset <= |streams[index]|
    && AllBlocksStand(streams[index][offset..], starpaks[index][offset..], width, height, format, 0, streamed)
  }

  lemma FreeApart(rpak: seq<Byte>, starpaks: seq<seq<Byte>>, cs: seq<Conversion>, c: Conversion)
    requires Opens(rpak) && WellFormed(Cleared(Opened(rpak))) && Finds(Cleared(Opened(rpak)), cs)
    requires c.head.texture.format < FORMATS && RpakStreams.RequestOf(starpaks, c).Some?
    requires RpakResult.StreamFree(rpak, starpaks, c)
    requires RpakStreams.Formatted(cs) && RpakStreams.Requested(starpaks, cs, |cs|).Some?
    ensures RpakStreams.BlockApart(starpaks, RpakStreams.Requested(starpaks, cs, |cs|).value, RpakStreams.RequestOf(starpaks, c).value)
  {
  }

  lemma StreamBlocks(starpaks: seq<seq<Byte>>, streams: seq<seq<Byte>>, cs: seq<Conversion>, j: nat, width: nat, height: nat,
                     format: nat, streamed: nat)
    requires RpakStreams.Formatted(cs) && RpakStreams.Restreamed(starpaks, cs) == Some(streams) && j < |cs|
    requires format < 62 == FORMATS && cs[j].head.texture == Texture(width, height, format, 1) && cs[j].head.streamed == streamed > 0
    requires RpakStreams.RequestOf(starpaks, cs[j]).Some? && RpakStreams.Requested(starpaks, cs, |cs|).Some?
    requires RpakStreams.BlockApart(starpaks, RpakStreams.Requested(starpaks, cs, |cs|).value,
                                    RpakStreams.RequestOf(starpaks, cs[j]).value)
    ensures StreamBlocksStand(starpaks, streams, cs[j].stream, width, height, format, streamed)
  {
    hide AllBlocksStand, RpakStreams.Restreamed, RpakStreams.RequestOf, RpakStreams.Requested, RpakStreams.BlockApart;
    StreamedData(starpaks, streams, cs, j);
    RequestBlocks(starpaks, cs[j], width, height, format, streamed);
    var r := RpakStreams.RequestOf(starpaks, cs[j]).value;
    BlocksOnward(r.data, streams[r.index][r.offset..], starpaks[r.index][r.offset..], width, height, format, 0, streamed);
  }

  // Every block of every streamed mip stands in its place among the tiles of the output's STARPak, from the texture's
  // stream address on.
  lemma FileStreamBlocks(rpak: seq<Byte>, starpaks: seq<seq<Byte>>, file: seq<Byte>, streams: seq<seq<Byte>>, i: nat,
                         width: nat, height: nat, format: nat, permanent: nat, streamed: nat, address: nat)
    requires RpakConverter.ConvertedFiles(rpak, starpaks) == RpakConverter.Files(file, streams)
    requires TextureAt(rpak, i, width, height, format, permanent, streamed) && StreamFree(rpak, starpaks, i) && streamed > 0
    requires address == AssetAt(rpak, LayoutOf(rpak).Asset(i)).stream
    ensures format < 62 && StreamBlocksStand(starpaks, streams, address, width, height, format, streamed)
  {
    hide LayoutOf, Opened, Relaid, File, PageSize, PageStart, Cleared, ConvertedImage, RpakConverter.ConvertedFiles, Header;
    hide ExaminedAsset, AssetAt, Conversions, RpakGate.Stamped, Yields, StreamBlocksStand, RpakResult.StreamFree;
    hide RpakStreams.Restreamed;
    var cs, out := RpakResult.OutcomeImage(rpak, starpaks, file, streams);
    RpakResult.ClearedPages(Opened(rpak));
    ClearedAsset(rpak, i);
    var was := Cleared(Opened(rpak));
    var a := AssetOf(was, i);
    var j := EachExamined(was, LayoutOf(was.tables).assets, i);
    HeaderConverted(a, was.pages, width, height, format, permanent, streamed);
    HeaderStream(a, was.pages, width, height, format, permanent, streamed);
    assert RpakResult.Converts(rpak, i, cs[j]);
    RpakResult.OutcomeStreams(rpak, starpaks, file, streams, cs);
    StreamedData(starpaks, streams, cs, j);
    FreeApart(rpak, starpaks, cs, cs[j]);
    StreamBlocks(starpaks, streams, cs, j, width, height, format, streamed);
  }

  lemma HeaderStream(a: Asset, pages: seq<seq<Byte>>, width: nat, height: nat, format: nat, permanent: nat, streamed: nat)
    requires a.kind == TEXTURE_TYPE && a.headPage < |pages| && a.cpuPage < |pages|
    requires Header(pages[a.headPage], a.headOffset, width, height, format, permanent, streamed)
    requires ExaminedAsset(a, pages).Convert?
    ensures var c := ExaminedAsset(a, pages).conversion;
            c.stream == a.stream && c.head.texture == Texture(width, height, format, 1) && c.head.streamed == streamed
    ensures format < 62 == FORMATS
  {
    HeaderReads(pages[a.headPage], a.headOffset, width, height, format, permanent, streamed);
    hide Header, HeadAt, Converted, Texture.SourceSize, Texture.TiledSize;
  }

  lemma RequestBlocks(starpaks: seq<seq<Byte>>, c: Conversion, width: nat, height: nat, format: nat, streamed: nat)
    requires format < 62 == FORMATS && c.head.texture == Texture(width, height, format, 1) && c.head.streamed == streamed
    requires RpakStreams.RequestOf(starpaks, c).Some?
    ensures var r := RpakStreams.RequestOf(starpaks, c).value;
            && r.index == c.stream % 4096 < |starpaks| && r.offset == c.stream / 4096 * 4096 <= |starpaks[r.index]|
            && AllBlocksStand(r.data, starpaks[r.index][r.offset..], width, height, format, 0, streamed)
  {
    hide Converted, Texture.SourceSize, AllBlocksStand, RpakBlocks.StoredSize;
    var r := RpakStreams.RequestOf(starpaks, c).value;
    RpakBlocks.SizesAre(width, height, format, 0, streamed);
    ConvertedBlocks(width, height, format, starpaks[r.index][r.offset..], 0, streamed);
  }
}
