// Archives whose texture headers overlap: the converter accepts them, and converting once more changes them again.
module RpakTwins {
  import opened Options
  import opened Bits
  import opened RpakBytes
  import opened RpakTextures
  import opened RpakMips
  import opened RpakPages
  import opened RpakImage
  import opened RpakLayout
  import opened RpakRelocate
  import opened RpakSpecs
  import opened RpakConvert
  import opened RpakMoves
  import opened RpakKept
  import opened RpakTidy
  import opened RpakAgain
  import opened RpakLast
  import opened RpakSettled
  import RpakConverter
  import RpakGate
  import RpakResult
  import RpakStreams

  // ---------- A header four bytes behind another ----------

  lemma WholeMip(t: Texture, mip: nat)
    requires t.format < FORMATS && t.arrays == 1
    ensures t.MipTiled(mip) % 64 == 0
  {
    hide Mip.TilesX, Mip.TilesY;
    var m := t.Level(mip);
    var blocks := m.TilesX() * m.TilesY() * m.bytes;
    Mul64(m.TilesX() * m.TilesY(), m.bytes);
    assert m.Tiled() == 64 * blocks;
  }

  lemma {:induction false} WholeTiles(t: Texture, mip: nat, last: nat)
    requires t.format < FORMATS && t.arrays == 1 && mip <= last
    ensures t.TiledSize(mip, last) % 64 == 0
    decreases last - mip
  {
    hide Texture.MipTiled, Texture.Level;
    if mip < last {
      WholeTiles(t, mip + 1, last);
      WholeMip(t, mip);
    }
  }

  // A converted texture's total size is a whole number of tiles, so its low byte is not the PS4 platform.
  lemma TotalInTiles(a: Asset, pages: seq<seq<Byte>>)
    requires ExaminedAsset(a, pages).Convert?
    ensures ExaminedAsset(a, pages).conversion.newTotal % 64 == 0
  {
    hide Converted, Texture.TiledSize, Texture.SourceSize;
    var h := HeadAt(pages[a.headPage], a.headOffset);
    WholeTiles(h.texture, 0, h.Last());
  }

  lemma LowDigit(total: nat)
    requires total % 64 == 0
    ensures LeBytes(total, 4)[0] as nat != PS4_PLATFORM
  {
    assert total % 256 % 64 == 0;
    assert LeBytes(total, 4)[0] == total % 256;
  }

  // Header k lies four bytes behind header j, no replaced range cuts them, and no later mark falls on j's platform.
  ghost predicate Shadowed(im: Image, cs: seq<Conversion>, j: nat, k: nat) {
    && j < k < |cs| && HeadPlace(cs[k]) == HeadPlace(cs[j]).Plus(4)
    && Whole(im, Plans(im, cs), HeadPlace(cs[j]), HEAD_SIZE + 4)
    && forall l :: k < l < |cs| ==>
         && Whole(im, Plans(im, cs), HeadPlace(cs[l]), HEAD_SIZE)
         && ClearOfMarks(HeadPlace(cs[l]), HeadPlace(cs[j]).Plus(28), 1)
  }

  // The second header's size starts where the first one's platform is, in the new pages too.
  lemma ShadowPlace(im: Image, cs: seq<Conversion>, plans: seq<Plan>, j: nat, k: nat)
    requires Planned(im, plans) && AllValid(plans) && HeadsMove(im, plans, cs) && j < |cs| && k < |cs|
    requires HeadPlace(cs[k]) == HeadPlace(cs[j]).Plus(4) && Whole(im, plans, HeadPlace(cs[j]), HEAD_SIZE + 4)
    ensures var g, q := HeadPlaces(im, plans, cs)[k], HeadPlaces(im, plans, cs)[j].Plus(28);
            && !ClearOfMarks(g, q, 1) && q != g.Plus(28)
            && forall total :: Puts8(g.Plus(24), 4, total, q) <==> LeBytes(total, 4)[0] as nat == PS4_PLATFORM
  {
    hide Laid, Whole, LeBytes;
    var ps := HeadPlaces(im, plans, cs);
    PlusMoves(im, plans, HeadPlace(cs[j]), HEAD_SIZE + 4, 4);
    assert ps[k] == ps[j].Plus(4);
    PlusPlus(ps[j], 4, 24);
    OwnSize(ps[k], ps[j].Plus(28));
  }

  lemma PlaceOf(im: Image, cs: seq<Conversion>, plans: seq<Plan>, j: nat)
    requires Planned(im, plans) && HeadsMove(im, plans, cs) && j < |cs|
    ensures MovesInto(Laid(im, plans), plans, HeadPlace(cs[j]), HEAD_SIZE)
    ensures MovedPlace(plans, HeadPlace(cs[j])) == Some(HeadPlaces(im, plans, cs)[j])
  {
    hide Laid, MovedPlace;
    assert MovedPlace(plans, HeadPlace(cs[j])) == Some(HeadPlaces(im, plans, cs)[j]);
  }

  // The low byte of the second header's size is the last write on the first one's platform.
  lemma ShadowedLast(im: Image, cs: seq<Conversion>, j: nat, k: nat)
    requires Relays(im, cs) && AllValid(Plans(im, cs)) && Shadowed(im, cs, j, k) && cs[k].newTotal % 64 == 0
    ensures MovesInto(Laid(im, Plans(im, cs)), Plans(im, cs), HeadPlace(cs[j]), HEAD_SIZE)
    ensures !LastLeaves8(im, cs, MovedPlace(Plans(im, cs), HeadPlace(cs[j])).value.Plus(28))
  {
    hide Laid, Plans, Moving, LastOffset, OffsetLeaves, Refs, Apart, LeBytes, Puts8;
    hide MovedPlace, Place.Plus, Whole, AllValid, FieldsMove, Planned;
    var plans := Plans(im, cs);
    var ps, h := HeadPlaces(im, plans, cs), HeadPlace(cs[j]);
    var q := ps[j].Plus(28);
    ShadowPlace(im, cs, plans, j, k);
    forall l | k < l < |cs| ensures ClearOfMarks(ps[l], q, 1) {
      LaterClear(im, cs, plans, j, l);
    }
    LowDigit(cs[k].newTotal);
    hide ClearOfMarks;
    RefsFit(im, plans);
    PlaceOf(im, cs, plans, j);
  }

  lemma OwnSize(h: Place, q: Place)
    requires q == h.Plus(24) && h.InPage?
    ensures !ClearOfMarks(h, q, 1) && q != h.Plus(28)
    ensures forall total :: Puts8(h.Plus(24), 4, total, q) <==> LeBytes(total, 4)[0] as nat == PS4_PLATFORM
  {
  }

  lemma LaterClear(im: Image, cs: seq<Conversion>, plans: seq<Plan>, j: nat, l: nat)
    requires Planned(im, plans) && AllValid(plans) && HeadsMove(im, plans, cs) && j < |cs| && l < |cs|
    requires Whole(im, plans, HeadPlace(cs[j]), HEAD_SIZE + 4) && Whole(im, plans, HeadPlace(cs[l]), HEAD_SIZE)
    requires ClearOfMarks(HeadPlace(cs[l]), HeadPlace(cs[j]).Plus(28), 1)
    ensures ClearOfMarks(HeadPlaces(im, plans, cs)[l], HeadPlaces(im, plans, cs)[j].Plus(28), 1)
  {
    hide Laid, MovedPlace, ClearOfMarks, Clear;
    PlusMoves(im, plans, HeadPlace(cs[j]), HEAD_SIZE + 4, 28);
    RpakMoves.WholeInside(im, plans, HeadPlace(cs[j]), HEAD_SIZE + 4, 28, 1);
    hide Whole;
    StillClear(im, plans, HeadPlace(cs[l]), HeadPlace(cs[j]).Plus(28), 1);
  }

  // However such an archive came to be converted, converting it again changes it.
  lemma ShadowedChanges(im: Image, cs: seq<Conversion>, out: Image, j: nat, k: nat)
    requires WellFormed(im) && Finds(Cleared(im), cs) && ConvertedImage(im) == Some(out)
    requires Shadowed(Cleared(im), cs, j, k)
    ensures WellFormed(out) && ConvertedImage(out) != Some(out)
  {
    var was := Cleared(im);
    hide ConvertedImage, Finds, Settles, LayoutOf, Flagless, Yields, Shadowed;
    Outcome(im, cs, out);
    SecondExactly(im, cs, out);
    ShadowedUnsettled(was, cs, out, j, k);
  }

  lemma ShadowBounds(im: Image, cs: seq<Conversion>, j: nat, k: nat)
    requires Shadowed(im, cs, j, k)
    ensures j < k < |cs|
  {
  }

  lemma NotLeft(im: Image, cs: seq<Conversion>, i: nat)
    requires Relays(im, cs) && i < LayoutOf(im.tables).assets && AssetOf(im, i).kind == TEXTURE_TYPE && cs != []
    requires MovesInto(Laid(im, Plans(im, cs)), Plans(im, cs), AssetHead(AssetOf(im, i)), HEAD_SIZE)
    requires !LastLeaves8(im, cs, MovedPlace(Plans(im, cs), AssetHead(AssetOf(im, i))).value.Plus(28))
    ensures !Settles(im, cs)
  {
    hide LayoutOf, Plans, AssetOf, LastLeaves8, MovesInto, Laid, Moving, Agreed;
    assert !LeavesPs4(im, cs, i);
  }

  lemma ShadowedUnsettled(im: Image, cs: seq<Conversion>, out: Image, j: nat, k: nat)
    requires Finds(im, cs) && Yields(im, cs, out) && Shadowed(im, cs, j, k)
    ensures !Settles(im, cs)
  {
    var n := LayoutOf(im.tables).assets;
    YieldRelays(im, cs, out);
    PlansAre(im, cs, out);
    ShadowBounds(im, cs, j, k);
    hide LayoutOf, Conversions, Yields, Relays, ExaminedAsset, LastLeaves8, MovesInto, Plans, AssetOf, Shadowed;
    var i := SourceOf(im, n, j);
    var later := SourceOf(im, n, k);
    TotalInTiles(AssetOf(im, later), im.pages);
    ConvertedHead(AssetOf(im, i), im.pages);
    ShadowedLast(im, cs, j, k);
    NotLeft(im, cs, i);
  }

  lemma PlansAre(im: Image, cs: seq<Conversion>, out: Image)
    requires Yields(im, cs, out)
    ensures AllValid(Plans(im, cs))
  {
    hide Finished, Moving, Laid, Relaid;
    var moved := Stages(im, cs, out);
  }

  // ---------- Two textures that the converter accepts ----------

  // One page, two textures in it, their headers four bytes apart and their data behind, and nothing else.
  ghost predicate Twins(im: Image, c: Conversion, d: Conversion) {
    && WellFormed(im)
    && var l := LayoutOf(im.tables);
       && l.pages == 1 && l.pointers == 0 && l.uses == 0 && l.assets == 2
       && ExaminedAsset(AssetOf(im, 0), im.pages) == Convert(c) && ExaminedAsset(AssetOf(im, 1), im.pages) == Convert(d)
       && d.headOffset == c.headOffset + 4 && c.headOffset + HEAD_SIZE + 4 <= c.cpuOffset
       && c.cpuOffset + c.oldSize <= d.cpuOffset
       && |im.pages[0]| + |c.data| + |d.data| < WORD32
  }

  lemma TwinsFound(im: Image, c: Conversion, d: Conversion)
    requires Twins(im, c, d)
    ensures Finds(im, [c, d]) && AllGrow([c, d])
  {
    hide LayoutOf, ExaminedAsset, AssetOf;
    ConversionsStart(im);
    ConversionsStep(im, 0);
    ConversionsStep(im, 1);
    assert [] + [c] == [c] && [c] + [d] == [c, d];
    ConversionsGrow(im, 2);
  }

  // Where a texture to convert has its header and its data.
  lemma ConvertedParts(a: Asset, pages: seq<seq<Byte>>)
    requires ExaminedAsset(a, pages).Convert?
    ensures var c := ExaminedAsset(a, pages).conversion;
            && c.headPage == a.headPage < |pages| && c.headOffset == a.headOffset
            && c.cpuPage == a.cpuPage < |pages| && c.cpuOffset == a.cpuOffset
            && 1 <= c.oldSize <= |c.data| && c.cpuOffset + c.oldSize <= |pages[c.cpuPage]|
            && c.headOffset + HEAD_SIZE <= |pages[c.headPage]|
  {
    ConversionGrows(a, HeadAt(pages[a.headPage], a.headOffset), pages[a.cpuPage]);
    hide Texture.SourceSize, Texture.TiledSize, Converted;
  }

  lemma TwinPatches(c: Conversion, d: Conversion)
    requires c.cpuPage == d.cpuPage == 0 && c.cpuOffset <= d.cpuOffset
    ensures var ps := PatchesOf([c, d], 2, 0); ps == [PatchOf(c), PatchOf(d)] && Sorted(ps, 2) == ps
  {
    var cs := [c, d];
    assert PatchesOf(cs, 0, 0) == [];
    assert PatchesOf(cs, 1, 0) == [PatchOf(c)];
    assert PatchesOf(cs, 2, 0) == [PatchOf(c), PatchOf(d)];
    var ps := [PatchOf(c), PatchOf(d)];
    assert Sorted(ps, 0) == [];
    assert Sorted(ps, 1) == [ps[0]];
    assert Insert([ps[0]], ps[1]) == [ps[0]] + Insert([], ps[1]);
  }

  // The two replaced ranges of the only page.
  ghost predicate TwinPlan(im: Image, plans: seq<Plan>, c: Conversion, d: Conversion) {
    && |im.pages| == |plans| == 1 && plans[0] == Plan(|im.pages[0]|, [PatchOf(c), PatchOf(d)])
    && c.headPage == d.headPage == c.cpuPage == d.cpuPage == 0
    && 1 <= c.oldSize <= |c.data| && 1 <= d.oldSize <= |d.data| && d.cpuOffset + d.oldSize <= |im.pages[0]|
    && d.headOffset == c.headOffset + 4 && c.headOffset + HEAD_SIZE + 4 <= c.cpuOffset
    && c.cpuOffset + c.oldSize <= d.cpuOffset
    && |im.pages[0]| + |c.data| + |d.data| < WORD32
  }

  lemma OnlyPlan(im: Image, cs: seq<Conversion>)
    requires |im.pages| == 1
    ensures |Plans(im, cs)| == 1
    ensures Plans(im, cs)[0] == Plan(|im.pages[0]|, Sorted(PatchesOf(cs, |cs|, 0), |PatchesOf(cs, |cs|, 0)|))
  {
    assert Plans(im, cs)[0] == PlanOf(im, cs, 0);
  }

  lemma TwinsPlanned(im: Image, c: Conversion, d: Conversion)
    requires Twins(im, c, d)
    ensures TwinPlan(im, Plans(im, [c, d]), c, d)
  {
    hide LayoutOf, ExaminedAsset, PageSize, PatchesOf, Sorted, Plans;
    ConvertedParts(AssetOf(im, 0), im.pages);
    ConvertedParts(AssetOf(im, 1), im.pages);
    TwinPatches(c, d);
    OnlyPlan(im, [c, d]);
  }

  ghost predicate TwinTargets(plans: seq<Plan>, c: Conversion, d: Conversion) {
    && MapTarget(plans, 0, c.headOffset).Some? && MapTarget(plans, 0, d.headOffset).Some?
    && MapTarget(plans, 0, c.cpuOffset).Some? && MapTarget(plans, 0, d.cpuOffset).Some?
  }

  lemma TwinMaps(im: Image, plans: seq<Plan>, c: Conversion, d: Conversion)
    requires TwinPlan(im, plans, c, d)
    ensures TwinTargets(plans, c, d)
  {
    var ps, size := plans[0].patches, plans[0].size;
    assert ps[0] == PatchOf(c) && ps[1] == PatchOf(d);
    MapDefined(ps, size, c.headOffset);
    MapDefined(ps, size, d.headOffset);
    MapDefined(ps, size, c.cpuOffset);
    MapDefined(ps, size, d.cpuOffset);
    hide Delta, MapOffset;
  }

  lemma TwinGrowth(ps: seq<Patch>, size: nat)
    requires |ps| == 2
    ensures Delta(ps, 0, size) <= |ps[0].data| + |ps[1].data|
  {
    assert Delta(ps, 2, size) == 0;
    assert Delta(ps, 1, size) <= |ps[1].data|;
  }

  lemma TwinFacts(im: Image, plans: seq<Plan>, c: Conversion, d: Conversion)
    requires TwinPlan(im, plans, c, d)
    ensures Planned(im, plans) && AllValid(plans) && Sized(plans)
    ensures Whole(im, plans, HeadPlace(c), HEAD_SIZE + 4)
    ensures Whole(im, plans, HeadPlace(c), HEAD_SIZE) && Whole(im, plans, HeadPlace(d), HEAD_SIZE)
    ensures TwinTargets(plans, c, d)
  {
    TwinMaps(im, plans, c, d);
    hide MapTarget;
    var ps, size := plans[0].patches, plans[0].size;
    assert ps[0] == PatchOf(c) && ps[1] == PatchOf(d);
    TwinGrowth(ps, size);
  }

  lemma TwinHeads(im: Image, plans: seq<Plan>, c: Conversion, d: Conversion)
    requires TwinPlan(im, plans, c, d) && Planned(im, plans) && AllValid(plans)
    requires Whole(im, plans, HeadPlace(c), HEAD_SIZE) && Whole(im, plans, HeadPlace(d), HEAD_SIZE)
    ensures HeadsMove(im, plans, [c, d])
  {
    hide TwinPlan, Laid, Whole, MovesInto, Planned, AllValid;
    WholeMoves(im, plans, HeadPlace(c), HEAD_SIZE);
    WholeMoves(im, plans, HeadPlace(d), HEAD_SIZE);
  }

  lemma TwinRef(im: Image, plans: seq<Plan>, k: nat)
    requires WellFormed(im) && Planned(im, plans) && FieldsMove(im, plans) && k < 4
    requires var l := LayoutOf(im.tables); l.pointers == 0 && l.uses == 0 && l.assets == 2
    ensures RefCount(LayoutOf(im.tables)) == 4 && RefAt(im, plans, k) == AssetRef(LayoutOf(im.tables), k / 2, k % 2 == 1)
  {
    hide LayoutOf;
  }

  // An asset's references are the pages and offsets of its descriptor.
  lemma AssetReads(im: Image, laid: Image, i: nat, cpu: bool)
    requires WellFormed(im) && laid.tables == im.tables && i < LayoutOf(im.tables).assets
    ensures var r, a := AssetRef(LayoutOf(im.tables), i, cpu), AssetOf(im, i);
            && r.Fits(laid)
            && r.Page(laid) == (if cpu then a.cpuPage else a.headPage)
            && r.Offset(laid) == if cpu then a.cpuOffset else a.headOffset
  {
    hide LayoutOf, Le;
  }

  lemma TwinOffsets(im: Image, c: Conversion, d: Conversion)
    requires Twins(im, c, d)
    ensures WellFormed(im) && HEADER <= |im.tables| && LayoutOf(im.tables).assets == 2
    ensures var a, b := AssetOf(im, 0), AssetOf(im, 1);
            && a.headPage == a.cpuPage == b.headPage == b.cpuPage == 0
            && a.headOffset == c.headOffset && a.cpuOffset == c.cpuOffset
            && b.headOffset == d.headOffset && b.cpuOffset == d.cpuOffset
  {
    hide ExaminedAsset, LayoutOf, PageSize;
    ConvertedParts(AssetOf(im, 0), im.pages);
    ConvertedParts(AssetOf(im, 1), im.pages);
  }

  lemma LeadsSomewhere(im: Image, plans: seq<Plan>, r: Reference)
    requires r.Fits(im) && MapTarget(plans, r.Page(im), r.Offset(im)).Some?
    ensures r.Movable(im, plans)
  {
  }

  // All four references have somewhere to go.
  lemma TwinReference(im: Image, laid: Image, plans: seq<Plan>, c: Conversion, d: Conversion, i: nat, cpu: bool)
    requires Twins(im, c, d) && laid.tables == im.tables && i < 2 && TwinTargets(plans, c, d)
    ensures var r := AssetRef(LayoutOf(im.tables), i, cpu); r.Fits(laid) && r.Movable(laid, plans)
  {
    hide Twins, MapTarget, LayoutOf, AssetOf, WellFormed, AssetRef, Reference.Fits, Reference.Page, Reference.Offset;
    hide Reference.Movable, PageSize;
    TwinOffsets(im, c, d);
    AssetReads(im, laid, i, cpu);
    LeadsSomewhere(laid, plans, AssetRef(LayoutOf(im.tables), i, cpu));
  }

  lemma TwinsMove(im: Image, plans: seq<Plan>, c: Conversion, d: Conversion)
    requires Twins(im, c, d) && TwinPlan(im, plans, c, d)
    ensures Planned(im, plans) && FieldsMove(im, plans) && Moving(im, plans).Some?
  {
    var l := LayoutOf(im.tables);
    TwinFacts(im, plans, c, d);
    hide MapTarget, RefAt, Laid, ExaminedAsset, Reference.Movable, AllMoved, Alone, TwinTargets, AssetRef, TwinPlan;
    var refs := Refs(im, plans);
    RefsFit(im, plans);
    forall k | 0 <= k < |refs| ensures Alone(refs, k) && refs[k].Movable(Laid(im, plans), plans) {
      TwinRef(im, plans, k);
      TwinReference(im, Laid(im, plans), plans, c, d, k / 2, k % 2 == 1);
      TableRefAlone(im, plans, k);
    }
    AllMovable(Laid(im, plans), plans, refs, |refs|);
  }

  lemma TwinsShadowed(im: Image, plans: seq<Plan>, c: Conversion, d: Conversion)
    requires plans == Plans(im, [c, d]) && TwinPlan(im, plans, c, d) && Whole(im, plans, HeadPlace(c), HEAD_SIZE + 4)
    ensures Shadowed(im, [c, d], 0, 1)
  {
    hide Whole, Plans;
  }

  // The converter accepts them.
  lemma TwinsAccepted(im: Image, c: Conversion, d: Conversion)
    requires Twins(im, c, d)
    ensures Finds(im, [c, d]) && Relaid(im, [c, d]).Some? && Shadowed(im, [c, d], 0, 1)
  {
    TwinsFound(im, c, d);
    TwinsPlanned(im, c, d);
    var plans := Plans(im, [c, d]);
    TwinFacts(im, plans, c, d);
    TwinHeads(im, plans, c, d);
    TwinsMove(im, plans, c, d);
    TwinsShadowed(im, plans, c, d);
    hide Whole, TwinPlan, Twins, Plans, Moving, HeadsMove, FieldsMove, Sized, Planned, Finds, AllGrow, Shadowed, Finished;
  }

  // The converter accepts any such archive, and converting the output changes it.
  lemma TwinsChange(im: Image, c: Conversion, d: Conversion)
    requires WellFormed(im) && Twins(Cleared(im), c, d)
    ensures ConvertedImage(im).Some? && WellFormed(ConvertedImage(im).value)
    ensures ConvertedImage(ConvertedImage(im).value) != ConvertedImage(im)
  {
    hide Relaid, Twins, LayoutOf, Shadowed;
    TwinsAccepted(Cleared(im), c, d);
    assert [c, d] != [];
    ShadowedChanges(im, [c, d], ConvertedImage(im).value, 0, 1);
  }

  // ---------- One such archive for every thirty-two bytes of pixels ----------

  // The little-endian bytes of an archive with one page of 92 bytes and two textures, headers at 0 and at 4.
  function TwinTables(): (t: seq<Byte>)
    ensures |t| == 244
  {
    seq(244, k requires 0 <= k < 244 => TableByte(k))
  }

  // The descriptor of one of the textures.
  function DescriptorByte(k: nat, head: Byte, cpu: Byte): Byte {
    if k == 20 then head else if k == 28 then cpu else if k == 60 then 56
    else if k == 68 then 0x74 else if k == 69 then 0x78 else if k == 70 then 0x74 else if k == 71 then 0x72 else 0
  }

  function TableByte(k: nat): Byte {
    if k == 0 then 82 else if k == 1 then 80 else if k == 2 then 97 else if k == 3 then 107
    else if k == 4 then 7 else if k == 0x3c then 1 else if k == 0x44 then 2 else if k == 96 then 92
    else if 100 <= k < 172 then DescriptorByte(k - 100, 0, 60)
    else if 172 <= k < 244 then DescriptorByte(k - 172, 4, 76)
    else 0
  }

  // The two headers, each of a texture of one pixel.
  function TwinHeader(): (t: seq<Byte>)
    ensures |t| == 60
  {
    seq(60, k requires 0 <= k < 60 => HeaderByte(k))
  }

  function HeaderByte(k: nat): Byte {
    if k == 16 || k == 18 || k == 20 || k == 22 || k == 33 || k == 37 then 1 else 0
  }

  function TwinImage(pixels: seq<Byte>): Image {
    Image(TwinTables(), [TwinHeader() + pixels])
  }

  lemma Word2(s: seq<Byte>, at: nat)
    requires at + 2 <= |s|
    ensures U16(s, at) == s[at] as nat + 256 * s[at + 1] as nat
  {
    assert Le(s, at + 2, 0) == 0;
    assert Le(s, at + 1, 1) == s[at + 1] as nat;
  }

  lemma Word4(s: seq<Byte>, at: nat)
    requires at + 4 <= |s|
    ensures U32(s, at) == s[at] as nat + 256 * s[at + 1] as nat + 65536 * s[at + 2] as nat + 0x100_0000 * s[at + 3] as nat
  {
    assert Le(s, at + 4, 0) == 0;
    assert Le(s, at + 3, 1) == s[at + 3] as nat;
    assert Le(s, at + 2, 2) == s[at + 2] as nat + 256 * Le(s, at + 3, 1);
    assert Le(s, at + 1, 3) == s[at + 1] as nat + 256 * Le(s, at + 2, 2);
  }

  lemma TwinLayout()
    ensures LayoutOf(TwinTables()) == Layout(0, 0, 1, 0, 2, 0, 0)
  {
    hide Le;
    var t := TwinTables();
    Word2(t, 0x38);
    Word2(t, 0x3a);
    Word2(t, 0x3c);
    Word4(t, 0x40);
    Word4(t, 0x44);
    Word4(t, 0x48);
    Word4(t, 0x4c);
  }

  lemma TwinWellFormed(pixels: seq<Byte>)
    requires |pixels| == 32
    ensures WellFormed(TwinImage(pixels))
  {
    hide Le, U16;
    TwinLayout();
    hide LayoutOf;
    Word4(TwinTables(), 96);
  }

  lemma TableWord(at: nat)
    requires at + 4 <= 244
    ensures U32(TwinTables(), at) ==
            TableByte(at) as nat + 256 * TableByte(at + 1) as nat + 65536 * TableByte(at + 2) as nat +
            0x100_0000 * TableByte(at + 3) as nat
  {
    hide Le, TableByte;
    Word4(TwinTables(), at);
  }

  lemma TwinAsset(k: nat)
    requires k < 2
    ensures var a := AssetAt(TwinTables(), 100 + 72 * k);
            && a.kind == TEXTURE_TYPE && a.headPage == a.cpuPage == 0 && a.headSize == 56
            && a.headOffset == 4 * k && a.cpuOffset == 60 + 16 * k
  {
    hide Le, TwinTables, U32, U64;
    var at := 100 + 72 * k;
    TableWord(at + 16);
    TableWord(at + 20);
    TableWord(at + 24);
    TableWord(at + 28);
    TableWord(at + 60);
    TableWord(at + 68);
  }

  lemma TwinHead(page: seq<Byte>, k: nat)
    requires 60 <= |page| && page[..60] == TwinHeader() && k < 2
    ensures HeadAt(page, 4 * k) == Head(Texture(1, 1, 1 - k, 1), 0, 1, 0)
  {
    hide Le;
    forall i | 0 <= i < 60 ensures page[i] == HeaderByte(i) {
      assert page[i] == page[..60][i];
    }
    Word2(page, 4 * k + 16);
    Word2(page, 4 * k + 18);
    Word2(page, 4 * k + 22);
  }

  // A texture of one pixel with one mip.
  lemma PixelSizes(t: Texture)
    requires t.width == t.height == 1 && t.arrays == 1 && t.format < 2
    ensures t.SourceSize(0, 1) == 16 && t.TiledSize(0, 1) == 512
  {
    var m := t.Level(0);
    assert m.width == m.height == 1 && m.bytes == 8;
    hide Texture.Level;
    assert m.BlocksX() == 1 && m.BlocksY() == 1;
    assert m.TilesX() == 1 && m.TilesY() == 1;
    hide Mip.BlocksX, Mip.BlocksY, Mip.TilesX, Mip.TilesY;
    assert t.SourceSize(1, 1) == 0 && t.TiledSize(1, 1) == 0;
  }

  // What is found in the k-th texture.
  function TwinConversion(pixels: seq<Byte>, k: nat): (c: Conversion)
    requires |pixels| == 32 && k < 2
    ensures |c.data| == 512
  {
    var t := Texture(1, 1, 1 - k, 1);
    PixelSizes(t);
    var page := TwinHeader() + pixels;
    Conversion(0, 4 * k, 0, 60 + 16 * k, Head(t, 0, 1, 0), U64(TwinTables(), 132 + 72 * k), 16, 512,
               Converted(t, page[60 + 16 * k..], 0, 1))
  }

  lemma PixelConverted(a: Asset, page: seq<Byte>, k: nat)
    requires |page| == 92 && k < 2 && HeadAt(page, 4 * k) == Head(Texture(1, 1, 1 - k, 1), 0, 1, 0)
    requires a.kind == TEXTURE_TYPE && a.headPage == a.cpuPage == 0 && a.headSize == 56
    requires a.headOffset == 4 * k && a.cpuOffset == 60 + 16 * k
    ensures Texture(1, 1, 1 - k, 1).SourceSize(0, 1) == 16
    ensures ExaminedAsset(a, [page]) ==
            Convert(Conversion(0, 4 * k, 0, 60 + 16 * k, Head(Texture(1, 1, 1 - k, 1), 0, 1, 0), a.stream, 16, 512,
                               Converted(Texture(1, 1, 1 - k, 1), page[60 + 16 * k..], 0, 1)))
  {
    PixelSizes(Texture(1, 1, 1 - k, 1));
    hide Converted, Texture.SourceSize, Texture.TiledSize, HeadAt;
  }

  lemma TwinExamined(pixels: seq<Byte>, k: nat)
    requires |pixels| == 32 && k < 2
    ensures WellFormed(TwinImage(pixels)) && LayoutOf(TwinTables()) == Layout(0, 0, 1, 0, 2, 0, 0)
    ensures ExaminedAsset(AssetOf(TwinImage(pixels), k), TwinImage(pixels).pages) == Convert(TwinConversion(pixels, k))
  {
    hide LayoutOf, Converted, ExaminedAsset, U64, AssetAt, HeadAt, TwinTables, TwinHeader;
    var page := TwinHeader() + pixels;
    assert page[..60] == TwinHeader();
    TwinWellFormed(pixels);
    TwinLayout();
    TwinAsset(k);
    TwinHead(page, k);
    PixelConverted(AssetAt(TwinTables(), 100 + 72 * k), page, k);
    TwinStream(k);
  }

  lemma TwinStream(k: nat)
    requires k < 2
    ensures AssetAt(TwinTables(), 100 + 72 * k).stream == U64(TwinTables(), 132 + 72 * k)
  {
    hide U32, U64;
  }

  lemma TwinsStand(pixels: seq<Byte>)
    requires |pixels| == 32
    ensures Twins(TwinImage(pixels), TwinConversion(pixels, 0), TwinConversion(pixels, 1))
  {
    hide LayoutOf, ExaminedAsset, AssetOf, TwinTables, TwinHeader, WellFormed;
    TwinExamined(pixels, 0);
    TwinExamined(pixels, 1);
  }

  lemma TwinStamped(pixels: seq<Byte>)
    requires |pixels| == 32
    ensures Flagless(TwinImage(pixels)) && Cleared(TwinImage(pixels)) == TwinImage(pixels)
    ensures RpakGate.Stamped(File(TwinImage(pixels)), {0, 1})
  {
    hide Le, Flat;
    var im, t := TwinImage(pixels), TwinTables();
    assert t[6..8] == [0, 0];
    ClearingFlagless(im);
    Word2(t, 4);
    Word2(t, 6);
    Word2(t, 0x3e);
    assert t[..4] == [82, 80, 97, 107];
    assert File(im)[..|t|] == t == t[..|t|];
    assert RpakGate.Stamped(t, {0, 1});
    RpakGate.SameStamp(t, File(im), {0, 1});
  }

  // Textures without streamed mips ask nothing of the STARPaks.
  lemma NoStreams(starpaks: seq<seq<Byte>>, c: Conversion, d: Conversion)
    requires RpakStreams.Formatted([c, d]) && c.head.streamed == 0 && d.head.streamed == 0
    ensures RpakStreams.Restreamed(starpaks, [c, d]) == Some(starpaks)
  {
    var cs := [c, d];
    assert RpakStreams.Requested(starpaks, cs, 0) == Some([]);
    assert RpakStreams.Requested(starpaks, cs, 1) == Some([]);
    assert RpakStreams.Requested(starpaks, cs, 2) == Some([]);
    RpakStreams.RequestedIndexed(starpaks, cs, 2);
    assert RpakStreams.AllRewritten(starpaks, [], 0) == Some(starpaks);
  }

  lemma TwinParts(pixels: seq<Byte>)
    requires |pixels| == 32
    ensures RpakStreams.Formatted([TwinConversion(pixels, 0), TwinConversion(pixels, 1)])
    ensures TwinConversion(pixels, 0).head.streamed == 0 && TwinConversion(pixels, 1).head.streamed == 0
  {
    hide Converted;
  }

  // What the converter makes of the archive of an image that the two conversions take through.
  lemma TwinOutcome(im: Image, c: Conversion, d: Conversion, starpaks: seq<seq<Byte>>)
    requires WellFormed(im) && Cleared(im) == im && Finds(im, [c, d]) && Relaid(im, [c, d]).Some?
    requires Opens(File(im)) && Opened(File(im)) == im && RpakGate.Stamped(File(im), {0, 1})
    requires RpakStreams.Formatted([c, d]) && RpakStreams.Restreamed(starpaks, [c, d]) == Some(starpaks)
    ensures RpakConverter.ConvertedFiles(File(im), starpaks) == RpakConverter.Files(File(Relaid(im, [c, d]).value), starpaks)
  {
    hide Relaid, LayoutOf, File, Opened, Cleared, Conversions, RpakStreams.Restreamed, PageSize, RpakGate.Stamped;
    assert [c, d] != [];
  }

  lemma TwinsUnsettled(im: Image, c: Conversion, d: Conversion, out: Image)
    requires Twins(im, c, d) && Finds(im, [c, d]) && Relaid(im, [c, d]) == Some(out) && Shadowed(im, [c, d], 0, 1)
    ensures !Settles(im, [c, d])
  {
    TwinsFound(im, c, d);
    hide Relaid, LayoutOf, Conversions, Shadowed, Settles, ExaminedAsset, AssetOf;
    ShadowedUnsettled(im, [c, d], out, 0, 1);
  }

  // The file of any such image without streamed mips is accepted and its conversion does not settle.
  lemma TwinsFile(im: Image, c: Conversion, d: Conversion, starpaks: seq<seq<Byte>>) returns (file: seq<Byte>)
    requires Twins(im, c, d) && Cleared(im) == im && RpakGate.Stamped(File(im), {0, 1})
    requires RpakStreams.Formatted([c, d]) && RpakStreams.Restreamed(starpaks, [c, d]) == Some(starpaks)
    ensures RpakConverter.ConvertedFiles(File(im), starpaks) == RpakConverter.Files(file, starpaks)
    ensures !RpakResult.Settled(File(im))
  {
    hide Relaid, LayoutOf, Shadowed, File, Opened, Settles, Cleared, Conversions, ExaminedAsset, AssetOf, RpakGate.Stamped;
    hide RpakStreams.Restreamed, PageSize, RpakResult.Settled;
    OpenedFile(im);
    TwinsAccepted(im, c, d);
    var out := Relaid(im, [c, d]).value;
    file := File(out);
    TwinOutcome(im, c, d, starpaks);
    TwinsUnsettled(im, c, d, out);
    RpakResult.OneOutcome(File(im), [c, d]);
  }

  // Whatever the pixels and the STARPaks, the converter accepts the archive, and converting the output changes it or
  // is refused.
  lemma TwinArchive(pixels: seq<Byte>, starpaks: seq<seq<Byte>>) returns (file: seq<Byte>)
    requires |pixels| == 32
    ensures RpakConverter.ConvertedFiles(File(TwinImage(pixels)), starpaks) == RpakConverter.Files(file, starpaks)
    ensures RpakConverter.ConvertedFiles(file, starpaks) != RpakConverter.Files(file, starpaks)
  {
    var im, c, d := TwinImage(pixels), TwinConversion(pixels, 0), TwinConversion(pixels, 1);
    TwinParts(pixels);
    hide TwinImage, TwinConversion, Relaid, LayoutOf, File, Opened, Cleared, Twins, RpakGate.Stamped, RpakStreams.Restreamed;
    hide RpakResult.Settled, RpakConverter.ConvertedFiles;
    TwinStamped(pixels);
    TwinsStand(pixels);
    NoStreams(starpaks, c, d);
    file := TwinsFile(im, c, d, starpaks);
    RpakResult.ConvertingAgain(File(im), starpaks, file, starpaks);
  }
}
