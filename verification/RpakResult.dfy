// What a conversion's output is, file to file.
module RpakResult {
  import opened Options
  import opened Bits
  import opened RpakBytes
  import opened RpakTextures
  import opened RpakMips
  import opened RpakImage
  import opened RpakLayout
  import opened RpakRelocate
  import opened RpakSpecs
  import opened RpakConvert
  import opened RpakGate
  import opened RpakConverter
  import RpakMoves
  import RpakKept
  import RpakTidy
  import RpakSizes
  import RpakAgain
  import RpakSettled
  import RpakStreams

  // The archive's conversion leaves every texture with the PS4 platform.
  ghost predicate Settled(rpak: seq<Byte>) {
    && Opens(rpak) && WellFormed(Opened(rpak)) && WellFormed(Cleared(Opened(rpak)))
    && forall cs :: RpakAgain.Finds(Cleared(Opened(rpak)), cs) ==> RpakSettled.Settles(Cleared(Opened(rpak)), cs)
  }

  lemma HeaderStamp(im: Image)
    requires WellFormed(im) && Stamped(im.tables, {0, 1})
    ensures Stamped(Cleared(im).tables, {0})
  {
    var s, t := im.tables, Cleared(im).tables;
    hide LayoutOf, PageSize, WellFormed;
    RpakAgain.ClearingFlagless(im);
    LeElsewhere(s, 6, 2, 0, 4, 2);
    LeElsewhere(s, 6, 2, 0, 0x3e, 2);
    FlagWord(t);
    assert t[..4] == s[..4];
    hide Le;
  }

  lemma FlagWord(t: seq<Byte>)
    requires |t| >= HEADER && t[6..8] == [0, 0]
    ensures U16(t, 6) == 0
  {
    assert t[6] == t[6..8][0] && t[7] == t[6..8][1];
    assert Le(t, 8, 0) == 0 && Le(t, 7, 1) == 0;
  }

  lemma StampKept(im: Image, cs: seq<Conversion>, out: Image)
    requires RpakKept.Yields(im, cs, out) && Stamped(im.tables, {0})
    ensures Stamped(out.tables, {0})
  {
    hide Relaid, LayoutOf, RpakKept.NoSizeAt, RpakSizes.NoOffsetAt, Le, PageSize;
    var l := LayoutOf(im.tables);
    RpakSizes.HeaderUntouched(l, 0, 8);
    RpakSizes.HeaderUntouched(l, 0x3e, 2);
    RpakSizes.TablesKept(im, cs, out, 0, 8);
    RpakSizes.TablesKept(im, cs, out, 0x3e, 2);
    hide RpakKept.Yields;
    StampSame(im, out);
  }

  lemma StampSame(im: Image, out: Image)
    requires |im.tables| == |out.tables| >= HEADER && Stamped(im.tables, {0})
    requires Bytes(out, InTables(0), 8) == Bytes(im, InTables(0), 8) && Bytes(out, InTables(0x3e), 2) == Bytes(im, InTables(0x3e), 2)
    ensures Stamped(out.tables, {0})
  {
    var s, t := im.tables, out.tables;
    assert s[0..8] == t[0..8] && s[0x3e..0x40] == t[0x3e..0x40];
    SliceSame(s, 0, t, 0, 8, 0, 4);
    SliceSame(s, 0, t, 0, 8, 4, 2);
    SliceSame(s, 0, t, 0, 8, 6, 2);
    SliceSame(s, 0x3e, t, 0x3e, 2, 0, 2);
    hide Le;
  }

  // The output is the file of the converted image.
  lemma OutcomeImage(rpak: seq<Byte>, starpaks: seq<seq<Byte>>, file: seq<Byte>, streams: seq<seq<Byte>>)
    returns (cs: seq<Conversion>, out: Image)
    requires ConvertedFiles(rpak, starpaks) == Files(file, streams)
    ensures Stamped(rpak, {0, 1}) && Opens(rpak) && WellFormed(Opened(rpak)) && WellFormed(Cleared(Opened(rpak)))
    ensures LayoutOf(Cleared(Opened(rpak)).tables) == LayoutOf(rpak)
    ensures RpakAgain.Finds(Cleared(Opened(rpak)), cs) && RpakMoves.AllGrow(cs)
    ensures ConvertedImage(Opened(rpak)) == Some(out) && file == File(out)
    ensures if cs == [] then out == Cleared(Opened(rpak)) else RpakKept.Yields(Cleared(Opened(rpak)), cs, out)
  {
    hide LayoutOf, Opened, Relaid, File;
    FileOpened(rpak);
    ClearedWellFormed(Opened(rpak));
    var im := Cleared(Opened(rpak));
    hide WellFormed;
    cs := Conversions(im, LayoutOf(im.tables).assets).conversions;
    out := ConvertedImage(Opened(rpak)).value;
    RpakMoves.ConversionsGrow(im, LayoutOf(im.tables).assets);
  }

  // The output keeps the layout and the stamp, without the flag.
  lemma OutputStamped(rpak: seq<Byte>, cs: seq<Conversion>, out: Image)
    requires Stamped(rpak, {0, 1}) && Opens(rpak) && WellFormed(Opened(rpak)) && WellFormed(Cleared(Opened(rpak)))
    requires LayoutOf(Cleared(Opened(rpak)).tables) == LayoutOf(rpak)
    requires if cs == [] then out == Cleared(Opened(rpak)) else RpakKept.Yields(Cleared(Opened(rpak)), cs, out)
    ensures WellFormed(out) && LayoutOf(out.tables) == LayoutOf(rpak) && Stamped(out.tables, {0})
  {
    hide LayoutOf, Relaid, PageSize, Stamped, File, FirstPages, Cleared, PageStart;
    var im := Opened(rpak);
    PrefixStamp(rpak);
    HeaderStamp(im);
    if cs != [] {
      RpakSizes.StaysWellFormed(Cleared(im), cs, out);
      StampKept(Cleared(im), cs, out);
    }
  }

  lemma PrefixStamp(rpak: seq<Byte>)
    requires Stamped(rpak, {0, 1}) && Opens(rpak)
    ensures Stamped(Opened(rpak).tables, {0, 1})
  {
    hide LayoutOf, PageSize, PageStart, FirstPages;
    var l := LayoutOf(rpak);
    var t := rpak[..l.End()];
    assert t[..l.End()] == rpak[..l.End()];
    hide Le;
    SamePrefix(rpak, t, 4, 2, l.End());
    SamePrefix(rpak, t, 6, 2, l.End());
    SamePrefix(rpak, t, 0x3e, 2, l.End());
    assert t[..4] == rpak[..4];
  }

  lemma OneOutcome(rpak: seq<Byte>, cs: seq<Conversion>)
    requires Opens(rpak) && WellFormed(Opened(rpak)) && RpakAgain.Finds(Cleared(Opened(rpak)), cs)
    ensures Settled(rpak) <==> RpakSettled.Settles(Cleared(Opened(rpak)), cs)
  {
    hide LayoutOf, Conversions, RpakSettled.Settles, Opened, Cleared;
  }

  // Converting the output changes nothing exactly when the last write on every texture's platform byte was 8.
  lemma ConvertingAgain(rpak: seq<Byte>, starpaks: seq<seq<Byte>>, file: seq<Byte>, streams: seq<seq<Byte>>)
    requires ConvertedFiles(rpak, starpaks) == Files(file, streams)
    ensures ConvertedFiles(file, streams) == Files(file, streams) <==> Settled(rpak)
  {
    hide LayoutOf, Opened, Relaid, File, PageSize, Stamped, PageStart, Cleared, RpakSettled.Settles, ConvertedImage;
    var cs, out := OutcomeImage(rpak, starpaks, file, streams);
    OutputStamped(rpak, cs, out);
    hide RpakKept.Yields;
    RpakSettled.LeftExactly(Opened(rpak), cs, out);
    RpakSettled.Outcome(Opened(rpak), cs, out);
    OneOutcome(rpak, cs);
    hide Settled, RpakAgain.Finds, RpakAgain.Flagless, WellFormed;
    if Settled(rpak) {
      NothingToDo(out, streams);
    }
    if ConvertedFiles(file, streams) == Files(file, streams) {
      FixedImage(file, streams, out);
      RpakSettled.FixedExactly(out);
    }
  }

  // Headers apart from each other, from the relocated offsets and from the replaced ranges settle.
  lemma TidyArchive(rpak: seq<Byte>, starpaks: seq<seq<Byte>>, file: seq<Byte>, streams: seq<seq<Byte>>)
    requires ConvertedFiles(rpak, starpaks) == Files(file, streams)
    requires Opens(rpak) && WellFormed(Cleared(Opened(rpak)))
    requires forall cs :: RpakAgain.Finds(Cleared(Opened(rpak)), cs) ==> RpakAgain.Tidy(Cleared(Opened(rpak)), cs)
    ensures Settled(rpak)
  {
    hide LayoutOf, Opened, Relaid, File, PageSize, Stamped, PageStart, Cleared, RpakSettled.Settles, ConvertedImage, ConvertedFiles;
    var cs, out := OutcomeImage(rpak, starpaks, file, streams);
    hide RpakKept.Yields, RpakAgain.Tidy;
    RpakSettled.TidySettles(Opened(rpak), cs, out);
    OneOutcome(rpak, cs);
  }

  // An archive that converts to itself is the file of an image that does.
  lemma FixedImage(file: seq<Byte>, streams: seq<seq<Byte>>, im: Image)
    requires WellFormed(im) && file == File(im) && ConvertedFiles(file, streams) == Files(file, streams)
    ensures ConvertedImage(im) == Some(im)
  {
    hide LayoutOf, Opened, Relaid, File, PageSize, Stamped, PageStart, Cleared, ConvertedImage;
    OpenedFile(im);
    var cs, out := OutcomeImage(file, streams, file, streams);
    OutputStamped(file, cs, out);
    OpenedFile(out);
  }

  lemma NothingToDo(out: Image, streams: seq<seq<Byte>>)
    requires WellFormed(out) && Stamped(out.tables, {0}) && RpakAgain.Flagless(out)
    requires forall i :: 0 <= i < LayoutOf(out.tables).assets ==> ExaminedAsset(AssetOf(out, i), out.pages).Keep?
    ensures ConvertedFiles(File(out), streams) == Files(File(out), streams)
  {
    hide LayoutOf, ExaminedAsset, Relaid, PageStart, PageSize, AssetOf;
    OpenedFile(out);
    FileLayout(out, 0);
    TablesFirst(out);
    SameStamp(out.tables, File(out), {0});
    WiderStamp(File(out));
    RpakAgain.ClearingFlagless(out);
    hide File, Opened, Cleared, Stamped;
    RpakAgain.NothingLeft(out, LayoutOf(out.tables).assets);
  }

  lemma TablesFirst(im: Image)
    ensures |im.tables| <= |File(im)| && File(im)[..|im.tables|] == im.tables
  {
  }

  lemma WiderStamp(s: seq<Byte>)
    requires Stamped(s, {0})
    ensures Stamped(s, {0, 1})
  {
  }

  // The runtime loads the output exactly when its tables are at most 16 MiB, it holds a texture, a material or a
  // datatable, and the conversion left every texture with the PS4 platform.
  lemma OutputPasses(rpak: seq<Byte>, starpaks: seq<seq<Byte>>, file: seq<Byte>, streams: seq<seq<Byte>>)
    requires ConvertedFiles(rpak, starpaks) == Files(file, streams)
    ensures Opens(rpak)
    ensures Passes(file) <==>
            && LayoutOf(rpak).End() <= MAX_TABLE_BYTES
            && (exists i :: 0 <= i < LayoutOf(rpak).assets && Wanted(AssetAt(rpak, LayoutOf(rpak).Asset(i)).kind))
            && Settled(rpak)
  {
    hide LayoutOf, Opened, Relaid, File, PageSize, Stamped, PageStart, Cleared, AssetAt, Passes, ExaminedAsset;
    hide RpakSettled.Settles, ConvertedImage, ConvertedFiles, Conversions;
    var cs, out := OutcomeImage(rpak, starpaks, file, streams);
    OutputStamped(rpak, cs, out);
    RpakSettled.LeftExactly(Opened(rpak), cs, out);
    OneOutcome(rpak, cs);
    PassesExactly(out);
    forall i | 0 <= i < LayoutOf(rpak).assets
      ensures AssetOf(out, i).kind == AssetAt(rpak, LayoutOf(rpak).Asset(i)).kind
      ensures Loads(AssetOf(out, i), out.pages) <==> ExaminedAsset(AssetOf(out, i), out.pages).Keep?
    {
      KindKept(rpak, cs, out, i);
      LoadsExactly(rpak, cs, out, i);
    }
  }

  // In an output, the runtime accepts a texture exactly when the converter would keep it.
  lemma LoadsExactly(rpak: seq<Byte>, cs: seq<Conversion>, out: Image, i: nat)
    requires Opens(rpak) && WellFormed(Opened(rpak)) && WellFormed(Cleared(Opened(rpak)))
    requires LayoutOf(Cleared(Opened(rpak)).tables) == LayoutOf(rpak) && i < LayoutOf(rpak).assets
    requires WellFormed(out) && LayoutOf(out.tables) == LayoutOf(rpak) && RpakAgain.Finds(Cleared(Opened(rpak)), cs)
    requires if cs == [] then out == Cleared(Opened(rpak)) else RpakKept.Yields(Cleared(Opened(rpak)), cs, out)
    ensures Loads(AssetOf(out, i), out.pages) <==> ExaminedAsset(AssetOf(out, i), out.pages).Keep?
  {
    hide LayoutOf, Opened, Relaid, PageSize, Cleared, AssetAt;
    var was := Cleared(Opened(rpak));
    var a, b := AssetOf(was, i), AssetOf(out, i);
    var j := RpakAgain.EachExamined(was, LayoutOf(was.tables).assets, i);
    if cs != [] {
      RpakAgain.DescriptorKept(was, cs, out, i);
      if a.kind == TEXTURE_TYPE {
        RpakSizes.FewPages(was.tables);
        RpakAgain.HeadStays(was, cs, out, i, a, b);
      }
    }
  }

  lemma KindKept(rpak: seq<Byte>, cs: seq<Conversion>, out: Image, i: nat)
    requires Opens(rpak) && WellFormed(Opened(rpak)) && WellFormed(Cleared(Opened(rpak)))
    requires LayoutOf(Cleared(Opened(rpak)).tables) == LayoutOf(rpak) && i < LayoutOf(rpak).assets
    requires WellFormed(out) && LayoutOf(out.tables) == LayoutOf(rpak)
    requires if cs == [] then out == Cleared(Opened(rpak)) else RpakKept.Yields(Cleared(Opened(rpak)), cs, out)
    ensures AssetOf(out, i).kind == AssetAt(rpak, LayoutOf(rpak).Asset(i)).kind
  {
    hide LayoutOf, Relaid, PageSize, PageStart, FirstPages, Le, File;
    var im, l := Opened(rpak), LayoutOf(rpak);
    var at := l.Asset(i) + 68;
    if cs != [] {
      RpakAgain.DescriptorKept(Cleared(im), cs, out, i);
    }
    LeElsewhere(im.tables, 6, 2, 0, at, 4);
    assert im.tables[..l.End()] == rpak[..l.End()];
    SamePrefix(rpak, im.tables, at, 4, l.End());
  }

  // ---------- Texture data, read back ----------

  // What a conversion's data is made from.
  ghost predicate MadeFrom(c: Conversion, pages: seq<seq<Byte>>) {
    && c.head.Supported() && c.cpuPage < |pages| && c.cpuOffset <= |pages[c.cpuPage]|
    && c.head.texture.SourceSize(c.head.streamed, c.head.Last()) <= |pages[c.cpuPage]| - c.cpuOffset
    && c.data == Converted(c.head.texture, pages[c.cpuPage][c.cpuOffset..], c.head.streamed, c.head.Last())
  }

  lemma ExaminedMadeFrom(a: Asset, pages: seq<seq<Byte>>)
    requires ExaminedAsset(a, pages).Convert?
    ensures MadeFrom(ExaminedAsset(a, pages).conversion, pages)
  {
  }

  // Every permanent mip of every converted texture: reading the output at the texture's data pointer, past the larger
  // mips, and undoing the tiling gives back the linear bytes of the input.
  lemma MipReadBack(im: Image, cs: seq<Conversion>, out: Image, j: nat, mip: nat) returns (to: Place)
    requires RpakKept.Yields(im, cs, out) && j < |cs| && RpakTidy.DataApart(im, cs, cs[j])
    requires MadeFrom(cs[j], im.pages) && cs[j].head.streamed <= mip < cs[j].head.Last()
    ensures MovedPlace(Plans(im, cs), InPage(cs[j].cpuPage, cs[j].cpuOffset)) == Some(to)
    ensures ReadsBack(cs[j], mip, out, to, im.pages[cs[j].cpuPage][cs[j].cpuOffset..])
  {
    hide Relaid, Plans, RpakTidy.Uncut, Converted, Unswizzled, MovedPlace, Texture.Level, Texture.TiledSize, Texture.SourceSize;
    var c := cs[j];
    var t, source := c.head.texture, im.pages[c.cpuPage][c.cpuOffset..];
    RpakTidy.DataKept(im, cs, out, j);
    MipRecovered(t, source, c.head.streamed, mip, c.head.Last());
    hide RpakKept.Yields, MadeFrom;
    to := MovedPlace(Plans(im, cs), InPage(c.cpuPage, c.cpuOffset)).value;
    InnerBytes(out, to, |c.data|, t.TiledSize(c.head.streamed, mip), t.Level(mip).Tiled());
  }

  // The bytes past the larger mips at `to`, with the tiling undone, are the mip's linear bytes in the source.
  ghost predicate ReadsBack(c: Conversion, mip: nat, out: Image, to: Place, source: seq<Byte>)
    requires c.head.Supported() && c.head.streamed <= mip < c.head.Last()
  {
    var t := c.head.texture;
    var m := t.Level(mip);
    var at, from := t.TiledSize(c.head.streamed, mip), t.SourceSize(mip + 1, c.head.Last());
    && Fits(out, to.Plus(at), m.Tiled()) && from + m.Linear() <= |source|
    && Unswizzled(m, Bytes(out, to.Plus(at), m.Tiled())) == source[from..from + m.Linear()]
  }

  lemma InnerBytes(im: Image, p: Place, size: nat, at: nat, n: nat)
    requires Fits(im, p, size) && at + n <= size
    ensures Fits(im, p.Plus(at), n) && Bytes(im, p.Plus(at), n) == Bytes(im, p, size)[at..at + n]
  {
    PlusInside(im, p, size, at, n);
    SubSlice(Holder(im, p), p.at, size, at, n);
  }

  // The same for the streamed mips and their STARPak block.
  lemma StreamedMipReadBack(starpaks: seq<seq<Byte>>, rs: seq<RpakStreams.Request>, c: Conversion, k: nat, allocation: nat, mip: nat)
    requires RpakStreams.Indexed(starpaks, rs) && RpakStreams.AllRewritten(starpaks, rs, |rs|).Some? && k < |rs|
    requires RpakStreams.Listed(starpaks, rs[k], allocation) && RpakStreams.Separate(starpaks, rs, k, allocation)
    requires c.head.texture.format < FORMATS && c.head.texture.arrays == 1 && mip < c.head.streamed
    requires RpakStreams.RequestOf(starpaks, c) == Some(rs[k])
    ensures var t, r, last := c.head.texture, rs[k], c.head.streamed;
            var at, from := r.offset + t.TiledSize(0, mip), r.offset + t.SourceSize(mip + 1, last);
            var file := RpakStreams.AllRewritten(starpaks, rs, |rs|).value[r.index];
            && at + t.Level(mip).Tiled() <= |file| && from + t.Level(mip).Linear() <= |starpaks[r.index]|
            && Unswizzled(t.Level(mip), file[at..at + t.Level(mip).Tiled()]) ==
               starpaks[r.index][from..from + t.Level(mip).Linear()]
  {
    hide Converted, Unswizzled, Texture.Level, Texture.TiledSize, Texture.SourceSize, RpakStreams.Separate;
    hide RpakStreams.AllRewritten, RpakStreams.Listed;
    var t, r, last := c.head.texture, rs[k], c.head.streamed;
    var source := starpaks[r.index][r.offset..];
    var file := RpakStreams.AllRewritten(starpaks, rs, |rs|).value[r.index];
    RpakStreams.ListedFits(starpaks, r, allocation);
    RpakStreams.BlockStands(starpaks, rs, |rs|, k, allocation);
    MipRecovered(t, source, 0, mip, last);
    var at, n := t.TiledSize(0, mip), t.Level(mip).Tiled();
    var from, m := t.SourceSize(mip + 1, last), t.Level(mip).Linear();
    hide RpakStreams.RequestOf;
    BlockSlice(file, r, allocation, at, n);
    SubSlice(starpaks[r.index], r.offset, |source|, from, m);
    assert starpaks[r.index][r.offset..r.offset + |source|] == source;
  }

  lemma BlockSlice(file: seq<Byte>, r: RpakStreams.Request, allocation: nat, at: nat, n: nat)
    requires |r.data| <= allocation && r.offset + allocation <= |file| && at + n <= |r.data|
    requires file[r.offset..r.offset + allocation] == RpakStreams.Block(r, allocation)
    ensures file[r.offset + at..r.offset + at + n] == r.data[at..at + n]
  {
    SubSlice(file, r.offset, allocation, at, n);
    assert RpakStreams.Block(r, allocation)[at..at + n] == r.data[at..at + n];
  }

  // ---------- The same, file to file ----------

  // Asset i of the archive is a texture to convert, as c says.
  ghost predicate Converts(rpak: seq<Byte>, i: nat, c: Conversion) {
    && Opens(rpak) && WellFormed(Opened(rpak)) && WellFormed(Cleared(Opened(rpak)))
    && var was := Cleared(Opened(rpak));
       i < LayoutOf(was.tables).assets && ExaminedAsset(AssetOf(was, i), was.pages) == Convert(c)
  }

  // Nothing else is written where c's data goes.
  ghost predicate DataFree(rpak: seq<Byte>, c: Conversion)
    requires Opens(rpak) && WellFormed(Cleared(Opened(rpak)))
  {
    forall cs :: RpakAgain.Finds(Cleared(Opened(rpak)), cs) ==> RpakTidy.DataApart(Cleared(Opened(rpak)), cs, c)
  }

  // Reading the output file where its own descriptor of the texture points gives every permanent mip back.
  lemma FileMipReadBack(rpak: seq<Byte>, starpaks: seq<seq<Byte>>, file: seq<Byte>, streams: seq<seq<Byte>>, i: nat,
                        c: Conversion, mip: nat)
    requires ConvertedFiles(rpak, starpaks) == Files(file, streams)
    requires Converts(rpak, i, c) && DataFree(rpak, c) && c.head.streamed <= mip < c.head.Last()
    ensures Opens(file) && LayoutOf(file) == LayoutOf(rpak) && i < LayoutOf(rpak).assets
    ensures MadeFrom(c, Opened(rpak).pages)
    ensures var b := AssetAt(file, LayoutOf(rpak).Asset(i));
            ReadsBack(c, mip, Opened(file), InPage(b.cpuPage, b.cpuOffset), Opened(rpak).pages[c.cpuPage][c.cpuOffset..])
  {
    hide LayoutOf, Opened, Relaid, File, PageSize, PageStart, Stamped, Cleared, ConvertedImage, ConvertedFiles, MadeFrom;
    hide RpakTidy.DataApart, ReadsBack, ExaminedAsset, AssetAt, Conversions;
    var cs, out := OutcomeImage(rpak, starpaks, file, streams);
    OutputStamped(rpak, cs, out);
    OpenedFile(out);
    AssetInFile(out, i);
    ClearedPages(Opened(rpak));
    var was := Cleared(Opened(rpak));
    ExaminedMadeFrom(AssetOf(was, i), was.pages);
    var j := RpakAgain.EachExamined(was, LayoutOf(was.tables).assets, i);
    var to := MipReadBack(was, cs, out, j, mip);
    DataPointer(was, cs, out, i, c);
  }

  lemma ClearedPages(im: Image)
    requires |im.tables| >= HEADER
    ensures Cleared(im).pages == im.pages
  {
  }

  // The output's descriptor leads to where the data went.
  lemma DataPointer(im: Image, cs: seq<Conversion>, out: Image, i: nat, c: Conversion)
    requires RpakKept.Yields(im, cs, out) && i < LayoutOf(im.tables).assets
    requires ExaminedAsset(AssetOf(im, i), im.pages) == Convert(c)
    ensures WellFormed(out) && LayoutOf(out.tables) == LayoutOf(im.tables)
    ensures var b := AssetOf(out, i); MovedPlace(Plans(im, cs), InPage(c.cpuPage, c.cpuOffset)) == Some(InPage(b.cpuPage, b.cpuOffset))
  {
    hide LayoutOf, Relaid, PageSize, AssetAt, ConvertedFrom;
    RpakAgain.DescriptorKept(im, cs, out, i);
    RpakSizes.FewPages(im.tables);
    ConvertedData(AssetOf(im, i), im.pages);
    hide ExaminedAsset;
  }

  lemma ConvertedData(a: Asset, pages: seq<seq<Byte>>)
    requires ExaminedAsset(a, pages).Convert?
    ensures var c := ExaminedAsset(a, pages).conversion;
            c.cpuPage == a.cpuPage < |pages| && c.cpuOffset == a.cpuOffset
  {
  }

  // No other requested block starts inside the one c asks for.
  ghost predicate StreamFree(rpak: seq<Byte>, starpaks: seq<seq<Byte>>, c: Conversion)
    requires Opens(rpak) && WellFormed(Cleared(Opened(rpak)))
    requires c.head.texture.format < FORMATS && RpakStreams.RequestOf(starpaks, c).Some?
  {
    forall cs :: RpakAgain.Finds(Cleared(Opened(rpak)), cs) && RpakStreams.Formatted(cs)
                 && RpakStreams.Requested(starpaks, cs, |cs|).Some? ==>
      RpakStreams.BlockApart(starpaks, RpakStreams.Requested(starpaks, cs, |cs|).value, RpakStreams.RequestOf(starpaks, c).value)
  }

  // What the STARPak files of an outcome are.
  lemma OutcomeStreams(rpak: seq<Byte>, starpaks: seq<seq<Byte>>, file: seq<Byte>, streams: seq<seq<Byte>>, cs: seq<Conversion>)
    requires ConvertedFiles(rpak, starpaks) == Files(file, streams)
    requires Opens(rpak) && WellFormed(Opened(rpak)) && RpakAgain.Finds(Cleared(Opened(rpak)), cs)
    ensures RpakStreams.Formatted(cs)
    ensures cs != [] ==> RpakStreams.Restreamed(starpaks, cs) == Some(streams)
  {
    hide LayoutOf, Opened, Relaid, File, PageSize, PageStart, Stamped, Cleared, Conversions, RpakStreams.Restreamed;
    ConversionsInside(Cleared(Opened(rpak)), LayoutOf(Cleared(Opened(rpak)).tables).assets);
  }

  lemma MadeOnce(c: Conversion, pages: seq<seq<Byte>>)
    requires MadeFrom(c, pages)
    ensures c.head.texture.arrays == 1
  {
  }

  // Every streamed mip can be read back from the output's STARPak where the texture's stream address points.
  lemma FileStreamedReadBack(rpak: seq<Byte>, starpaks: seq<seq<Byte>>, file: seq<Byte>, streams: seq<seq<Byte>>, i: nat,
                             c: Conversion, mip: nat)
    requires ConvertedFiles(rpak, starpaks) == Files(file, streams) && Converts(rpak, i, c) && mip < c.head.streamed
    ensures MadeFrom(c, Opened(rpak).pages) && RpakStreams.RequestOf(starpaks, c).Some?
    ensures |streams| == |starpaks|
    ensures StreamFree(rpak, starpaks, c) ==> StreamReadsBack(starpaks, streams, c, mip)
  {
    hide LayoutOf, Opened, Relaid, File, PageSize, PageStart, Stamped, Cleared, ConvertedImage, ConvertedFiles, MadeFrom;
    hide ExaminedAsset, AssetAt, Conversions, RpakStreams.Requested, RpakStreams.AllRewritten, RpakStreams.BlockApart;
    hide RpakStreams.RequestOf, StreamReadsBack, RpakKept.Yields;
    var cs, out := OutcomeImage(rpak, starpaks, file, streams);
    var was := Cleared(Opened(rpak));
    ClearedPages(Opened(rpak));
    ExaminedMadeFrom(AssetOf(was, i), was.pages);
    MadeOnce(c, was.pages);
    var j := RpakAgain.EachExamined(was, LayoutOf(was.tables).assets, i);
    OutcomeStreams(rpak, starpaks, file, streams, cs);
    StreamedConversion(starpaks, streams, cs, j, mip);
  }

  // The bytes past the larger mips in c's block, with the tiling undone, are the mip's linear bytes in the old block.
  ghost predicate StreamReadsBack(starpaks: seq<seq<Byte>>, streams: seq<seq<Byte>>, c: Conversion, mip: nat)
    requires c.head.texture.format < FORMATS && mip < c.head.streamed
  {
    var index, offset, t, last := c.stream % 4096, c.stream / 4096 * 4096, c.head.texture, c.head.streamed;
    var at, from := offset + t.TiledSize(0, mip), offset + t.SourceSize(mip + 1, last);
    && index < |starpaks| && index < |streams|
    && at + t.Level(mip).Tiled() <= |streams[index]| && from + t.Level(mip).Linear() <= |starpaks[index]|
    && Unswizzled(t.Level(mip), streams[index][at..at + t.Level(mip).Tiled()]) ==
       starpaks[index][from..from + t.Level(mip).Linear()]
  }

  lemma {:induction false} StreamedConversion(starpaks: seq<seq<Byte>>, streams: seq<seq<Byte>>, cs: seq<Conversion>, j: nat, mip: nat)
    requires RpakStreams.Formatted(cs) && RpakStreams.Restreamed(starpaks, cs) == Some(streams)
    requires j < |cs| && mip < cs[j].head.streamed && cs[j].head.texture.arrays == 1
    ensures RpakStreams.RequestOf(starpaks, cs[j]).Some? && |streams| == |starpaks|
    ensures RpakStreams.Requested(starpaks, cs, |cs|).Some?
    ensures RpakStreams.BlockApart(starpaks, RpakStreams.Requested(starpaks, cs, |cs|).value,
                                   RpakStreams.RequestOf(starpaks, cs[j]).value) ==>
            StreamReadsBack(starpaks, streams, cs[j], mip)
  {
    hide RpakStreams.Requested, RpakStreams.AllRewritten, RpakStreams.BlockApart, RpakStreams.Separate, RpakStreams.Listed;
    hide RpakStreams.InOrder, Converted, Unswizzled, Texture.Level, Texture.TiledSize, Texture.SourceSize;
    RpakStreams.RequestedIndexed(starpaks, cs, |cs|);
    RpakStreams.RequestedInOrder(starpaks, cs, |cs|);
    RpakStreams.EachRequested(starpaks, cs, |cs|, j);
    var rs, r := RpakStreams.Requested(starpaks, cs, |cs|).value, RpakStreams.RequestOf(starpaks, cs[j]).value;
    if RpakStreams.BlockApart(starpaks, rs, r) {
      var k :| 0 <= k < |rs| && rs[k] == r;
      var allocation := RpakStreams.AllListed(starpaks, rs, |rs|, k);
      RpakStreams.LaterSeparate(starpaks, rs, k, allocation);
      StreamedMipReadBack(starpaks, rs, cs[j], k, allocation, mip);
    }
  }
}
