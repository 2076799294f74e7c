// Converting a second time changes nothing.
module RpakAgain {
  import opened Options
  import opened Bits
  import opened RpakBytes
  import opened RpakPages
  import opened RpakImage
  import opened RpakLayout
  import opened RpakRelocate
  import opened RpakSpecs
  import opened RpakConvert
  import opened RpakMoves
  import opened RpakKept
  import opened RpakTidy
  import opened RpakSizes

  function AssetHead(a: Asset): Place {
    InPage(a.headPage, a.headOffset)
  }

  // The platform byte of asset i's header, if it is a texture, is cut by no replaced range and only its own mark
  // falls on it.
  ghost predicate PlatformTidy(im: Image, cs: seq<Conversion>, i: nat)
    requires WellFormed(im) && i < LayoutOf(im.tables).assets
  {
    var a := AssetOf(im, i);
    a.kind == TEXTURE_TYPE ==>
      && Whole(im, Plans(im, cs), AssetHead(a), HEAD_SIZE)
      && Unrelocated(im, AssetHead(a).Plus(28), 1)
      && (ExaminedAsset(a, im.pages).Keep? ==> Unmarked(cs, AssetHead(a).Plus(28), 1))
  }

  // No replaced range cuts a relocated field or a texture header, and the headers lie apart from each other and from
  // the relocated offsets.
  ghost predicate Tidy(im: Image, cs: seq<Conversion>)
    requires WellFormed(im)
  {
    && Uncut(im, Plans(im, cs), cs)
    && (forall j :: 0 <= j < |cs| ==> HeadTidy(im, Plans(im, cs), cs, j))
    && forall i :: 0 <= i < LayoutOf(im.tables).assets ==> PlatformTidy(im, cs, i)
  }

  // Every asset is kept as it is or is one of the conversions.
  lemma {:induction false} EachExamined(im: Image, n: nat, i: nat) returns (j: nat)
    requires WellFormed(im) && i < n <= LayoutOf(im.tables).assets && Conversions(im, n).Good?
    ensures var e := ExaminedAsset(AssetOf(im, i), im.pages);
            var cs := Conversions(im, n).conversions;
            e.Keep? || (e.Convert? && j < |cs| && cs[j] == e.conversion)
    decreases n
  {
    hide LayoutOf, ExaminedAsset, AssetOf, WellFormed;
    ConversionsStep(im, n - 1);
    if i < n - 1 {
      j := EachExamined(im, n - 1, i);
    } else {
      j := |Conversions(im, n - 1).conversions|;
    }
  }

  // Every conversion is some asset's.
  lemma {:induction false} SourceOf(im: Image, n: nat, j: nat) returns (i: nat)
    requires WellFormed(im) && n <= LayoutOf(im.tables).assets && Conversions(im, n).Good?
    requires j < |Conversions(im, n).conversions|
    ensures i < n && ExaminedAsset(AssetOf(im, i), im.pages) == Convert(Conversions(im, n).conversions[j])
    decreases n
  {
    hide LayoutOf, ExaminedAsset, AssetOf, WellFormed, Conversions;
    if n == 0 {
      ConversionsStart(im);
    } else {
      ConversionsStep(im, n - 1);
      if j < |Conversions(im, n - 1).conversions| {
        i := SourceOf(im, n - 1, j);
      } else {
        i := n - 1;
      }
    }
  }

  lemma ConvertedHead(a: Asset, pages: seq<seq<Byte>>)
    requires ExaminedAsset(a, pages).Convert?
    ensures HeadPlace(ExaminedAsset(a, pages).conversion) == AssetHead(a)
    ensures a.kind == TEXTURE_TYPE && HeadInside(a, pages)
  {
  }

  // The end of a stretch moves at least as far as its start.
  lemma RoomStays(plan: Plan, offset: nat, n: nat)
    requires plan.Valid() && offset + n <= plan.size && MapOffset(plan.patches, plan.size, offset).Some?
    ensures MapOffset(plan.patches, plan.size, offset).value + n <= plan.NewSize()
  {
    MapDefined(plan.patches, plan.size, offset);
    DeltaGrows(plan.patches, 0, offset, plan.size);
  }

  // What an asset's descriptor reads after the conversion.
  lemma DescriptorKept(im: Image, cs: seq<Conversion>, out: Image, i: nat)
    requires Yields(im, cs, out) && i < LayoutOf(im.tables).assets
    ensures WellFormed(out) && LayoutOf(out.tables) == LayoutOf(im.tables)
    ensures var a, b := AssetOf(im, i), AssetOf(out, i);
            && b.kind == a.kind && b.headSize == a.headSize && b.headPage == a.headPage && b.cpuPage == a.cpuPage
            && (a.headPage != NO_PAGE ==> MapTarget(Plans(im, cs), a.headPage, a.headOffset) == Some(b.headOffset))
            && (a.cpuPage != NO_PAGE ==> MapTarget(Plans(im, cs), a.cpuPage, a.cpuOffset) == Some(b.cpuOffset))
  {
    hide Relaid, AllGrow, MapTarget, Plans, Le;
    StaysWellFormed(im, cs, out);
    AssetKept(im, cs, out, i, false);
    AssetKept(im, cs, out, i, true);
    AssetWordKept(im, cs, out, i, 68);
    AssetWordKept(im, cs, out, i, 60);
    hide LayoutOf, U32, Yields, WellFormed;
  }

  lemma AssetRoom(l: Layout, i: nat, d: nat)
    requires i < l.assets && d <= 68
    ensures l.Asset(i) + d + 4 <= l.End()
  {
  }

  lemma AssetWordKept(im: Image, cs: seq<Conversion>, out: Image, i: nat, d: nat)
    requires Yields(im, cs, out) && i < LayoutOf(im.tables).assets && 32 <= d <= 68
    ensures |out.tables| == |im.tables| && LayoutOf(im.tables).Asset(i) + d + 4 <= |im.tables|
    ensures U32(out.tables, LayoutOf(im.tables).Asset(i) + d) == U32(im.tables, LayoutOf(im.tables).Asset(i) + d)
  {
    hide NoSizeAt, NoOffsetAt, LayoutOf, Relaid, AllGrow, U32, Le, PageSize, Bytes;
    var l := LayoutOf(im.tables);
    AssetRoom(l, i, d);
    AssetUntouched(l, i, d, 4);
    hide Layout.Asset;
    TablesKept(im, cs, out, l.Asset(i) + d, 4);
    SameWord(out, im, l.Asset(i) + d);
  }

  lemma OneByte(im: Image, p: Place)
    requires Fits(im, p, 1)
    ensures Word(im, p, 1) == Holder(im, p)[p.at] as nat
    ensures Bytes(im, p, 1) == [Holder(im, p)[p.at]]
  {
    assert Le(Holder(im, p), p.at + 1, 0) == 0;
  }

  // A converted texture carries the PS4 platform at its new header.
  lemma MarkedPlatform(im: Image, cs: seq<Conversion>, out: Image, j: nat, to: Place)
    requires Yields(im, cs, out) && Tidy(im, cs) && j < |cs| && MovedPlace(Plans(im, cs), HeadPlace(cs[j])) == Some(to)
    requires to.InPage?
    ensures Fits(out, to, HEAD_SIZE) && out.pages[to.page][to.at + 28] as nat == PS4_PLATFORM
  {
    hide Relaid, AllGrow, Plans, MovedPlace, Word;
    HeadKept(im, cs, out, j);
    OneByte(out, to.Plus(28));
  }

  lemma ByteMoved(im: Image, out: Image, h: Place, to: Place)
    requires h.InPage? && to.InPage? && Fits(im, h.Plus(28), 1) && Fits(out, to.Plus(28), 1)
    requires Bytes(out, to.Plus(28), 1) == Bytes(im, h.Plus(28), 1)
    ensures out.pages[to.page][to.at + 28] == im.pages[h.page][h.at + 28]
  {
    OneByte(out, to.Plus(28));
    OneByte(im, h.Plus(28));
  }

  // A texture already in the PS4 layout keeps its platform.
  lemma KeptPlatform(im: Image, cs: seq<Conversion>, out: Image, h: Place, to: Place)
    requires Yields(im, cs, out) && Uncut(im, Plans(im, cs), cs) && MovedPlace(Plans(im, cs), h) == Some(to)
    requires h.InPage? && to.InPage? && Whole(im, Plans(im, cs), h, HEAD_SIZE) && Unrelocated(im, h.Plus(28), 1) && Unmarked(cs, h.Plus(28), 1)
    ensures Fits(out, to.Plus(28), 1) && out.pages[to.page][to.at + 28] == im.pages[h.page][h.at + 28]
  {
    hide Relaid, Plans, Word, ClearOfMarks, Finished, Moving, Laid, Uncut, Unmarked, Unrelocated, MovedPlace, FieldsMove, HeadsMove;
    var moved := Stages(im, cs, out);
    PlusMoves(im, Plans(im, cs), h, HEAD_SIZE, 28);
    RpakMoves.WholeInside(im, Plans(im, cs), h, HEAD_SIZE, 28, 1);
    StretchKept(im, cs, out, h.Plus(28), 1);
    hide Yields, AllValid, Planned;
    ByteMoved(im, out, h, to);
  }

  // After the conversion there is nothing left to convert in asset i.
  lemma AssetDone(im: Image, cs: seq<Conversion>, out: Image, i: nat)
    requires Yields(im, cs, out) && Tidy(im, cs) && i < LayoutOf(im.tables).assets
    requires Conversions(im, LayoutOf(im.tables).assets) == Good(cs)
    ensures WellFormed(out) && LayoutOf(out.tables) == LayoutOf(im.tables)
    ensures ExaminedAsset(AssetOf(out, i), out.pages).Keep?
  {
    var a := AssetOf(im, i);
    DescriptorKept(im, cs, out, i);
    if a.kind == TEXTURE_TYPE {
      FewPages(im.tables);
      TextureDone(im, cs, out, i, a, AssetOf(out, i));
    }
  }

  lemma KeptIsPs4(a: Asset, pages: seq<seq<Byte>>)
    requires a.kind == TEXTURE_TYPE && ExaminedAsset(a, pages).Keep?
    ensures HeadInside(a, pages) && pages[a.headPage][a.headOffset + 28] as nat == PS4_PLATFORM
  {
  }

  lemma Ps4IsKept(a: Asset, pages: seq<seq<Byte>>)
    requires HeadInside(a, pages) && pages[a.headPage][a.headOffset + 28] as nat == PS4_PLATFORM
    ensures ExaminedAsset(a, pages).Keep?
  {
  }

  lemma KeptCase(im: Image, cs: seq<Conversion>, out: Image, a: Asset, b: Asset)
    requires Yields(im, cs, out) && Uncut(im, Plans(im, cs), cs)
    requires a.kind == TEXTURE_TYPE && ExaminedAsset(a, im.pages).Keep?
    requires Whole(im, Plans(im, cs), AssetHead(a), HEAD_SIZE)
    requires Unrelocated(im, AssetHead(a).Plus(28), 1) && Unmarked(cs, AssetHead(a).Plus(28), 1)
    requires HeadInside(b, out.pages) && MovedPlace(Plans(im, cs), AssetHead(a)) == Some(AssetHead(b))
    ensures ExaminedAsset(b, out.pages).Keep?
  {
    hide Relaid, Plans, LayoutOf, MovedPlace, Uncut, Unrelocated, Unmarked, Whole, AllGrow, ExaminedAsset;
    KeptIsPs4(a, im.pages);
    KeptPlatform(im, cs, out, AssetHead(a), AssetHead(b));
    Ps4IsKept(b, out.pages);
  }

  lemma ConvertedCase(im: Image, cs: seq<Conversion>, out: Image, a: Asset, b: Asset, j: nat)
    requires Yields(im, cs, out) && Tidy(im, cs)
    requires j < |cs| && ExaminedAsset(a, im.pages) == Convert(cs[j])
    requires HeadInside(b, out.pages) && MovedPlace(Plans(im, cs), AssetHead(a)) == Some(AssetHead(b))
    ensures ExaminedAsset(b, out.pages).Keep?
  {
    hide Relaid, Plans, LayoutOf, MovedPlace, ExaminedAsset, Tidy;
    ConvertedHead(a, im.pages);
    MarkedPlatform(im, cs, out, j, AssetHead(b));
    Ps4IsKept(b, out.pages);
  }

  lemma PlatformFacts(im: Image, cs: seq<Conversion>, i: nat)
    requires WellFormed(im) && i < LayoutOf(im.tables).assets && PlatformTidy(im, cs, i)
    requires AssetOf(im, i).kind == TEXTURE_TYPE && ExaminedAsset(AssetOf(im, i), im.pages).Keep?
    ensures var h := AssetHead(AssetOf(im, i));
            && Whole(im, Plans(im, cs), h, HEAD_SIZE) && Unrelocated(im, h.Plus(28), 1) && Unmarked(cs, h.Plus(28), 1)
  {
  }

  lemma TextureDone(im: Image, cs: seq<Conversion>, out: Image, i: nat, a: Asset, b: Asset)
    requires Yields(im, cs, out) && Tidy(im, cs) && i < LayoutOf(im.tables).assets
    requires Conversions(im, LayoutOf(im.tables).assets) == Good(cs)
    requires a == AssetOf(im, i) && a.kind == TEXTURE_TYPE && LayoutOf(im.tables).pages < NO_PAGE
    requires b.kind == a.kind && b.headSize == a.headSize && b.headPage == a.headPage && b.cpuPage == a.cpuPage
    requires a.headPage != NO_PAGE ==> MapTarget(Plans(im, cs), a.headPage, a.headOffset) == Some(b.headOffset)
    ensures ExaminedAsset(b, out.pages).Keep?
  {
    var j := EachExamined(im, LayoutOf(im.tables).assets, i);
    hide ExaminedAsset, Plans, LayoutOf, MapTarget, Relaid, WellFormed, Conversions, PlatformTidy, Uncut, FieldTidy, HeadTidy;
    HeadStays(im, cs, out, i, a, b);
    assert PlatformTidy(im, cs, i);
    if ExaminedAsset(a, im.pages).Keep? {
      PlatformFacts(im, cs, i);
      KeptCase(im, cs, out, a, b);
    } else {
      ConvertedCase(im, cs, out, a, b, j);
    }
  }

  lemma HeadStays(im: Image, cs: seq<Conversion>, out: Image, i: nat, a: Asset, b: Asset)
    requires Yields(im, cs, out) && i < LayoutOf(im.tables).assets && a == AssetOf(im, i)
    requires a.kind == TEXTURE_TYPE && LayoutOf(im.tables).pages < NO_PAGE && !ExaminedAsset(a, im.pages).Refuse?
    requires b.kind == a.kind && b.headSize == a.headSize && b.headPage == a.headPage && b.cpuPage == a.cpuPage
    requires a.headPage != NO_PAGE ==> MapTarget(Plans(im, cs), a.headPage, a.headOffset) == Some(b.headOffset)
    ensures HeadInside(a, im.pages) && HeadInside(b, out.pages)
    ensures MovedPlace(Plans(im, cs), AssetHead(a)) == Some(AssetHead(b))
  {
    hide Relaid, Finished, Moving, LayoutOf, ConvertedFrom, AssetAt;
    var moved := Stages(im, cs, out);
    RoomStays(Plans(im, cs)[a.headPage], a.headOffset, a.headSize);
    PageSizeKept(im, cs, out, a.headPage);
    StaysWellFormed(im, cs, out);
  }

  lemma {:induction false} NothingLeft(im: Image, n: nat)
    requires WellFormed(im) && n <= LayoutOf(im.tables).assets
    requires forall i :: 0 <= i < n ==> ExaminedAsset(AssetOf(im, i), im.pages).Keep?
    ensures Conversions(im, n) == Good([])
    decreases n
  {
    hide LayoutOf, ExaminedAsset, AssetOf;
    if n > 0 {
      NothingLeft(im, n - 1);
    }
  }

  // No module flag is set.
  predicate Flagless(im: Image) {
    |im.tables| >= HEADER && im.tables[6..8] == [0, 0]
  }

  lemma ClearingFlagless(im: Image)
    requires |im.tables| >= HEADER
    ensures Flagless(Cleared(im))
    ensures Flagless(im) ==> Cleared(im) == im
  {
    var t := im.tables;
    assert LeBytes(0, 2) == [0, 0] by {
      assert LeBytes(0, 1) == [0] by {
        assert LeBytes(0, 0) == [];
      }
    }
    assert Put(t, 6, 2, 0) == t[..6] + [0, 0] + t[8..];
    assert t == t[..6] + t[6..8] + t[8..];
  }

  // An image with nothing to convert is left alone.
  lemma Untouched(im: Image)
    requires WellFormed(im) && Flagless(im)
    requires forall i :: 0 <= i < LayoutOf(im.tables).assets ==> ExaminedAsset(AssetOf(im, i), im.pages).Keep?
    ensures ConvertedImage(im) == Some(im)
  {
    ClearingFlagless(im);
    NothingLeft(im, LayoutOf(im.tables).assets);
  }

  // The conversions found in a cleared image.
  ghost predicate Finds(im: Image, cs: seq<Conversion>) {
    WellFormed(im) && Conversions(im, LayoutOf(im.tables).assets) == Good(cs)
  }

  lemma {:induction false} NoneFound(im: Image, n: nat, i: nat)
    requires WellFormed(im) && i < n <= LayoutOf(im.tables).assets && Conversions(im, n) == Good([])
    ensures ExaminedAsset(AssetOf(im, i), im.pages).Keep?
  {
    var j := EachExamined(im, n, i);
  }

  // All assets of a converted image are done with.
  lemma AllDone(im: Image, cs: seq<Conversion>, out: Image)
    requires WellFormed(im) && Finds(Cleared(im), cs) && ConvertedImage(im) == Some(out) && Tidy(Cleared(im), cs)
    ensures WellFormed(out) && Flagless(out)
    ensures forall i :: 0 <= i < LayoutOf(out.tables).assets ==> ExaminedAsset(AssetOf(out, i), out.pages).Keep?
  {
    var cleared := Cleared(im);
    var l := LayoutOf(cleared.tables);
    ClearingFlagless(im);
    if cs == [] {
      forall i | 0 <= i < l.assets ensures ExaminedAsset(AssetOf(cleared, i), cleared.pages).Keep? {
        NoneFound(cleared, l.assets, i);
      }
    } else {
      ConversionsGrow(cleared, l.assets);
      hide Relaid, LayoutOf, Conversions, Tidy, AllGrow;
      StaysWellFormed(cleared, cs, out);
      FlagsKept(cleared, cs, out);
      forall i | 0 <= i < l.assets ensures ExaminedAsset(AssetOf(out, i), out.pages).Keep? {
        AssetDone(cleared, cs, out, i);
      }
    }
  }

  lemma FlagsKept(im: Image, cs: seq<Conversion>, out: Image)
    requires Yields(im, cs, out) && Flagless(im)
    ensures Flagless(out)
  {
    HeaderUntouched(LayoutOf(im.tables), 6, 2);
    hide Relaid, LayoutOf, NoSizeAt, NoOffsetAt;
    TablesKept(im, cs, out, 6, 2);
  }

  // Converting what was converted changes nothing.
  lemma ConvertedTwice(im: Image, cs: seq<Conversion>, out: Image)
    requires WellFormed(im) && Finds(Cleared(im), cs) && ConvertedImage(im) == Some(out) && Tidy(Cleared(im), cs)
    ensures WellFormed(out) && ConvertedImage(out) == Some(out)
  {
    AllDone(im, cs, out);
    Untouched(out);
  }
}
