// When converting a second time changes nothing.
module RpakSettled {
  import opened Options
  import opened Bits
  import opened RpakBytes
  import opened RpakPages
  import opened RpakImage
  import opened RpakLayout
  import opened RpakRelocate
  import opened RpakSpecs
  import opened RpakConvert
  import opened RpakMoves
  import opened RpakKept
  import opened RpakSizes
  import opened RpakAgain
  import opened RpakLast

  // ---------- What a conversion leaves in a platform byte ----------

  // The conversions take the image through, as far as the marks.
  ghost predicate Relays(im: Image, cs: seq<Conversion>) {
    WellFormed(im) && Agreed(im, Plans(im, cs), cs) && Moving(im, Plans(im, cs)).Some?
  }

  // The last write that lands on the byte at q of the new pages leaves 8: a mark if there is one, else a moved offset,
  // else the rebuilt page.
  ghost predicate LastLeaves8(im: Image, cs: seq<Conversion>, q: Place)
    requires Relays(im, cs) && Fits(Laid(im, Plans(im, cs)), q, 1)
  {
    var plans := Plans(im, cs);
    var laid, refs, ps := Laid(im, plans), Refs(im, plans), HeadPlaces(im, plans, cs);
    var j := LastMark(ps, |ps|, q);
    if j.Some? then MarkLeaves(ps[j.value], cs[j.value].newTotal, q) else
      RefsFit(im, plans);
      var k := LastOffset(laid, plans, refs, |refs|, q);
      if k.Some? then OffsetLeaves(laid, plans, refs, k.value, q) else Reads8(laid, q)
  }

  // The header of asset i, if it is a texture, is left with the PS4 platform.
  ghost predicate LeavesPs4(im: Image, cs: seq<Conversion>, i: nat)
    requires Relays(im, cs) && i < LayoutOf(im.tables).assets
  {
    var a := AssetOf(im, i);
    a.kind == TEXTURE_TYPE ==>
      && MovesInto(Laid(im, Plans(im, cs)), Plans(im, cs), AssetHead(a), HEAD_SIZE)
      && LastLeaves8(im, cs, MovedPlace(Plans(im, cs), AssetHead(a)).value.Plus(28))
  }

  // Every texture is left with the PS4 platform.
  ghost predicate Settles(im: Image, cs: seq<Conversion>)
    requires WellFormed(im)
  {
    cs == [] || (Relays(im, cs) && forall i :: 0 <= i < LayoutOf(im.tables).assets ==> LeavesPs4(im, cs, i))
  }

  lemma LastByte(im: Image, cs: seq<Conversion>, out: Image, q: Place)
    requires Yields(im, cs, out) && q.InPage? && Fits(out, q, 1)
    ensures Relays(im, cs) && Fits(Laid(im, Plans(im, cs)), q, 1)
    ensures Reads8(out, q) <==> LastLeaves8(im, cs, q)
  {
    var moved := Stages(im, cs, out);
    var plans := Plans(im, cs);
    hide Finished, Plans, AllMarked, Laid, MarkLeaves, OffsetLeaves, HeadPlaces, HeadsMove, FieldsMove, AllValid, Small;
    var ps, refs := HeadPlaces(im, plans, cs), Refs(im, plans);
    RefsFit(im, plans);
    FitsSame(Laid(im, plans), out, q, 1);
    FitsSame(Laid(im, plans), moved, q, 1);
    PlacesSame(Laid(im, plans), moved, ps);
    AllMovedByte(Laid(im, plans), plans, refs, |refs|, q);
    AllMarkedByte(moved, ps, Totals(cs), |cs|, q);
    FinishedPages(im, plans, cs, moved);
    PageReads(Headed(im, plans, cs, moved), out, q);
  }

  lemma PageReads(a: Image, b: Image, q: Place)
    requires a.pages == b.pages && q.InPage? && Fits(b, q, 1)
    ensures Fits(a, q, 1) && (Reads8(a, q) <==> Reads8(b, q))
  {
  }

  // ---------- When nothing is left to convert ----------

  // A texture whose header is in place is kept exactly when its platform byte reads 8.
  lemma KeptExactly(a: Asset, pages: seq<seq<Byte>>)
    requires a.kind == TEXTURE_TYPE && HeadInside(a, pages)
    ensures ExaminedAsset(a, pages).Keep? <==> pages[a.headPage][a.headOffset + 28] as nat == PS4_PLATFORM
  {
  }

  lemma AssetSettles(im: Image, cs: seq<Conversion>, out: Image, i: nat)
    requires Yields(im, cs, out) && i < LayoutOf(im.tables).assets
    requires Conversions(im, LayoutOf(im.tables).assets) == Good(cs)
    ensures WellFormed(out) && LayoutOf(out.tables) == LayoutOf(im.tables) && Relays(im, cs)
    ensures ExaminedAsset(AssetOf(out, i), out.pages).Keep? <==> LeavesPs4(im, cs, i)
  {
    var a := AssetOf(im, i);
    DescriptorKept(im, cs, out, i);
    var j := EachExamined(im, LayoutOf(im.tables).assets, i);
    var moved := Stages(im, cs, out);
    hide Relaid, Finished, Moving, LayoutOf, Conversions, AllGrow, Plans, LastLeaves8;
    if a.kind == TEXTURE_TYPE {
      FewPages(im.tables);
      HeaderSettles(im, cs, out, i, AssetOf(out, i));
    }
  }

  lemma HeaderSettles(im: Image, cs: seq<Conversion>, out: Image, i: nat, b: Asset)
    requires Yields(im, cs, out) && Relays(im, cs) && i < LayoutOf(im.tables).assets
    requires AssetOf(im, i).kind == TEXTURE_TYPE && LayoutOf(im.tables).pages < NO_PAGE
    requires !ExaminedAsset(AssetOf(im, i), im.pages).Refuse?
    requires var a := AssetOf(im, i);
             && b.kind == a.kind && b.headSize == a.headSize && b.headPage == a.headPage && b.cpuPage == a.cpuPage
             && (a.headPage != NO_PAGE ==> MapTarget(Plans(im, cs), a.headPage, a.headOffset) == Some(b.headOffset))
    ensures ExaminedAsset(b, out.pages).Keep? <==> LeavesPs4(im, cs, i)
  {
    hide Relaid, Finished, Moving, LayoutOf, AllGrow, Plans, LastLeaves8, ExaminedAsset, AssetAt, MapTarget, MovedPlace;
    var a := AssetOf(im, i);
    HeadStays(im, cs, out, i, a, b);
    KeptExactly(b, out.pages);
    var moved := Stages(im, cs, out);
    hide Agreed, Laid;
    FitsSame(Laid(im, Plans(im, cs)), out, AssetHead(b), HEAD_SIZE);
    LastByte(im, cs, out, AssetHead(b).Plus(28));
  }

  // A well-formed image without the module flag is converted to itself exactly when every texture in it is kept.
  lemma FixedExactly(im: Image)
    requires WellFormed(im) && Flagless(im)
    ensures ConvertedImage(im) == Some(im) <==>
            forall i :: 0 <= i < LayoutOf(im.tables).assets ==> ExaminedAsset(AssetOf(im, i), im.pages).Keep?
  {
    hide LayoutOf, ExaminedAsset, AssetOf, Relaid, Conversions;
    ClearingFlagless(im);
    if forall i :: 0 <= i < LayoutOf(im.tables).assets ==> ExaminedAsset(AssetOf(im, i), im.pages).Keep? {
      Untouched(im);
    } else if ConvertedImage(im) == Some(im) {
      var n := LayoutOf(im.tables).assets;
      var cs := Conversions(im, n).conversions;
      ConversionsGrow(im, n);
      if cs == [] {
        forall i | 0 <= i < n ensures ExaminedAsset(AssetOf(im, i), im.pages).Keep? {
          NoneFound(im, n, i);
        }
      } else {
        LastChanges(im, cs);
      }
    }
  }

  // The last mark leaves its texture with the PS4 platform, so an image with something to convert is not its own
  // conversion.
  lemma LastChanges(im: Image, cs: seq<Conversion>)
    requires WellFormed(im) && Conversions(im, LayoutOf(im.tables).assets) == Good(cs) && cs != []
    ensures !Yields(im, cs, im)
  {
    var j := |cs| - 1;
    hide LayoutOf, ExaminedAsset, AssetOf, Relaid, AllGrow, Conversions;
    var i := SourceOf(im, LayoutOf(im.tables).assets, j);
    FewPages(im.tables);
    if Yields(im, cs, im) {
      DescriptorKept(im, cs, im, i);
      HeadUnmoved(im, cs, AssetOf(im, i), j);
    }
  }

  // The last header to be marked is left with the PS4 platform.
  lemma LastMarkLeaves(im: Image, cs: seq<Conversion>, to: Place)
    requires Relays(im, cs) && cs != [] && MovedPlace(Plans(im, cs), HeadPlace(cs[|cs| - 1])) == Some(to) && to.InPage?
    requires Fits(Laid(im, Plans(im, cs)), to.Plus(28), 1)
    ensures LastLeaves8(im, cs, to.Plus(28))
  {
    hide LayoutOf, Moving, Laid, Plans, MovedPlace, LastOffset, OffsetLeaves, Refs;
    RefsFit(im, Plans(im, cs));
    var ps := HeadPlaces(im, Plans(im, cs), cs);
    assert ps[|cs| - 1] == to;
    assert !ClearOfMarks(to, to.Plus(28), 1);
  }

  lemma LastReads8(im: Image, cs: seq<Conversion>, out: Image, to: Place)
    requires Yields(im, cs, out) && cs != [] && MovedPlace(Plans(im, cs), HeadPlace(cs[|cs| - 1])) == Some(to)
    requires to.InPage? && Fits(out, to.Plus(28), 1)
    ensures Reads8(out, to.Plus(28))
  {
    hide Yields, Plans, MovedPlace, Relays, LastLeaves8, Laid;
    LastByte(im, cs, out, to.Plus(28));
    LastMarkLeaves(im, cs, to);
  }

  lemma HeadUnmoved(im: Image, cs: seq<Conversion>, a: Asset, j: nat)
    requires WellFormed(im) && j == |cs| - 1 && ExaminedAsset(a, im.pages) == Convert(cs[j])
    requires LayoutOf(im.tables).pages < NO_PAGE
    requires a.headPage != NO_PAGE ==> MapTarget(Plans(im, cs), a.headPage, a.headOffset) == Some(a.headOffset)
    ensures !Yields(im, cs, im)
  {
    hide LayoutOf, Yields, AssetAt, Plans, MapTarget;
    ConvertedHead(a, im.pages);
    ConvertedPlatform(a, im.pages);
    hide ExaminedAsset;
    if Yields(im, cs, im) {
      LastReads8(im, cs, im, AssetHead(a));
    }
  }

  lemma ConvertedPlatform(a: Asset, pages: seq<seq<Byte>>)
    requires ExaminedAsset(a, pages).Convert?
    ensures HeadInside(a, pages) && pages[a.headPage][a.headOffset + 28] == 0
  {
  }

  // ---------- The second conversion ----------

  lemma Outcome(im: Image, cs: seq<Conversion>, out: Image)
    requires WellFormed(im) && Finds(Cleared(im), cs) && ConvertedImage(im) == Some(out)
    ensures WellFormed(Cleared(im)) && WellFormed(out) && Flagless(out) && LayoutOf(out.tables) == LayoutOf(Cleared(im).tables)
    ensures if cs == [] then out == Cleared(im) else Yields(Cleared(im), cs, out)
  {
    hide Relaid, LayoutOf, Conversions, AllGrow, PageSize;
    ClearingFlagless(im);
    ConversionsGrow(Cleared(im), LayoutOf(Cleared(im).tables).assets);
    if cs != [] {
      StaysWellFormed(Cleared(im), cs, out);
      FlagsKept(Cleared(im), cs, out);
    }
  }

  lemma NoneLeft(im: Image)
    requires Finds(im, [])
    ensures forall i :: 0 <= i < LayoutOf(im.tables).assets ==> ExaminedAsset(AssetOf(im, i), im.pages).Keep?
  {
    hide LayoutOf, ExaminedAsset, Conversions;
    var n := LayoutOf(im.tables).assets;
    forall i | 0 <= i < n ensures ExaminedAsset(AssetOf(im, i), im.pages).Keep? {
      NoneFound(im, n, i);
    }
  }

  lemma YieldRelays(im: Image, cs: seq<Conversion>, out: Image)
    requires Yields(im, cs, out)
    ensures Relays(im, cs)
  {
    hide Finished, Moving, Agreed, Laid, Relaid;
    var moved := Stages(im, cs, out);
  }

  lemma EachSettles(im: Image, cs: seq<Conversion>, out: Image)
    requires Yields(im, cs, out) && Finds(im, cs)
    requires WellFormed(out) && LayoutOf(out.tables) == LayoutOf(im.tables)
    ensures Relays(im, cs)
    ensures forall i :: 0 <= i < LayoutOf(im.tables).assets ==>
              (ExaminedAsset(AssetOf(out, i), out.pages).Keep? <==> LeavesPs4(im, cs, i))
  {
    YieldRelays(im, cs, out);
    hide LayoutOf, ExaminedAsset, Conversions, Yields, LeavesPs4, Relays;
    forall i | 0 <= i < LayoutOf(im.tables).assets
      ensures ExaminedAsset(AssetOf(out, i), out.pages).Keep? <==> LeavesPs4(im, cs, i)
    {
      AssetSettles(im, cs, out, i);
    }
  }

  // Nothing is left to convert in the output exactly when the conversion settles.
  lemma LeftExactly(im: Image, cs: seq<Conversion>, out: Image)
    requires WellFormed(im) && Finds(Cleared(im), cs) && ConvertedImage(im) == Some(out)
    ensures WellFormed(out) && LayoutOf(out.tables) == LayoutOf(Cleared(im).tables)
    ensures Settles(Cleared(im), cs) <==>
            forall i :: 0 <= i < LayoutOf(out.tables).assets ==> ExaminedAsset(AssetOf(out, i), out.pages).Keep?
  {
    hide Relaid, LayoutOf, Plans, Relays, LeavesPs4, ExaminedAsset, ConvertedImage, Flagless, Yields, Finds, PageSize, Cleared;
    var was := Cleared(im);
    Outcome(im, cs, out);
    if cs == [] {
      NoneLeft(was);
    } else {
      EachSettles(was, cs, out);
    }
  }

  // Converting what was converted changes nothing exactly when the last write on every texture's platform byte is 8.
  lemma SecondExactly(im: Image, cs: seq<Conversion>, out: Image)
    requires WellFormed(im) && Finds(Cleared(im), cs) && ConvertedImage(im) == Some(out)
    ensures WellFormed(out)
    ensures ConvertedImage(out) == Some(out) <==> Settles(Cleared(im), cs)
  {
    Outcome(im, cs, out);
    hide ConvertedImage, Finds, Settles, LayoutOf, Flagless, Yields;
    LeftExactly(im, cs, out);
    FixedExactly(out);
  }

  // Headers apart from each other, from the relocated offsets and from the replaced ranges settle.
  lemma TidySettles(im: Image, cs: seq<Conversion>, out: Image)
    requires WellFormed(im) && Finds(Cleared(im), cs) && ConvertedImage(im) == Some(out) && Tidy(Cleared(im), cs)
    ensures Settles(Cleared(im), cs)
  {
    hide ConvertedImage, Finds, Settles, LayoutOf, Tidy;
    AllDone(im, cs, out);
    LeftExactly(im, cs, out);
  }
}
