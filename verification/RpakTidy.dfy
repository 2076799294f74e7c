// What a conversion keeps inside the pages, when the relocated fields and the texture headers lie apart from each
// other and from the replaced ranges.
module RpakTidy {
  import opened Options
  import opened RpakBytes
  import opened RpakMips
  import opened RpakPages
  import opened RpakImage
  import opened RpakLayout
  import opened RpakRelocate
  import opened RpakSpecs
  import opened RpakConvert
  import opened RpakMoves
  import opened RpakKept

  // No relocated field and no converted header is cut by a replaced range.
  ghost predicate Uncut(im: Image, plans: seq<Plan>, cs: seq<Conversion>)
    requires WellFormed(im)
  {
    && (forall i :: 0 <= i < LayoutOf(im.tables).pointers ==> Whole(im, plans, OldField(im, i).place, 8))
    && forall j :: 0 <= j < |cs| ==> Whole(im, plans, HeadPlace(cs[j]), HEAD_SIZE)
  }

  // No mark falls on the n bytes at p.
  ghost predicate Unmarked(cs: seq<Conversion>, p: Place, n: nat) {
    forall j :: 0 <= j < |cs| ==> ClearOfMarks(HeadPlace(cs[j]), p, n)
  }

  // No relocated offset falls on the n bytes at p.
  ghost predicate Unrelocated(im: Image, p: Place, n: nat)
    requires WellFormed(im)
  {
    forall i :: 0 <= i < LayoutOf(im.tables).pointers ==> Apart(OldField(im, i).place.Plus(4), 4, p, n)
  }

  // A whole stretch clear of a header's marks is clear of them in the new pages too.
  lemma StillClear(im: Image, plans: seq<Plan>, h: Place, p: Place, n: nat)
    requires Planned(im, plans) && AllValid(plans) && n > 0
    requires Whole(im, plans, h, HEAD_SIZE) && Whole(im, plans, p, n) && ClearOfMarks(h, p, n)
    ensures MovedPlace(plans, h).Some? && MovedPlace(plans, p).Some?
    ensures ClearOfMarks(MovedPlace(plans, h).value, MovedPlace(plans, p).value, n)
  {
    hide MovedPlace, Apart, Planned, AllValid;
    PlusMoves(im, plans, h, HEAD_SIZE, 24);
    PlusMoves(im, plans, h, HEAD_SIZE, 32);
    RpakMoves.WholeInside(im, plans, h, HEAD_SIZE, 24, 5);
    RpakMoves.WholeInside(im, plans, h, HEAD_SIZE, 32, 1);
    hide Whole;
    StillApart(im, plans, h.Plus(24), 5, p, n);
    StillApart(im, plans, h.Plus(32), 1, p, n);
  }

  // From the moved image to the end, only the marks change a page.
  lemma HeadedElsewhere(im: Image, plans: seq<Plan>, cs: seq<Conversion>, moved: Image, p: Place, n: nat)
    requires WellFormed(im) && Planned(im, plans) && HeadsMove(im, plans, cs)
    requires SameShape(Laid(im, plans), moved) && p.InPage? && Fits(moved, p, n)
    requires forall j :: 0 <= j < |cs| ==> ClearOfMarks(HeadPlaces(im, plans, cs)[j], p, n)
    ensures Fits(Finished(im, plans, cs, moved), p, n)
    ensures Bytes(Finished(im, plans, cs, moved), p, n) == Bytes(moved, p, n)
  {
    hide Laid, Finished, AllMarked, ClearOfMarks, HeadPlaces, HeadsMove, Totals;
    var ps := HeadPlaces(im, plans, cs);
    PlacesSame(Laid(im, plans), moved, ps);
    AllMarkedElsewhere(moved, ps, Totals(cs), |cs|, p, n);
    FinishedPages(im, plans, cs, moved);
    SamePages(Headed(im, plans, cs, moved), Finished(im, plans, cs, moved), moved, p, n);
  }

  lemma SamePages(a: Image, b: Image, c: Image, p: Place, n: nat)
    requires a.pages == b.pages && p.InPage? && Fits(a, p, n) && Fits(c, p, n) && Bytes(a, p, n) == Bytes(c, p, n)
    ensures Fits(b, p, n) && Bytes(b, p, n) == Bytes(c, p, n)
  {
  }

  // A stretch of a page that nothing rewrites keeps its bytes, wherever it goes.
  lemma StretchKept(im: Image, cs: seq<Conversion>, out: Image, p: Place, n: nat)
    requires Yields(im, cs, out) && Uncut(im, Plans(im, cs), cs)
    requires n > 0 && Whole(im, Plans(im, cs), p, n) && Unmarked(cs, p, n) && Unrelocated(im, p, n)
    ensures MovesInto(out, Plans(im, cs), p, n)
    ensures Bytes(out, MovedPlace(Plans(im, cs), p).value, n) == Bytes(im, p, n)
  {
    var moved := Stages(im, cs, out);
    var plans := Plans(im, cs);
    hide Laid, Finished, Plans, AllValid, Small;
    WholeMoves(im, plans, p, n);
    var to := MovedPlace(plans, p).value;
    RefsClear(im, cs, plans, p, n);
    RefsFit(im, plans);
    AllMovedElsewhere(Laid(im, plans), plans, Refs(im, plans), |Refs(im, plans)|, to, n);
    HeadsClear(im, cs, plans, p, n);
    FitsSame(Laid(im, plans), moved, to, n);
    HeadedElsewhere(im, plans, cs, moved, to, n);
  }

  // The new places of the marks are clear of the new place of p.
  lemma HeadsClear(im: Image, cs: seq<Conversion>, plans: seq<Plan>, p: Place, n: nat)
    requires WellFormed(im) && Planned(im, plans) && AllValid(plans) && HeadsMove(im, plans, cs)
    requires Uncut(im, plans, cs) && n > 0 && Whole(im, plans, p, n) && Unmarked(cs, p, n)
    ensures MovedPlace(plans, p).Some?
    ensures forall j :: 0 <= j < |cs| ==> ClearOfMarks(HeadPlaces(im, plans, cs)[j], MovedPlace(plans, p).value, n)
  {
    hide Laid, Whole, MovedPlace, ClearOfMarks;
    WholeMoves(im, plans, p, n);
    forall j | 0 <= j < |cs| ensures ClearOfMarks(HeadPlaces(im, plans, cs)[j], MovedPlace(plans, p).value, n) {
      StillClear(im, plans, HeadPlace(cs[j]), p, n);
    }
  }

  // The new places of the relocated offsets are clear of the new place of p.
  lemma RefsClear(im: Image, cs: seq<Conversion>, plans: seq<Plan>, p: Place, n: nat)
    requires WellFormed(im) && Planned(im, plans) && AllValid(plans) && FieldsMove(im, plans)
    requires Uncut(im, plans, cs) && n > 0 && Whole(im, plans, p, n) && Unrelocated(im, p, n)
    ensures MovedPlace(plans, p).Some?
    ensures forall k :: 0 <= k < |Refs(im, plans)| ==> Apart(Refs(im, plans)[k].place.Plus(4), 4, MovedPlace(plans, p).value, n)
  {
    WholeMoves(im, plans, p, n);
    hide Laid, Whole, MovedPlace, RefAt, IsSpot, RefCount;
    var to, refs := MovedPlace(plans, p).value, Refs(im, plans);
    forall k | 0 <= k < |refs| ensures Apart(refs[k].place.Plus(4), 4, to, n) {
      SpotRef(im, plans, k);
      if !IsSpot(LayoutOf(im.tables), k) {
        FieldOf(LayoutOf(im.tables), k);
        FieldClear(im, plans, k / 2, p, n);
        FieldRef(im, plans, k / 2);
      }
    }
  }

  lemma FieldOf(l: Layout, k: nat)
    requires k < RefCount(l) && !IsSpot(l, k)
    ensures k / 2 < l.pointers && 2 * (k / 2) + 1 == k
  {
  }

  lemma FieldClear(im: Image, plans: seq<Plan>, i: nat, p: Place, n: nat)
    requires WellFormed(im) && Planned(im, plans) && AllValid(plans)
    requires i < LayoutOf(im.tables).pointers && Whole(im, plans, OldField(im, i).place, 8)
    requires n > 0 && Whole(im, plans, p, n) && Apart(OldField(im, i).place.Plus(4), 4, p, n)
    ensures MovedPlace(plans, OldField(im, i).place).Some? && MovedPlace(plans, p).Some?
    ensures Apart(NewField(im, plans, i).place.Plus(4), 4, MovedPlace(plans, p).value, n)
  {
    hide MovedPlace, LayoutOf, Planned, AllValid;
    var f := OldField(im, i).place;
    hide OldField;
    PlusMoves(im, plans, f, 8, 4);
    RpakMoves.WholeInside(im, plans, f, 8, 4, 4);
    StillApart(im, plans, f.Plus(4), 4, p, n);
  }

  // ---------- The fields that pointer descriptors name ----------

  // The pointer stored in page data reads, at its new place, the page it read and where its old target went.
  ghost predicate LeadsOn(before: Image, was: Reference, after: Image, now: Reference, plans: seq<Plan>)
    requires was.Fits(before) && now.Fits(after) && was.optional == now.optional
  {
    && now.Page(after) == was.Page(before)
    && if was.Absent(before) then now.Offset(after) == was.Offset(before)
       else MapTarget(plans, was.Page(before), was.Offset(before)) == Some(now.Offset(after))
  }

  lemma ReferenceMoved(a: Image, r: Reference, b: Image, s: Reference)
    requires r.Fits(a) && s.Fits(b) && Bytes(a, r.place, 8) == Bytes(b, s.place, 8)
    ensures r.Page(a) == s.Page(b) && r.Offset(a) == s.Offset(b)
  {
    hide Word, Bytes;
    WordSame(a, r.place, b, s.place, 8, 0, 4);
    WordSame(a, r.place, b, s.place, 8, 4, 4);
    Words(a, r);
    Words(b, s);
  }

  lemma Words(im: Image, r: Reference)
    requires r.Fits(im)
    ensures r.Page(im) == Word(im, r.place.Plus(0), 4) && r.Offset(im) == Word(im, r.place.Plus(4), 4)
  {
  }

  lemma FieldKept(im: Image, cs: seq<Conversion>, out: Image, i: nat)
    requires Yields(im, cs, out) && i < LayoutOf(im.tables).pointers
    requires Uncut(im, Plans(im, cs), cs) && FieldTidy(im, Plans(im, cs), i) && Unmarked(cs, OldField(im, i).place, 8)
    ensures OldField(im, i).Fits(im) && MovedPlace(Plans(im, cs), OldField(im, i).place).Some?
    ensures NewField(im, Plans(im, cs), i).Fits(out)
    ensures LeadsOn(im, OldField(im, i), out, NewField(im, Plans(im, cs), i), Plans(im, cs))
  {
    var moved := Stages(im, cs, out);
    var plans := Plans(im, cs);
    hide Laid, Finished, Plans, Apart, Whole, Moved;
    FieldMoved(im, cs, plans, moved, i);
    var r := NewField(im, plans, i);
    HeadsClear(im, cs, plans, OldField(im, i).place, 8);
    WholeFits(im, plans, OldField(im, i).place, 8);
    hide OldField, LayoutOf;
    FitsSame(Laid(im, plans), moved, r.place, 8);
    HeadedElsewhere(im, plans, cs, moved, r.place, 8);
    ReferenceMoved(out, r, moved, r);
  }

  lemma WholeFits(im: Image, plans: seq<Plan>, p: Place, n: nat)
    requires Whole(im, plans, p, n)
    ensures Fits(im, p, n)
  {
  }

  // The same after the references are moved.
  lemma FieldMoved(im: Image, cs: seq<Conversion>, plans: seq<Plan>, moved: Image, i: nat)
    requires WellFormed(im) && i < LayoutOf(im.tables).pointers && Agreed(im, plans, cs)
    requires AllValid(plans) && Small(plans) && Moving(im, plans) == Some(moved) && FieldTidy(im, plans, i)
    ensures OldField(im, i).Fits(im) && MovedPlace(plans, OldField(im, i).place).Some?
    ensures NewField(im, plans, i).place.InPage? && NewField(im, plans, i).Fits(moved)
    ensures LeadsOn(im, OldField(im, i), moved, NewField(im, plans, i), plans)
  {
    var refs, k, laid, f := Refs(im, plans), 2 * i + 1, Laid(im, plans), OldField(im, i);
    RefCounts(LayoutOf(im.tables), i);
    hide Moved, Apart, LayoutOf, RefAt, OldField, MovedPlace, Laid, RefCount;
    FieldRef(im, plans, i);
    FieldAlone(im, plans, i);
    RefsFit(im, plans);
    WholeMoves(im, plans, f.place, 8);
    AllLead(laid, plans, refs, |refs|, k);
    WholeFits(im, plans, f.place, 8);
    hide FieldTidy, Whole, Agreed, Bytes;
    ReferenceMoved(laid, refs[k], im, f);
  }

  lemma RefCounts(l: Layout, i: nat)
    requires i < l.pointers
    ensures 2 * i + 1 < RefCount(l)
  {
  }

  // ---------- Texture headers ----------

  // No replaced range cuts header j or a later one, and no later header's marks touch it.
  ghost predicate HeadTidy(im: Image, plans: seq<Plan>, cs: seq<Conversion>, j: nat)
    requires j < |cs|
  {
    && Whole(im, plans, HeadPlace(cs[j]), HEAD_SIZE)
    && forall i :: j < i < |cs| ==>
         Whole(im, plans, HeadPlace(cs[i]), HEAD_SIZE) && ClearOfMarks(HeadPlace(cs[i]), HeadPlace(cs[j]).Plus(24), 9)
  }

  // Every converted texture's header reads so at its new place.
  lemma HeadKept(im: Image, cs: seq<Conversion>, out: Image, j: nat)
    requires Yields(im, cs, out) && j < |cs| && HeadTidy(im, Plans(im, cs), cs, j)
    ensures MovesInto(out, Plans(im, cs), HeadPlace(cs[j]), HEAD_SIZE)
    ensures HeadReads(out, MovedPlace(Plans(im, cs), HeadPlace(cs[j])).value, cs[j].newTotal)
  {
    var moved := Stages(im, cs, out);
    var plans := Plans(im, cs);
    hide Laid, Finished, Plans, HeadReads, HeadTidy, Headed;
    HeadHeaded(im, cs, plans, moved, j);
    FinishedPages(im, plans, cs, moved);
    SamePagesHead(Headed(im, plans, cs, moved), out, MovedPlace(plans, HeadPlace(cs[j])).value, cs[j].newTotal);
  }

  lemma HeadHeaded(im: Image, cs: seq<Conversion>, plans: seq<Plan>, moved: Image, j: nat)
    requires WellFormed(im) && Agreed(im, plans, cs) && AllValid(plans) && SameShape(Laid(im, plans), moved)
    requires j < |cs| && HeadTidy(im, plans, cs, j)
    ensures MovedPlace(plans, HeadPlace(cs[j])).Some? && MovedPlace(plans, HeadPlace(cs[j])).value.InPage?
    ensures HeadReads(Headed(im, plans, cs, moved), MovedPlace(plans, HeadPlace(cs[j])).value, cs[j].newTotal)
  {
    hide Laid, HeadReads, HeadsMove, MovedPlace, ClearOfMarks;
    var ps := HeadPlaces(im, plans, cs);
    PlacesSame(Laid(im, plans), moved, ps);
    forall i | j < i < |cs| ensures ClearOfMarks(ps[i], ps[j].Plus(24), 9) {
      HeadApart(im, cs, plans, i, j);
    }
    WholeMoves(im, plans, HeadPlace(cs[j]), HEAD_SIZE);
    hide HeadTidy, HeadPlaces;
    AllMarkedRead(moved, ps, Totals(cs), |cs|, j);
  }

  lemma SamePagesHead(a: Image, b: Image, h: Place, total: nat)
    requires a.pages == b.pages && h.InPage? && HeadReads(a, h, total)
    ensures Fits(b, h, HEAD_SIZE) && HeadReads(b, h, total)
  {
  }

  lemma HeadApart(im: Image, cs: seq<Conversion>, plans: seq<Plan>, i: nat, j: nat)
    requires WellFormed(im) && Planned(im, plans) && AllValid(plans) && HeadsMove(im, plans, cs)
    requires j < i < |cs| && HeadTidy(im, plans, cs, j)
    ensures HeadPlaces(im, plans, cs)[j].InPage?
    ensures ClearOfMarks(HeadPlaces(im, plans, cs)[i], HeadPlaces(im, plans, cs)[j].Plus(24), 9)
  {
    hide Laid, Whole, ClearOfMarks, MovedPlace;
    var h := HeadPlace(cs[j]);
    WholeMoves(im, plans, h, HEAD_SIZE);
    PlusMoves(im, plans, h, HEAD_SIZE, 24);
    RpakMoves.WholeInside(im, plans, h, HEAD_SIZE, 24, 9);
    StillClear(im, plans, HeadPlace(cs[i]), h.Plus(24), 9);
  }

  // ---------- Texture data ----------

  lemma HeadsBesideData(im: Image, cs: seq<Conversion>, plans: seq<Plan>, page: nat, n: nat, to: Place, size: nat)
    requires WellFormed(im) && Planned(im, plans) && AllValid(plans) && HeadsMove(im, plans, cs) && Uncut(im, plans, cs)
    requires DataPlace(plans, page, n, to, size)
    ensures forall j :: 0 <= j < |cs| ==> ClearOfMarks(HeadPlaces(im, plans, cs)[j], to, size)
  {
    hide Laid, MovedPlace, ClearOfMarks, Whole, DataPlace;
    forall j | 0 <= j < |cs| ensures ClearOfMarks(HeadPlaces(im, plans, cs)[j], to, size) {
      var h := HeadPlace(cs[j]);
      WholeMoves(im, plans, h, HEAD_SIZE);
      WholeBeside(im, plans, h, HEAD_SIZE, page, n, to, size);
      MarksInside(MovedPlace(plans, h).value, to, size);
    }
  }

  lemma MarksInside(h: Place, p: Place, n: nat)
    requires Apart(h, HEAD_SIZE, p, n)
    ensures ClearOfMarks(h, p, n)
  {
  }

  lemma OffsetInside(r: Place, p: Place, n: nat)
    requires Apart(r, 8, p, n)
    ensures Apart(r.Plus(4), 4, p, n)
  {
  }

  lemma RefsBesideData(im: Image, cs: seq<Conversion>, plans: seq<Plan>, page: nat, n: nat, to: Place, size: nat)
    requires WellFormed(im) && Planned(im, plans) && AllValid(plans) && FieldsMove(im, plans) && Uncut(im, plans, cs)
    requires DataPlace(plans, page, n, to, size)
    ensures forall k :: 0 <= k < |Refs(im, plans)| ==> Apart(Refs(im, plans)[k].place.Plus(4), 4, to, size)
  {
    hide Laid, MovedPlace, Whole, RefAt, IsSpot, RefCount;
    var refs := Refs(im, plans);
    forall k | 0 <= k < |refs| ensures Apart(refs[k].place.Plus(4), 4, to, size) {
      SpotRef(im, plans, k);
      if !IsSpot(LayoutOf(im.tables), k) {
        FieldOf(LayoutOf(im.tables), k);
        FieldRef(im, plans, k / 2);
        WholeBeside(im, plans, OldField(im, k / 2).place, 8, page, n, to, size);
        OffsetInside(refs[k].place, to, size);
      }
    }
  }

  // The replacement of the n-th range of a page stands at `to`.
  ghost predicate DataPlace(plans: seq<Plan>, page: nat, n: nat, to: Place, size: nat) {
    && to.InPage? && page < |plans| && n < |plans[page].patches| && size == |plans[page].patches[n].data|
    && MovedPlace(plans, InPage(page, plans[page].patches[n].start)) == Some(to)
  }

  lemma WholeBeside(im: Image, plans: seq<Plan>, p: Place, m: nat, page: nat, n: nat, to: Place, size: nat)
    requires Planned(im, plans) && AllValid(plans) && m > 0 && Whole(im, plans, p, m)
    requires DataPlace(plans, page, n, to, size)
    ensures MovedPlace(plans, p).Some? && Apart(MovedPlace(plans, p).value, m, to, size)
  {
    WholeMoves(im, plans, p, m);
    if p.page == page {
      BesideData(plans[page].patches, plans[page].size, n, p.at, m);
    }
  }

  lemma LaidData(im: Image, plans: seq<Plan>, page: nat, n: nat) returns (to: Place)
    requires Planned(im, plans) && AllValid(plans) && page < |plans| && n < |plans[page].patches|
    ensures var data := plans[page].patches[n].data;
            && to.InPage? && DataPlace(plans, page, n, to, |data|)
            && Fits(Laid(im, plans), to, |data|) && Bytes(Laid(im, plans), to, |data|) == data
  {
    DataSlice(im.pages[page], plans[page].patches, n);
    to := MovedPlace(plans, InPage(page, plans[page].patches[n].start)).value;
  }

  // No moved offset and no mark is written over the n bytes at `to` of the new pages.
  ghost predicate Unwritten(im: Image, cs: seq<Conversion>, to: Place, n: nat)
    requires WellFormed(im) && Agreed(im, Plans(im, cs), cs)
  {
    var plans := Plans(im, cs);
    && (forall k :: 0 <= k < |Refs(im, plans)| ==> Apart(Refs(im, plans)[k].place.Plus(4), 4, to, n))
    && forall j :: 0 <= j < |cs| ==> ClearOfMarks(HeadPlaces(im, plans, cs)[j], to, n)
  }

  // The place where a texture's data goes is written over by nothing else.
  ghost predicate DataApart(im: Image, cs: seq<Conversion>, c: Conversion)
    requires WellFormed(im)
  {
    && Agreed(im, Plans(im, cs), cs) && MovedPlace(Plans(im, cs), InPage(c.cpuPage, c.cpuOffset)).Some?
    && Unwritten(im, cs, MovedPlace(Plans(im, cs), InPage(c.cpuPage, c.cpuOffset)).value, |c.data|)
  }

  // Every texture's converted mips stand in full where its old data's start went.
  lemma DataKept(im: Image, cs: seq<Conversion>, out: Image, j: nat)
    requires Yields(im, cs, out) && j < |cs| && cs[j].cpuPage < |im.pages| && DataApart(im, cs, cs[j])
    ensures MovesInto(out, Plans(im, cs), InPage(cs[j].cpuPage, cs[j].cpuOffset), |cs[j].data|)
    ensures Bytes(out, MovedPlace(Plans(im, cs), InPage(cs[j].cpuPage, cs[j].cpuOffset)).value, |cs[j].data|) == cs[j].data
  {
    var moved := Stages(im, cs, out);
    var plans := Plans(im, cs);
    var page := cs[j].cpuPage;
    var n := PatchPlanned(im, cs, j);
    hide Laid, Finished, Plans, MovedPlace, Small;
    var to := LaidData(im, plans, page, n);
    var size := |cs[j].data|;
    RefsFit(im, plans);
    hide DataPlace;
    AllMovedElsewhere(Laid(im, plans), plans, Refs(im, plans), |Refs(im, plans)|, to, size);
    FitsSame(Laid(im, plans), moved, to, size);
    HeadedElsewhere(im, plans, cs, moved, to, size);
  }

  lemma BesideDataPlace(im: Image, cs: seq<Conversion>, plans: seq<Plan>, page: nat, n: nat, to: Place, size: nat)
    requires WellFormed(im) && plans == Plans(im, cs) && Agreed(im, plans, cs) && AllValid(plans) && Uncut(im, plans, cs)
    requires DataPlace(plans, page, n, to, size)
    ensures Unwritten(im, cs, to, size)
  {
    hide Plans, Uncut, DataPlace, Apart, ClearOfMarks, Laid;
    RefsBesideData(im, cs, plans, page, n, to, size);
    HeadsBesideData(im, cs, plans, page, n, to, size);
  }

  // So it is when no replaced range cuts a relocated field or a header.
  lemma UncutApart(im: Image, cs: seq<Conversion>, out: Image, j: nat)
    requires Yields(im, cs, out) && Uncut(im, Plans(im, cs), cs) && j < |cs| && cs[j].cpuPage < |im.pages|
    ensures DataApart(im, cs, cs[j])
  {
    hide Laid, Finished, Plans, MovedPlace, Small, HeadsMove, FieldsMove, Uncut, Relaid, AllGrow;
    var moved := Stages(im, cs, out);
    var plans := Plans(im, cs);
    var page := cs[j].cpuPage;
    var n := PatchPlanned(im, cs, j);
    var to := LaidData(im, plans, page, n);
    BesideDataPlace(im, cs, plans, page, n, to, |cs[j].data|);
  }
}
