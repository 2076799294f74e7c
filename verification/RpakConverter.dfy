// The converter itself: it reads an archive, rewrites it in memory and writes it out again.
module RpakConverter {
  import opened Options
  import opened Bits
  import opened RpakBytes
  import opened RpakTextures
  import opened RpakPages
  import opened RpakImage
  import opened RpakLayout
  import opened RpakRelocate
  import opened RpakSpecs
  import opened RpakConvert
  import RpakMoves
  import RpakKept
  import RpakSizes
  import RpakGate
  import RpakStreams

  // ---------- Replacements ----------

  lemma {:induction false} ConversionsInside(im: Image, n: nat)
    requires WellFormed(im) && n <= LayoutOf(im.tables).assets && Conversions(im, n).Good?
    ensures InPages(im, Conversions(im, n).conversions)
    decreases n
  {
    hide LayoutOf, ExaminedAsset, AssetOf, WellFormed;
    if n > 0 {
      ConversionsInside(im, n - 1);
      ConversionsStep(im, n - 1);
      if ExaminedAsset(AssetOf(im, n - 1), im.pages).Convert? {
        ExaminedInside(AssetOf(im, n - 1), im.pages);
      }
    }
  }

  // Every conversion's pages exist and its texture has a known format.
  ghost predicate InPages(im: Image, cs: seq<Conversion>) {
    && (forall i :: 0 <= i < |cs| ==> cs[i].cpuPage < |im.pages|)
    && RpakStreams.Formatted(cs)
  }

  lemma ExaminedInside(a: Asset, pages: seq<seq<Byte>>)
    requires ExaminedAsset(a, pages).Convert?
    ensures var c := ExaminedAsset(a, pages).conversion;
            && c.cpuPage < |pages| && c.head.texture.width < 65536 && c.head.texture.height < 65536
            && c.head.texture.format < FORMATS
  {
  }

  method InsertPatch(ps: seq<Patch>, x: Patch) returns (r: seq<Patch>)
    ensures r == Insert(ps, x)
  {
    var i := 0;
    while i < |ps| && x.start >= ps[i].start
      invariant 0 <= i <= |ps| && Insert(ps, x) == ps[..i] + Insert(ps[i..], x)
    {
      assert ps[i..][1..] == ps[i + 1..];
      assert ps[..i] + [ps[i]] == ps[..i + 1];
      i := i + 1;
    }
    r := ps[..i] + [x] + ps[i..];
  }

  method SortPatches(ps: seq<Patch>) returns (r: seq<Patch>)
    ensures r == Sorted(ps, |ps|)
  {
    r := [];
    for i := 0 to |ps|
      invariant r == Sorted(ps, i)
    {
      r := InsertPatch(r, ps[i]);
    }
  }

  method GroupReplacements(im: Image, cs: seq<Conversion>) returns (replacements: seq<seq<Patch>>)
    requires InPages(im, cs)
    ensures |replacements| == |im.pages|
    ensures forall p :: 0 <= p < |im.pages| ==> replacements[p] == PatchesOf(cs, |cs|, p)
  {
    replacements := seq(|im.pages|, _ => []);
    for i := 0 to |cs|
      invariant |replacements| == |im.pages|
      invariant forall p :: 0 <= p < |im.pages| ==> replacements[p] == PatchesOf(cs, i, p)
    {
      replacements := replacements[cs[i].cpuPage := replacements[cs[i].cpuPage] + [PatchOf(cs[i])]];
    }
  }

  method MakePlans(im: Image, cs: seq<Conversion>) returns (ok: bool, plans: seq<Plan>)
    requires InPages(im, cs)
    ensures ok <==> Planned(im, Plans(im, cs))
    ensures ok ==> plans == Plans(im, cs)
  {
    var replacements := GroupReplacements(im, cs);
    plans := [];
    for page := 0 to |im.pages|
      invariant |plans| == page
      invariant forall p :: 0 <= p < page ==> plans[p] == PlanOf(im, cs, p) && Ordered(plans[p].patches, plans[p].size)
    {
      hide Sorted, PatchesOf, Ordered;
      var sorted := SortPatches(replacements[page]);
      SortedIsByStart(replacements[page]);
      ok := CheckOrdered(sorted, |im.pages[page]|);
      assert PlanOf(im, cs, page) == Plan(|im.pages[page]|, sorted);
      if !ok {
        assert Plans(im, cs)[page] == PlanOf(im, cs, page);
        return;
      }
      plans := plans + [Plan(|im.pages[page]|, sorted)];
    }
    ok := true;
  }

  lemma SortedIsByStart(ps: seq<Patch>)
    ensures forall i, j :: 0 <= i < j < |Sorted(ps, |ps|)| ==> Sorted(ps, |ps|)[i].start <= Sorted(ps, |ps|)[j].start
  {
    RpakMoves.SortedSorts(ps, |ps|);
  }

  method RebuildPages(im: Image, plans: seq<Plan>) returns (laid: Image)
    requires Planned(im, plans)
    ensures laid == Laid(im, plans)
  {
    hide Rebuilt, Ordered;
    var newPages := [];
    for page := 0 to |im.pages|
      invariant |newPages| == page
      invariant forall p :: 0 <= p < page ==> newPages[p] == Laid(im, plans).pages[p]
    {
      var newPage := RebuildPage(im.pages[page], plans[page].patches);
      newPages := newPages + [newPage];
    }
    laid := im.(pages := newPages);
    assert laid.pages == Laid(im, plans).pages;
  }

  // ---------- References ----------

  method FindTarget(plans: seq<Plan>, page: nat, offset: nat) returns (mapped: Option<nat>)
    ensures mapped == MapTarget(plans, page, offset)
  {
    if page >= |plans| {
      return None;
    }
    mapped := FindOffset(plans[page].patches, plans[page].size, offset);
  }

  method MoveReference(im: Image, plans: seq<Plan>, r: Reference) returns (ok: bool, out: Image)
    requires r.Fits(im)
    ensures ok <==> Moved(im, plans, r).Some?
    ensures ok ==> Moved(im, plans, r) == Some(out)
  {
    hide MapTarget, Written, Le;
    out := im;
    var page := r.Page(im);
    if r.optional && page == NO_PAGE {
      return true, im;
    }
    var mapped := FindTarget(plans, page, r.Offset(im));
    if mapped.None? {
      return false, im;
    }
    ok := true;
    out := Written(im, r.place.Plus(4), 4, mapped.value);
  }

  lemma MovedStep(im: Image, plans: seq<Plan>, refs: seq<Reference>, n: nat)
    requires n < |refs| && AllFit(im, refs) && AllMoved(im, plans, refs, n).Some?
    ensures refs[n].Fits(AllMoved(im, plans, refs, n).value)
    ensures AllMoved(im, plans, refs, n + 1) == Moved(AllMoved(im, plans, refs, n).value, plans, refs[n])
  {
    hide Moved, RpakImage.Fits;
    FitsSame(im, AllMoved(im, plans, refs, n).value, refs[n].place, 8);
  }

  lemma {:induction false} MovedStaysNone(im: Image, plans: seq<Plan>, refs: seq<Reference>, n: nat, m: nat)
    requires n <= m <= |refs| && AllFit(im, refs) && AllMoved(im, plans, refs, n).None?
    ensures AllMoved(im, plans, refs, m).None?
    decreases m
  {
    hide Moved;
    if n < m {
      MovedStaysNone(im, plans, refs, n, m - 1);
    }
  }

  // The image after the first n references are moved, when every field has a new place.
  ghost predicate MovedTo(im: Image, plans: seq<Plan>, n: nat, cur: Image)
    requires WellFormed(im) && Planned(im, plans)
  {
    && SameShape(Laid(im, plans), cur)
    && (FieldsMove(im, plans) && n <= RefCount(LayoutOf(im.tables)) ==>
          AllFit(Laid(im, plans), Refs(im, plans)) && AllMoved(Laid(im, plans), plans, Refs(im, plans), n) == Some(cur))
  }

  // Some field has no new place, or some reference no target.
  ghost predicate CannotMove(im: Image, plans: seq<Plan>)
    requires WellFormed(im) && Planned(im, plans)
  {
    FieldsMove(im, plans) ==> Moving(im, plans).None?
  }

  lemma MovedToStart(im: Image, plans: seq<Plan>)
    requires WellFormed(im) && Planned(im, plans)
    ensures MovedTo(im, plans, 0, Laid(im, plans))
  {
    if FieldsMove(im, plans) {
      RefsFit(im, plans);
    }
  }

  // Moving one more reference.
  lemma MovedToStep(im: Image, plans: seq<Plan>, n: nat, cur: Image, r: Reference)
    requires WellFormed(im) && Planned(im, plans) && n < RefCount(LayoutOf(im.tables)) && MovedTo(im, plans, n, cur)
    requires r.Fits(cur) && (FieldsMove(im, plans) ==> r == RefAt(im, plans, n))
    ensures Moved(cur, plans, r).Some? ==> MovedTo(im, plans, n + 1, Moved(cur, plans, r).value)
    ensures Moved(cur, plans, r).None? ==> CannotMove(im, plans)
  {
    hide Laid, LayoutOf, RefAt, RefCount, Reference.Fits;
    if FieldsMove(im, plans) {
      var refs := Refs(im, plans);
      MovedStep(Laid(im, plans), plans, refs, n);
      if Moved(cur, plans, r).None? {
        MovedStaysNone(Laid(im, plans), plans, refs, n + 1, |refs|);
      }
    }
    hide Moved;
  }

  method MoveUses(im: Image, plans: seq<Plan>, before: Image) returns (ok: bool, moved: Image)
    requires WellFormed(im) && Planned(im, plans) && MovedTo(im, plans, 2 * LayoutOf(im.tables).pointers, before)
    ensures ok ==> MovedTo(im, plans, 2 * LayoutOf(im.tables).pointers + LayoutOf(im.tables).uses, moved)
    ensures !ok ==> CannotMove(im, plans)
  {
    hide LayoutOf, MovedTo, Moved, CannotMove, FieldsMove;
    var l := LayoutOf(im.tables);
    moved := before;
    for i := 0 to l.uses
      invariant MovedTo(im, plans, 2 * l.pointers + i, moved)
    {
      UseStep(im, plans, i, moved);
      ok, moved := MoveReference(moved, plans, UseRef(l, i));
      if !ok {
        return;
      }
    }
    ok := true;
  }

  lemma UseIs(im: Image, plans: seq<Plan>, i: nat, n: nat, cur: Image)
    requires WellFormed(im) && Planned(im, plans) && i < LayoutOf(im.tables).uses
    requires n == 2 * LayoutOf(im.tables).pointers + i && MovedTo(im, plans, n, cur)
    ensures UseRef(LayoutOf(im.tables), i).Fits(cur) && n < RefCount(LayoutOf(im.tables))
    ensures FieldsMove(im, plans) ==> RefAt(im, plans, n) == UseRef(LayoutOf(im.tables), i)
  {
    hide LayoutOf, FieldsMove;
  }

  lemma UseStep(im: Image, plans: seq<Plan>, i: nat, cur: Image)
    requires WellFormed(im) && Planned(im, plans) && i < LayoutOf(im.tables).uses
    requires MovedTo(im, plans, 2 * LayoutOf(im.tables).pointers + i, cur)
    ensures UseRef(LayoutOf(im.tables), i).Fits(cur)
    ensures var l, m := LayoutOf(im.tables), Moved(cur, plans, UseRef(LayoutOf(im.tables), i));
            && (m.Some? ==> MovedTo(im, plans, 2 * l.pointers + (i + 1), m.value))
            && (m.None? ==> CannotMove(im, plans))
  {
    hide LayoutOf, Moved, CannotMove, FieldsMove, MovedTo, Reference.Fits, RefAt;
    var l := LayoutOf(im.tables);
    UseIs(im, plans, i, 2 * l.pointers + i, cur);
    MovedToStep(im, plans, 2 * l.pointers + i, cur, UseRef(l, i));
  }

  method MoveAssets(im: Image, plans: seq<Plan>, before: Image) returns (ok: bool, moved: Image)
    requires WellFormed(im) && Planned(im, plans)
    requires MovedTo(im, plans, 2 * LayoutOf(im.tables).pointers + LayoutOf(im.tables).uses, before)
    ensures ok ==> MovedTo(im, plans, RefCount(LayoutOf(im.tables)), moved)
    ensures !ok ==> CannotMove(im, plans)
  {
    hide LayoutOf, MovedTo, Moved, CannotMove, FieldsMove;
    var l := LayoutOf(im.tables);
    moved := before;
    for i := 0 to l.assets
      invariant MovedTo(im, plans, 2 * l.pointers + l.uses + 2 * i, moved)
    {
      AssetStep(im, plans, i, false, moved);
      ok, moved := MoveReference(moved, plans, AssetRef(l, i, false));
      if !ok {
        return;
      }
      AssetStep(im, plans, i, true, moved);
      ok, moved := MoveReference(moved, plans, AssetRef(l, i, true));
      if !ok {
        return;
      }
    }
    ok := true;
  }

  lemma AssetFits(im: Image, plans: seq<Plan>, i: nat, cpu: bool, n: nat, cur: Image)
    requires WellFormed(im) && Planned(im, plans) && i < LayoutOf(im.tables).assets && MovedTo(im, plans, n, cur)
    ensures AssetRef(LayoutOf(im.tables), i, cpu).Fits(cur)
  {
    hide LayoutOf, FieldsMove;
  }

  lemma AssetIs(im: Image, plans: seq<Plan>, i: nat, cpu: bool)
    requires WellFormed(im) && Planned(im, plans) && i < LayoutOf(im.tables).assets
    ensures var l := LayoutOf(im.tables);
            var k := 2 * l.pointers + l.uses + 2 * i + if cpu then 1 else 0;
            k < RefCount(l) && (FieldsMove(im, plans) ==> RefAt(im, plans, k) == AssetRef(l, i, cpu))
  {
    hide LayoutOf, FieldsMove;
  }

  lemma AssetStep(im: Image, plans: seq<Plan>, i: nat, cpu: bool, cur: Image)
    requires WellFormed(im) && Planned(im, plans) && i < LayoutOf(im.tables).assets
    requires MovedTo(im, plans, 2 * LayoutOf(im.tables).pointers + LayoutOf(im.tables).uses + 2 * i + if cpu then 1 else 0, cur)
    ensures AssetRef(LayoutOf(im.tables), i, cpu).Fits(cur)
    ensures var l, m := LayoutOf(im.tables), Moved(cur, plans, AssetRef(LayoutOf(im.tables), i, cpu));
            && (m.Some? ==> MovedTo(im, plans, 2 * l.pointers + l.uses + 2 * i + if cpu then 2 else 1, m.value))
            && (m.None? ==> CannotMove(im, plans))
  {
    hide LayoutOf, Moved, CannotMove, FieldsMove, MovedTo, Reference.Fits, RefAt;
    var l := LayoutOf(im.tables);
    AssetIs(im, plans, i, cpu);
    AssetFits(im, plans, i, cpu, 2 * l.pointers + l.uses + 2 * i + if cpu then 1 else 0, cur);
    MovedToStep(im, plans, 2 * l.pointers + l.uses + 2 * i + if cpu then 1 else 0, cur, AssetRef(l, i, cpu));
  }

  // The first i descriptors are moved with the fields they name; the others still read as they did.
  ghost predicate PointersDone(im: Image, plans: seq<Plan>, i: nat, cur: Image)
    requires WellFormed(im) && Planned(im, plans)
  {
    && i <= LayoutOf(im.tables).pointers && MovedTo(im, plans, 2 * i, cur)
    && cur.tables[LayoutOf(im.tables).Pointer(i)..] == im.tables[LayoutOf(im.tables).Pointer(i)..]
    && forall j :: 0 <= j < i ==> MovesInto(Laid(im, plans), plans, OldField(im, j).place, 8)
  }

  method MovePointers(im: Image, plans: seq<Plan>, laid: Image) returns (ok: bool, moved: Image)
    requires WellFormed(im) && Planned(im, plans) && laid == Laid(im, plans)
    ensures ok ==> FieldsMove(im, plans) && MovedTo(im, plans, 2 * LayoutOf(im.tables).pointers, moved)
    ensures !ok ==> CannotMove(im, plans)
  {
    PointersStart(im, plans);
    hide LayoutOf, PointersDone, CannotMove, Laid;
    var l := LayoutOf(im.tables);
    moved := laid;
    for i := 0 to l.pointers
      invariant PointersDone(im, plans, i, moved)
    {
      ok, moved := MovePointer(im, plans, i, moved);
      if !ok {
        return;
      }
    }
    PointersEnd(im, plans, moved);
    ok := true;
  }

  lemma PointersStart(im: Image, plans: seq<Plan>)
    requires WellFormed(im) && Planned(im, plans)
    ensures PointersDone(im, plans, 0, Laid(im, plans))
  {
    hide LayoutOf, Laid, MovedTo;
    MovedToStart(im, plans);
  }

  lemma PointersEnd(im: Image, plans: seq<Plan>, cur: Image)
    requires WellFormed(im) && Planned(im, plans) && PointersDone(im, plans, LayoutOf(im.tables).pointers, cur)
    ensures FieldsMove(im, plans) && MovedTo(im, plans, 2 * LayoutOf(im.tables).pointers, cur)
  {
    hide LayoutOf, Laid, MovedTo, OldField, MovesInto;
  }

  // A descriptor not reached yet reads as it did.
  lemma DescriptorLeft(im: Image, plans: seq<Plan>, i: nat, cur: Image)
    requires WellFormed(im) && Planned(im, plans) && i < LayoutOf(im.tables).pointers && PointersDone(im, plans, i, cur)
    ensures PointerRef(LayoutOf(im.tables), i).Fits(cur) && |cur.pages| == |im.pages| == |plans|
    ensures var r := PointerRef(LayoutOf(im.tables), i);
            OldField(im, i).place == InPage(r.Page(cur), r.Offset(cur))
  {
    hide LayoutOf, MovesInto, AllMoved, AllFit, FieldsMove;
    var at := LayoutOf(im.tables).Pointer(i);
    SuffixSame(cur.tables, im.tables, at);
  }

  lemma SuffixSame(s: seq<Byte>, t: seq<Byte>, at: nat)
    requires at + 8 <= |s| == |t| && s[at..] == t[at..]
    ensures U32(s, at) == U32(t, at) && U32(s, at + 4) == U32(t, at + 4)
  {
    assert s[at..at + 4] == s[at..][0..4] && t[at..at + 4] == t[at..][0..4];
    assert s[at + 4..at + 8] == s[at..][4..8] && t[at + 4..at + 8] == t[at..][4..8];
    LeSame(s, at, t, at, 4);
    LeSame(s, at + 4, t, at + 4, 4);
  }

  lemma TargetPage(plans: seq<Plan>, page: nat, offset: nat)
    ensures MapTarget(plans, page, offset).Some? ==> page < |plans|
  {
  }

  method MovePointer(im: Image, plans: seq<Plan>, i: nat, cur: Image) returns (ok: bool, next: Image)
    requires WellFormed(im) && Planned(im, plans) && i < LayoutOf(im.tables).pointers && PointersDone(im, plans, i, cur)
    ensures ok ==> PointersDone(im, plans, i + 1, next)
    ensures !ok ==> CannotMove(im, plans)
  {
    hide LayoutOf, PointersDone, CannotMove, MapTarget, MovedTo, Moved, Laid, Written, MovesInto, MovedPlace, OldField;
    var l := LayoutOf(im.tables);
    var r := PointerRef(l, i);
    DescriptorLeft(im, plans, i, cur);
    next := cur;
    var page := r.Page(cur);
    var newOffset := FindTarget(plans, page, r.Offset(cur));
    TargetPage(plans, page, r.Offset(cur));
    if newOffset.None? || newOffset.value + 8 > |cur.pages[page]| {
      NoPlace(im, plans, i, cur);
      return false, cur;
    }
    DescriptorMoves(im, plans, i, cur);
    var described := Written(cur, r.place.Plus(4), 4, newOffset.value);
    ok, next := MoveReference(described, plans, Reference(InPage(page, newOffset.value), true));
    FieldMoves(im, plans, i, cur, described, next);
  }

  // A field without a place in the new pages.
  lemma NoPlace(im: Image, plans: seq<Plan>, i: nat, cur: Image)
    requires WellFormed(im) && Planned(im, plans) && i < LayoutOf(im.tables).pointers && PointersDone(im, plans, i, cur)
    requires var f := OldField(im, i).place;
             MapTarget(plans, f.page, f.at).None? ||
             (f.page < |cur.pages| && MapTarget(plans, f.page, f.at).value + 8 > |cur.pages[f.page]|)
    ensures CannotMove(im, plans)
  {
    hide LayoutOf, MapTarget, Laid, OldField;
    assert !MovesInto(Laid(im, plans), plans, OldField(im, i).place, 8);
  }

  // Moving the descriptor gives the field its new place.
  lemma DescriptorMoves(im: Image, plans: seq<Plan>, i: nat, cur: Image)
    requires WellFormed(im) && Planned(im, plans) && i < LayoutOf(im.tables).pointers && PointersDone(im, plans, i, cur)
    requires var f := OldField(im, i).place;
             MapTarget(plans, f.page, f.at).Some? && f.page < |cur.pages|
             && MapTarget(plans, f.page, f.at).value + 8 <= |cur.pages[f.page]|
    ensures PointerRef(LayoutOf(im.tables), i).Fits(cur)
    ensures MovesInto(Laid(im, plans), plans, OldField(im, i).place, 8) && MovedPlace(plans, OldField(im, i).place).Some?
    ensures NewField(im, plans, i) ==
            Reference(InPage(OldField(im, i).place.page, MapTarget(plans, OldField(im, i).place.page, OldField(im, i).place.at).value), true)
    ensures var f, r := OldField(im, i).place, PointerRef(LayoutOf(im.tables), i);
            var next := Written(cur, r.place.Plus(4), 4, MapTarget(plans, f.page, f.at).value);
            && Moved(cur, plans, r) == Some(next) && MovedTo(im, plans, 2 * i + 1, next)
            && Reference(InPage(f.page, MapTarget(plans, f.page, f.at).value), true).Fits(next)
            && next.tables[LayoutOf(im.tables).Pointer(i + 1)..] == im.tables[LayoutOf(im.tables).Pointer(i + 1)..]
  {
    hide LayoutOf, MapTarget, Laid, OldField, Le, AllMoved, FieldsMove;
    DescriptorLeft(im, plans, i, cur);
    var l := LayoutOf(im.tables);
    var f, r := OldField(im, i).place, PointerRef(l, i);
    var offset := MapTarget(plans, f.page, f.at).value;
    FirstHalf(l, i);
    MovedToStep(im, plans, 2 * i, cur, r);
    SuffixKept(cur.tables, im.tables, l.Pointer(i), offset);
  }

  lemma FirstHalf(l: Layout, i: nat)
    requires i < l.pointers
    ensures 2 * i + 1 < RefCount(l) && 2 * i / 2 == i && 2 * i % 2 == 0 && (2 * i + 1) / 2 == i && (2 * i + 1) % 2 == 1
  {
  }

  lemma SuffixKept(s: seq<Byte>, t: seq<Byte>, at: nat, v: nat)
    requires at + 8 <= |s| == |t| && s[at..] == t[at..]
    ensures Put(s, at + 4, 4, v)[at + 8..] == t[at + 8..]
  {
    assert s[at + 8..] == s[at..][8..] && t[at + 8..] == t[at..][8..];
    assert Put(s, at + 4, 4, v)[at + 8..] == s[at + 8..];
  }

  lemma FieldMoves(im: Image, plans: seq<Plan>, i: nat, cur: Image, described: Image, next: Image)
    requires WellFormed(im) && Planned(im, plans) && i < LayoutOf(im.tables).pointers && PointersDone(im, plans, i, cur)
    requires MovedPlace(plans, OldField(im, i).place).Some?
    requires MovesInto(Laid(im, plans), plans, OldField(im, i).place, 8)
    requires MovedTo(im, plans, 2 * i + 1, described) && NewField(im, plans, i).Fits(described)
    requires described.tables[LayoutOf(im.tables).Pointer(i + 1)..] == im.tables[LayoutOf(im.tables).Pointer(i + 1)..]
    ensures Moved(described, plans, NewField(im, plans, i)) == Some(next) ==> PointersDone(im, plans, i + 1, next)
    ensures Moved(described, plans, NewField(im, plans, i)).None? ==> CannotMove(im, plans)
  {
    hide LayoutOf, Laid, OldField, Le, AllMoved, FieldsMove, MovesInto, MovedPlace, CannotMove, MovedTo;
    var l := LayoutOf(im.tables);
    FirstHalf(l, i);
    FieldIs(im, plans, i);
    MovedToStep(im, plans, 2 * i + 1, described, NewField(im, plans, i));
  }

  lemma FieldIs(im: Image, plans: seq<Plan>, i: nat)
    requires WellFormed(im) && Planned(im, plans) && i < LayoutOf(im.tables).pointers
    requires MovedPlace(plans, OldField(im, i).place).Some?
    ensures FieldsMove(im, plans) ==> RefAt(im, plans, 2 * i + 1) == NewField(im, plans, i)
    ensures NewField(im, plans, i).place.InPage?
  {
    hide LayoutOf, Laid;
  }

  // ---------- Headers ----------

  // The first n headers are marked, when every header has a new place.
  ghost predicate MarkedTo(im: Image, plans: seq<Plan>, cs: seq<Conversion>, moved: Image, n: nat, cur: Image)
    requires WellFormed(im) && Planned(im, plans) && SameShape(Laid(im, plans), moved)
  {
    && n <= |cs| && SameShape(moved, cur)
    && (forall j :: 0 <= j < n ==> MovesInto(Laid(im, plans), plans, HeadPlace(cs[j]), HEAD_SIZE))
    && (HeadsMove(im, plans, cs) ==>
          PlacesFit(moved, HeadPlaces(im, plans, cs), HEAD_SIZE)
          && cur == AllMarked(moved, HeadPlaces(im, plans, cs), Totals(cs), n))
  }

  lemma MarkedToStart(im: Image, plans: seq<Plan>, cs: seq<Conversion>, moved: Image)
    requires WellFormed(im) && Planned(im, plans) && SameShape(Laid(im, plans), moved)
    ensures MarkedTo(im, plans, cs, moved, 0, moved)
  {
    hide Laid, MovesInto;
    if HeadsMove(im, plans, cs) {
      PlacesSame(Laid(im, plans), moved, HeadPlaces(im, plans, cs));
    }
  }

  lemma MarkedToStep(im: Image, plans: seq<Plan>, cs: seq<Conversion>, moved: Image, n: nat, cur: Image)
    requires WellFormed(im) && Planned(im, plans) && SameShape(Laid(im, plans), moved)
    requires n < |cs| && MarkedTo(im, plans, cs, moved, n, cur)
    requires MovesInto(Laid(im, plans), plans, HeadPlace(cs[n]), HEAD_SIZE)
    ensures MovedPlace(plans, HeadPlace(cs[n])).Some?
    ensures var h := MovedPlace(plans, HeadPlace(cs[n])).value;
            Fits(cur, h, HEAD_SIZE) && MarkedTo(im, plans, cs, moved, n + 1, Marked(cur, h, cs[n].newTotal))
  {
    hide Laid, Marked, MovedPlace, Fits;
    var h := MovedPlace(plans, HeadPlace(cs[n])).value;
    FitsSame(Laid(im, plans), moved, h, HEAD_SIZE);
    FitsSame(moved, cur, h, HEAD_SIZE);
    SameShapeTrans(moved, cur, Marked(cur, h, cs[n].newTotal));
  }

  lemma SameShapeTrans(a: Image, b: Image, c: Image)
    requires SameShape(a, b) && SameShape(b, c)
    ensures SameShape(a, c)
  {
  }

  method MarkHeads(im: Image, plans: seq<Plan>, cs: seq<Conversion>, moved: Image) returns (ok: bool, marked: Image)
    requires WellFormed(im) && Planned(im, plans) && SameShape(Laid(im, plans), moved)
    ensures ok <==> HeadsMove(im, plans, cs)
    ensures ok ==> marked == RpakKept.Headed(im, plans, cs, moved)
  {
    MarkedToStart(im, plans, cs, moved);
    hide MarkedTo, MapTarget, Laid, Marked, HeadPlaces;
    marked := moved;
    for i := 0 to |cs|
      invariant MarkedTo(im, plans, cs, moved, i, marked)
    {
      var c := cs[i];
      var headerOffset := FindTarget(plans, c.headPage, c.headOffset);
      TargetPage(plans, c.headPage, c.headOffset);
      MarkedShape(im, plans, cs, moved, i, marked);
      if headerOffset.None? || headerOffset.value + 56 > |marked.pages[c.headPage]| {
        assert !MovesInto(Laid(im, plans), plans, HeadPlace(c), HEAD_SIZE);
        return false, marked;
      }
      MarkedToStep(im, plans, cs, moved, i, marked);
      marked := Marked(marked, InPage(c.headPage, headerOffset.value), c.newTotal);
    }
    MarkedToEnd(im, plans, cs, moved, marked);
    ok := true;
  }

  lemma MarkedShape(im: Image, plans: seq<Plan>, cs: seq<Conversion>, moved: Image, n: nat, cur: Image)
    requires WellFormed(im) && Planned(im, plans) && SameShape(Laid(im, plans), moved)
    requires MarkedTo(im, plans, cs, moved, n, cur)
    ensures |cur.pages| == |plans| == |im.pages|
    ensures forall p, o: nat :: 0 <= p < |plans| ==> (Fits(Laid(im, plans), InPage(p, o), HEAD_SIZE) <==> o + HEAD_SIZE <= |cur.pages[p]|)
  {
  }

  lemma MarkedToEnd(im: Image, plans: seq<Plan>, cs: seq<Conversion>, moved: Image, cur: Image)
    requires WellFormed(im) && Planned(im, plans) && SameShape(Laid(im, plans), moved)
    requires MarkedTo(im, plans, cs, moved, |cs|, cur)
    ensures HeadsMove(im, plans, cs) && cur == RpakKept.Headed(im, plans, cs, moved)
  {
    hide Laid, MovesInto, HeadPlaces;
  }

  // ---------- Sizes ----------

  // A page's new size is what its plan says.
  lemma NewSizeIs(im: Image, plans: seq<Plan>, p: nat)
    requires Planned(im, plans) && p < |plans|
    ensures |Laid(im, plans).pages[p]| == plans[p].NewSize()
  {
    hide Rebuilt;
    RebuiltSize(im.pages[p], plans[p].patches);
  }

  lemma RebuiltSize(page: seq<Byte>, ps: seq<Patch>)
    requires Ordered(ps, |page|)
    ensures |Rebuilt(page, ps)| == |page| + Delta(ps, 0, |page|)
  {
    RebuildSize(page, ps, 0, 0);
  }

  method WritePageSizes(im: Image, plans: seq<Plan>, marked: Image) returns (ok: bool, cur: Image)
    requires WellFormed(im) && Planned(im, plans) && SameShape(Laid(im, plans), marked)
    ensures EditsFit(marked, Edits(im.tables, plans, FileSize(marked)))
    ensures ok <==> Sized(plans)
    ensures ok ==> cur == Edited(marked, Edits(im.tables, plans, FileSize(marked)), |plans|)
  {
    hide LayoutOf, Laid, Written, EditAt, Plan.NewSize, FileSize;
    ghost var es := Edits(im.tables, plans, FileSize(marked));
    EditFits(marked, im.tables, plans, FileSize(marked));
    cur := marked;
    var l := LayoutOf(im.tables);
    for page := 0 to l.pages
      invariant cur == Edited(marked, es, page)
      invariant forall p :: 0 <= p < page ==> plans[p].NewSize() < WORD32
    {
      NewSizeIs(im, plans, page);
      PageEdit(im.tables, plans, FileSize(marked), page);
      if |cur.pages[page]| > 0xffff_ffff {
        return false, cur;
      }
      cur := Written(cur, InTables(l.Page(page) + 8), 4, |cur.pages[page]|);
    }
    ok := true;
  }

  lemma PageEdit(t: seq<Byte>, plans: seq<Plan>, size: nat, p: nat)
    requires Tabled(t) && LayoutOf(t).pages == |plans| && p < |plans| && plans[p].NewSize() >= 0
    ensures EditAt(t, plans, size, p) == Edit(InTables(LayoutOf(t).Page(p) + 8), 4, plans[p].NewSize())
  {
    hide LayoutOf, Plan.NewSize;
  }

  // The image while its sizes are written: k words are in place.
  ghost predicate Sizing(im: Image, plans: seq<Plan>, cs: seq<Conversion>, moved: Image, k: nat, cur: Image) {
    && WellFormed(im) && Agreed(im, plans, cs) && Moving(im, plans) == Some(moved)
    && var marked := RpakKept.Headed(im, plans, cs, moved);
       && EditsFit(marked, Edits(im.tables, plans, FileSize(marked)))
       && k <= |Edits(im.tables, plans, FileSize(marked))|
       && cur == Edited(marked, Edits(im.tables, plans, FileSize(marked)), k)
  }

  lemma MovedRest(im: Image, plans: seq<Plan>, moved: Image, at: nat, n: nat)
    requires WellFormed(im) && Planned(im, plans) && FieldsMove(im, plans) && Moving(im, plans) == Some(moved)
    requires at + n <= |im.tables| && RpakSizes.NoOffsetAt(LayoutOf(im.tables), at, n)
    ensures Bytes(moved, InTables(at), n) == Bytes(im, InTables(at), n)
  {
    hide LayoutOf, RefAt, Laid, RpakMoves.IsSpot, RpakMoves.SpotOf;
    var refs := Refs(im, plans);
    RefsFit(im, plans);
    forall i | 0 <= i < |refs| ensures Apart(refs[i].place.Plus(4), 4, InTables(at), n) {
      RpakMoves.SpotRef(im, plans, i);
    }
    AllMovedElsewhere(Laid(im, plans), plans, refs, |refs|, InTables(at), n);
  }

  // Bytes of the tables that neither a moved offset nor an earlier size falls on.
  lemma RestKept(im: Image, plans: seq<Plan>, cs: seq<Conversion>, moved: Image, k: nat, cur: Image, at: nat, n: nat)
    requires Sizing(im, plans, cs, moved, k, cur) && at + n <= |im.tables|
    requires RpakSizes.NoOffsetAt(LayoutOf(im.tables), at, n)
    requires var size := FileSize(RpakKept.Headed(im, plans, cs, moved));
             forall j :: 0 <= j < k ==> var e := EditAt(im.tables, plans, size, j); Apart(e.place, e.n, InTables(at), n)
    ensures |cur.tables| == |im.tables|
    ensures Bytes(cur, InTables(at), n) == Bytes(im, InTables(at), n)
  {
    hide LayoutOf, EditAt, Laid, FileSize, RpakSizes.NoOffsetAt, FieldsMove, HeadsMove, RefAt, RpakKept.Headed;
    MovedRest(im, plans, moved, at, n);
    RpakKept.HeadedTables(im, plans, cs, moved);
    var marked := RpakKept.Headed(im, plans, cs, moved);
    EditedElsewhere(marked, Edits(im.tables, plans, FileSize(marked)), k, InTables(at), n);
  }

  // The slab a page is in can still be read.
  lemma PageSlabRead(im: Image, plans: seq<Plan>, cs: seq<Conversion>, moved: Image, k: nat, cur: Image, p: nat)
    requires Sizing(im, plans, cs, moved, k, cur) && p < LayoutOf(im.tables).pages
    ensures |cur.tables| == |im.tables| && LayoutOf(im.tables).Page(p) + 4 <= |cur.tables|
    ensures U32(cur.tables, LayoutOf(im.tables).Page(p)) == PageSlab(im.tables, p)
  {
    var l, size := LayoutOf(im.tables), FileSize(RpakKept.Headed(im, plans, cs, moved));
    RpakSizes.PageSlabUntouched(l, p);
    hide LayoutOf, RpakKept.NoSizeAt, RpakSizes.NoOffsetAt, Laid, EditAt, FileSize, Agreed, Moving, Le;
    forall j | 0 <= j < k
      ensures var e := EditAt(im.tables, plans, size, j); Apart(e.place, e.n, InTables(l.Page(p)), 4)
    {
      RpakKept.EditApart(im.tables, plans, size, j, l.Page(p), 4);
    }
    hide Sizing;
    RestKept(im, plans, cs, moved, k, cur, l.Page(p), 4);
    RpakSizes.SameWord(cur, im, l.Page(p));
  }

  lemma SlabTotalIs(t: seq<Byte>, slab: nat)
    requires Tabled(t) && slab < LayoutOf(t).slabs
    ensures SlabTotal(t, slab) == U64(t, LayoutOf(t).Slab(slab) + 8)
  {
  }

  // A slab's total can be read until it is replaced.
  lemma SlabTotalRead(im: Image, plans: seq<Plan>, cs: seq<Conversion>, moved: Image, slab: nat, cur: Image)
    requires WellFormed(im) && slab < LayoutOf(im.tables).slabs
    requires Sizing(im, plans, cs, moved, LayoutOf(im.tables).pages + slab, cur)
    ensures |cur.tables| == |im.tables| && LayoutOf(im.tables).Slab(slab) + 16 <= |cur.tables|
    ensures U64(cur.tables, LayoutOf(im.tables).Slab(slab) + 8) == SlabTotal(im.tables, slab)
  {
    hide LayoutOf, RpakSizes.NoOffsetAt, Laid, EditAt, FileSize, Agreed, Moving, Le, U64, Edited, RpakKept.Headed, PageSize, Fits, Bytes, Sizing, Apart;
    var l := LayoutOf(im.tables);
    var size := HeadedSize(im, plans, cs, moved, cur, slab);
    var at, k := l.Slab(slab) + 8, l.pages + slab;
    SlabUntouched(l, slab);
    SlabPlace(im.tables, plans, size, slab);
    forall j | 0 <= j < k ensures var e := EditAt(im.tables, plans, size, j); Apart(e.place, e.n, InTables(at), 8) {
      RpakSizes.EditsApart(im.tables, plans, size, j, k);
    }
    RestKept(im, plans, cs, moved, k, cur, at, 8);
    SameWide(cur, im, at);
    SlabTotalIs(im.tables, slab);
  }

  lemma SlabPlace(t: seq<Byte>, plans: seq<Plan>, size: nat, slab: nat)
    requires Tabled(t) && LayoutOf(t).pages == |plans| && slab < LayoutOf(t).slabs
    ensures var e := EditAt(t, plans, size, LayoutOf(t).pages + slab); e.place == InTables(LayoutOf(t).Slab(slab) + 8) && e.n == 8
  {
    hide LayoutOf, SlabTotal, SlabDelta;
  }

  lemma SlabUntouched(l: Layout, slab: nat)
    requires slab < l.slabs
    ensures RpakSizes.NoOffsetAt(l, l.Slab(slab) + 8, 8)
  {
    forall k | 0 <= k < RefCount(l) && RpakMoves.IsSpot(l, k) ensures l.Slab(slab) + 16 <= RpakMoves.SpotOf(l, k) {
      RpakMoves.SpotInside(l, k);
    }
  }

  lemma SameWide(a: Image, b: Image, at: nat)
    requires at + 8 <= |a.tables| && at + 8 <= |b.tables| && Bytes(a, InTables(at), 8) == Bytes(b, InTables(at), 8)
    ensures U64(a.tables, at) == U64(b.tables, at)
  {
    LeSame(a.tables, at, b.tables, at, 8);
  }

  lemma HeadedFacts(im: Image, plans: seq<Plan>, cs: seq<Conversion>, moved: Image, k: nat, cur: Image)
    requires Sizing(im, plans, cs, moved, k, cur)
    ensures WellFormed(im) && |plans| == LayoutOf(im.tables).pages
  {
    hide LayoutOf, Moving;
  }

  lemma SlabDeltaNone(t: seq<Byte>, plans: seq<Plan>, slab: nat)
    requires Tabled(t) && LayoutOf(t).pages == |plans|
    ensures SlabDelta(t, plans, slab, 0) == 0
  {
  }

  lemma SlabDeltaStep(t: seq<Byte>, plans: seq<Plan>, slab: nat, p: nat)
    requires Tabled(t) && p < LayoutOf(t).pages == |plans|
    ensures SlabDelta(t, plans, slab, p + 1) ==
            SlabDelta(t, plans, slab, p) + if PageSlab(t, p) == slab then plans[p].NewSize() - plans[p].size else 0
  {
    hide Plan.NewSize, Le;
  }

  // How much the pages of a slab have grown.
  method SumDeltas(im: Image, plans: seq<Plan>, ghost cs: seq<Conversion>, ghost moved: Image, ghost k: nat, cur: Image, slab: nat)
    returns (delta: int)
    requires Sizing(im, plans, cs, moved, k, cur)
    ensures delta == SlabDelta(im.tables, plans, slab, LayoutOf(im.tables).pages)
  {
    HeadedFacts(im, plans, cs, moved, k, cur);
    hide LayoutOf, Sizing, Plan.NewSize, Le, Agreed, Moving, SlabDelta, PageSlab, RpakKept.Headed, PageSize;
    var l := LayoutOf(im.tables);
    SlabDeltaNone(im.tables, plans, slab);
    delta := 0;
    for page := 0 to l.pages
      invariant delta == SlabDelta(im.tables, plans, slab, page)
    {
      SlabDeltaStep(im.tables, plans, slab, page);
      PageSlabRead(im, plans, cs, moved, k, cur, page);
      if U32(cur.tables, l.Page(page)) == slab {
        delta := delta + (plans[page].NewSize() - plans[page].size);
      }
    }
  }

  lemma {:induction false} NeverShrinks(t: seq<Byte>, plans: seq<Plan>, slab: nat, n: nat)
    requires Tabled(t) && n <= LayoutOf(t).pages == |plans| && RpakMoves.AllValid(plans)
    ensures SlabDelta(t, plans, slab, n) >= 0
    decreases n
  {
    hide LayoutOf, PageSlab;
    if n > 0 {
      NeverShrinks(t, plans, slab, n - 1);
      DeltaGrows(plans[n - 1].patches, 0, 0, plans[n - 1].size);
    }
  }

  lemma SizingStep(im: Image, plans: seq<Plan>, cs: seq<Conversion>, moved: Image, k: nat, cur: Image, e: Edit)
    requires Sizing(im, plans, cs, moved, k, cur) && k < LayoutOf(im.tables).pages + LayoutOf(im.tables).slabs + 2
    requires e == EditAt(im.tables, plans, FileSize(RpakKept.Headed(im, plans, cs, moved)), k)
    ensures Fits(cur, e.place, e.n) && Sizing(im, plans, cs, moved, k + 1, Written(cur, e.place, e.n, e.v))
  {
    hide LayoutOf, EditAt, FieldsMove, HeadsMove, Moving, RpakKept.Headed, FileSize, Written;
    var marked := RpakKept.Headed(im, plans, cs, moved);
    var es := Edits(im.tables, plans, FileSize(marked));
    FitsSame(marked, cur, es[k].place, es[k].n);
  }

  method WriteSlab(im: Image, plans: seq<Plan>, ghost cs: seq<Conversion>, ghost moved: Image, slab: nat, cur: Image)
    returns (next: Image)
    requires RpakMoves.AllValid(plans) && WellFormed(im) && |plans| == LayoutOf(im.tables).pages
    requires slab < LayoutOf(im.tables).slabs && Sizing(im, plans, cs, moved, LayoutOf(im.tables).pages + slab, cur)
    ensures Sizing(im, plans, cs, moved, LayoutOf(im.tables).pages + slab + 1, next)
  {
    hide LayoutOf, Sizing, SlabDelta, Written, RpakMoves.AllValid, U64, EditAt, FileSize, RpakKept.Headed, Le;
    var l := LayoutOf(im.tables);
    var delta := SumDeltas(im, plans, cs, moved, l.pages + slab, cur, slab);
    SlabTotalRead(im, plans, cs, moved, slab, cur);
    NeverShrinks(im.tables, plans, slab, l.pages);
    var oldSize := U64(cur.tables, l.Slab(slab) + 8);
    if delta < 0 && -delta > oldSize {
      // The source's slab underflow error, never reached.
      assert false;
    }
    SlabSizing(im, plans, cs, moved, slab, cur);
    next := Written(cur, InTables(l.Slab(slab) + 8), 8, oldSize + delta);
  }

  lemma HeadedSize(im: Image, plans: seq<Plan>, cs: seq<Conversion>, moved: Image, cur: Image, slab: nat) returns (size: nat)
    requires WellFormed(im) && Sizing(im, plans, cs, moved, LayoutOf(im.tables).pages + slab, cur)
    ensures |plans| == LayoutOf(im.tables).pages && Agreed(im, plans, cs) && Moving(im, plans) == Some(moved)
    ensures size == FileSize(RpakKept.Headed(im, plans, cs, moved))
  {
    size := FileSize(RpakKept.Headed(im, plans, cs, moved));
  }

  lemma SlabSizing(im: Image, plans: seq<Plan>, cs: seq<Conversion>, moved: Image, slab: nat, cur: Image)
    requires WellFormed(im) && |plans| == LayoutOf(im.tables).pages
    requires slab < LayoutOf(im.tables).slabs && Sizing(im, plans, cs, moved, LayoutOf(im.tables).pages + slab, cur)
    requires SlabDelta(im.tables, plans, slab, LayoutOf(im.tables).pages) >= 0
    ensures var l := LayoutOf(im.tables);
            var place, v := InTables(l.Slab(slab) + 8), SlabTotal(im.tables, slab) + SlabDelta(im.tables, plans, slab, l.pages);
            Fits(cur, place, 8) && Sizing(im, plans, cs, moved, l.pages + slab + 1, Written(cur, place, 8, v))
  {
    hide LayoutOf, EditAt, SlabDelta, SlabTotal, Written, FileSize, RpakKept.Headed, Agreed, Moving, Le, Edited, Sizing, PageSize, Fits;
    var l := LayoutOf(im.tables);
    var size := HeadedSize(im, plans, cs, moved, cur, slab);
    RpakSizes.SlabEdit(im.tables, plans, size, slab);
    SizingStep(im, plans, cs, moved, l.pages + slab, cur, EditAt(im.tables, plans, size, l.pages + slab));
  }

  method WriteSlabs(im: Image, plans: seq<Plan>, ghost cs: seq<Conversion>, ghost moved: Image, before: Image)
    returns (cur: Image)
    requires RpakMoves.AllValid(plans) && WellFormed(im) && |plans| == LayoutOf(im.tables).pages
    requires Sizing(im, plans, cs, moved, LayoutOf(im.tables).pages, before)
    ensures Sizing(im, plans, cs, moved, LayoutOf(im.tables).pages + LayoutOf(im.tables).slabs, cur)
  {
    hide LayoutOf, Sizing, RpakMoves.AllValid;
    var l := LayoutOf(im.tables);
    cur := before;
    for slab := 0 to l.slabs
      invariant Sizing(im, plans, cs, moved, l.pages + slab, cur)
    {
      cur := WriteSlab(im, plans, cs, moved, slab, cur);
    }
  }

  method Assemble(im: Image) returns (rpak: seq<Byte>)
    ensures rpak == File(im)
  {
    rpak := im.tables;
    for page := 0 to |im.pages|
      invariant rpak == im.tables + Flat(im.pages, page)
    {
      rpak := rpak + im.pages[page];
    }
  }

  // ---------- The whole ----------

  datatype Outcome = Refused | Files(rpak: seq<Byte>, starpaks: seq<seq<Byte>>)

  // The files a conversion leaves behind.
  ghost function ConvertedFiles(rpak: seq<Byte>, starpaks: seq<seq<Byte>>): Outcome {
    if !RpakGate.Stamped(rpak, {0, 1}) || !Opens(rpak) then Refused else
      FileOpened(rpak);
      ClearedWellFormed(Opened(rpak));
      var im := Cleared(Opened(rpak));
      match Conversions(im, LayoutOf(im.tables).assets)
      case Bad => Refused
      case Good(cs) =>
        if cs == [] then Files(File(im), starpaks) else
          ConversionsInside(im, LayoutOf(im.tables).assets);
          match (RpakStreams.Restreamed(starpaks, cs), Relaid(im, cs))
          case (Some(streams), Some(out)) => Files(File(out), streams)
          case _ => Refused
  }

  lemma HeaderPut(im: Image, at: nat, n: nat, v: nat)
    requires at + n <= |im.tables|
    ensures File(Written(im, InTables(at), n, v)) == Put(File(im), at, n, v)
  {
    hide LeBytes;
    var t, rest := im.tables, Flat(im.pages, |im.pages|);
    assert (t + rest)[..at] == t[..at];
    assert (t + rest)[at + n..] == t[at + n..] + rest;
  }

  lemma SizesEnd(im: Image, plans: seq<Plan>, cs: seq<Conversion>, moved: Image, cur: Image, size: nat)
    requires WellFormed(im) && |plans| == LayoutOf(im.tables).pages
    requires Sizing(im, plans, cs, moved, LayoutOf(im.tables).pages + LayoutOf(im.tables).slabs, cur)
    requires size == |File(cur)|
    ensures |cur.tables| >= HEADER && SameShape(Laid(im, plans), moved)
    ensures Written(Written(cur, InTables(0x18), 8, size), InTables(0x28), 8, size) == Finished(im, plans, cs, moved)
  {
    hide LayoutOf, AllMarked, Laid, Written, Flat, Apart, FieldsMove, HeadsMove, File, PageSize, Moving, AllMoved;
    var l := LayoutOf(im.tables);
    var marked := RpakKept.Headed(im, plans, cs, moved);
    RpakSizes.SameSize(marked, cur);
    FileSizeEdits(im.tables, plans, size);
    var es := Edits(im.tables, plans, size);
    hide Edits, EditAt, RpakKept.Headed;
    LastEdits(marked, es, l.pages + l.slabs);
  }

  lemma LastEdits(im: Image, es: seq<Edit>, n: nat)
    requires EditsFit(im, es) && |es| == n + 2
    ensures EditsFit(Edited(im, es, n), es) && EditsFit(Edited(im, es, n + 1), es)
    ensures Edited(im, es, n + 2) == var e, f := es[n], es[n + 1];
              Written(Written(Edited(im, es, n), e.place, e.n, e.v), f.place, f.n, f.v)
  {
    hide Written, Fits;
    forall k | 0 <= k < |es|
      ensures Fits(Edited(im, es, n), es[k].place, es[k].n) && Fits(Edited(im, es, n + 1), es[k].place, es[k].n)
    {
      FitsSame(im, Edited(im, es, n), es[k].place, es[k].n);
      FitsSame(im, Edited(im, es, n + 1), es[k].place, es[k].n);
    }
  }

  lemma FileSizeEdits(t: seq<Byte>, plans: seq<Plan>, size: nat)
    requires Tabled(t) && LayoutOf(t).pages == |plans|
    ensures var n := LayoutOf(t).pages + LayoutOf(t).slabs;
            && EditAt(t, plans, size, n) == Edit(InTables(0x18), 8, size)
            && EditAt(t, plans, size, n + 1) == Edit(InTables(0x28), 8, size)
  {
    hide LayoutOf, SlabDelta, SlabTotal;
  }

  method MoveReferences(im: Image, plans: seq<Plan>, laid: Image) returns (ok: bool, moved: Image)
    requires WellFormed(im) && Planned(im, plans) && laid == Laid(im, plans)
    ensures ok ==> FieldsMove(im, plans) && Moving(im, plans) == Some(moved)
    ensures !ok ==> CannotMove(im, plans)
  {
    hide LayoutOf, Laid, MovedTo, FieldsMove, CannotMove;
    ok, moved := MovePointers(im, plans, laid);
    if ok {
      ok, moved := MoveUses(im, plans, moved);
    }
    if ok {
      ok, moved := MoveAssets(im, plans, moved);
    }
    if ok {
      MovedToEnd(im, plans, moved);
    }
  }

  lemma MovedToEnd(im: Image, plans: seq<Plan>, moved: Image)
    requires WellFormed(im) && Planned(im, plans) && FieldsMove(im, plans)
    requires MovedTo(im, plans, RefCount(LayoutOf(im.tables)), moved)
    ensures Moving(im, plans) == Some(moved)
  {
    hide LayoutOf, Laid, RefAt, AllMoved;
  }

  lemma CannotRelay(im: Image, cs: seq<Conversion>)
    requires WellFormed(im) && Planned(im, Plans(im, cs)) && CannotMove(im, Plans(im, cs))
    ensures Relaid(im, cs) == None
  {
    hide Moving;
  }

  method Relay(im: Image, cs: seq<Conversion>) returns (ok: bool, rpak: seq<Byte>)
    requires WellFormed(im) && InPages(im, cs) && RpakMoves.AllGrow(cs)
    ensures ok <==> Relaid(im, cs).Some?
    ensures ok ==> rpak == File(Relaid(im, cs).value)
  {
    hide LayoutOf, Plans, Finished, Laid, Moving, CannotMove, FieldsMove, HeadsMove, Sized, InPages, RpakMoves.AllGrow, PageSize;
    rpak := [];
    var plans, moved;
    ok, plans := MakePlans(im, cs);
    if !ok {
      return;
    }
    var laid := RebuildPages(im, plans);
    ok, moved := MoveReferences(im, plans, laid);
    if !ok {
      CannotRelay(im, cs);
      return;
    }
    RpakMoves.PlansValid(im, cs);
    ok, rpak := Finish(im, plans, cs, moved);
  }

  method Finish(im: Image, plans: seq<Plan>, cs: seq<Conversion>, moved: Image) returns (ok: bool, rpak: seq<Byte>)
    requires WellFormed(im) && Planned(im, plans) && RpakMoves.AllValid(plans)
    requires FieldsMove(im, plans) && Moving(im, plans) == Some(moved)
    ensures ok <==> HeadsMove(im, plans, cs) && Sized(plans)
    ensures ok ==> rpak == File(Finished(im, plans, cs, moved))
  {
    hide LayoutOf, Finished, Laid, Moving, FieldsMove, HeadsMove, Sized, RpakMoves.AllValid, PageSize, Sizing, Put, File, RpakKept.Headed;
    hide Written;
    rpak := [];
    var cur;
    ok, cur := MarkHeads(im, plans, cs, moved);
    if !ok {
      return;
    }
    ok, cur := WritePageSizes(im, plans, cur);
    if !ok {
      return;
    }
    SizingStart(im, plans, cs, moved, cur);
    cur := WriteSlabs(im, plans, cs, moved, cur);
    rpak := Assemble(cur);
    SizesEnd(im, plans, cs, moved, cur, |rpak|);
    HeaderPut(cur, 0x18, 8, |rpak|);
    HeaderPut(Written(cur, InTables(0x18), 8, |rpak|), 0x28, 8, |rpak|);
    HeaderRoom(cur);
    var size := |rpak|;
    rpak := Put(rpak, 0x18, 8, size);
    rpak := Put(rpak, 0x28, 8, size);
  }

  lemma HeaderRoom(im: Image)
    requires |im.tables| >= HEADER
    ensures |File(im)| >= HEADER
  {
  }

  lemma SizingStart(im: Image, plans: seq<Plan>, cs: seq<Conversion>, moved: Image, cur: Image)
    requires WellFormed(im) && Agreed(im, plans, cs) && Moving(im, plans) == Some(moved)
    requires EditsFit(RpakKept.Headed(im, plans, cs, moved),
                      Edits(im.tables, plans, FileSize(RpakKept.Headed(im, plans, cs, moved))))
    requires cur == Edited(RpakKept.Headed(im, plans, cs, moved),
                           Edits(im.tables, plans, FileSize(RpakKept.Headed(im, plans, cs, moved))), |plans|)
    ensures |plans| == LayoutOf(im.tables).pages && Sizing(im, plans, cs, moved, LayoutOf(im.tables).pages, cur)
  {
  }

  method Convert(rpak: seq<Byte>, starpaks: seq<seq<Byte>>) returns (r: Outcome)
    ensures r == ConvertedFiles(rpak, starpaks)
  {
    hide LayoutOf, Relaid, Opened, U16, U32, PageStart, Conversions, RpakStreams.Restreamed, Put, File;
    if |rpak| < HEADER || rpak[..4] != [82, 80, 97, 107] || U16(rpak, 4) != 7 {
      return Refused;
    }
    if U16(rpak, 6) > 1 || U16(rpak, 0x3e) != 0 {
      return Refused;
    }
    var ok, l := ReadLayout(rpak);
    if !ok {
      return Refused;
    }
    var pages;
    ok, pages := ReadPages(rpak);
    if !ok {
      return Refused;
    }
    FileOpened(rpak);
    ClearedWellFormed(Opened(rpak));
    var im := ClearedParts(rpak, pages);
    var collected := CollectConversions(im);
    if collected.Bad? {
      return Refused;
    }
    var cs := collected.conversions;
    if cs == [] {
      var same := Assemble(im);
      return Files(same, starpaks);
    }
    ConversionsInside(im, LayoutOf(im.tables).assets);
    RpakMoves.ConversionsGrow(im, LayoutOf(im.tables).assets);
    var streams := RpakStreams.Restream(starpaks, cs);
    if streams.None? {
      return Refused;
    }
    var converted;
    ok, converted := Relay(im, cs);
    if !ok {
      return Refused;
    }
    r := Files(converted, streams.value);
  }

  // The tables without the module flag, and the pages.
  method ClearedParts(rpak: seq<Byte>, pages: seq<seq<Byte>>) returns (im: Image)
    requires Opens(rpak) && pages == Opened(rpak).pages
    ensures |Opened(rpak).tables| >= HEADER && im == Cleared(Opened(rpak))
  {
    hide LayoutOf, PageStart, FirstPages;
    im := Image(Put(rpak[..LayoutOf(rpak).End()], 6, 2, 0), pages);
  }
}
