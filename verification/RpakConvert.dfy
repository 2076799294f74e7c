// The conversion of an archive's textures, as a function from image to image.
module RpakConvert {
  import opened Options
  import opened Bits
  import opened RpakBytes
  import opened RpakPages
  import opened RpakImage
  import opened RpakLayout
  import opened RpakRelocate
  import opened RpakSpecs

  // ---------- What is replaced where ----------

  function PatchOf(c: Conversion): Patch {
    Patch(c.cpuOffset, c.oldSize, c.data)
  }

  // What the first n conversions replace in page p.
  function PatchesOf(cs: seq<Conversion>, n: nat, p: nat): seq<Patch>
    requires n <= |cs|
    decreases n, |cs|
  {
    if n == 0 then []
    else if cs[n - 1].cpuPage == p then PatchesOf(cs, n - 1, p) + [PatchOf(cs[n - 1])]
    else PatchesOf(cs, n - 1, p)
  }

  function Insert(ps: seq<Patch>, x: Patch): seq<Patch> {
    if ps == [] then [x]
    else if x.start < ps[0].start then [x] + ps
    else [ps[0]] + Insert(ps[1..], x)
  }

  // The first n patches in order of where they start.
  function Sorted(ps: seq<Patch>, n: nat): seq<Patch>
    requires n <= |ps|
    decreases n, |ps|
  {
    if n == 0 then [] else Insert(Sorted(ps, n - 1), ps[n - 1])
  }

  function PlanOf(im: Image, cs: seq<Conversion>, p: nat): Plan
    requires p < |im.pages|
  {
    Plan(|im.pages[p]|, Sorted(PatchesOf(cs, |cs|, p), |PatchesOf(cs, |cs|, p)|))
  }

  function Plans(im: Image, cs: seq<Conversion>): (plans: seq<Plan>)
    ensures |plans| == |im.pages|
    ensures forall p :: 0 <= p < |plans| ==> plans[p] == PlanOf(im, cs, p)
  {
    seq(|im.pages|, p requires 0 <= p < |im.pages| => PlanOf(im, cs, p))
  }

  // Each page has a plan whose patches are apart and inside it.
  ghost predicate Planned(im: Image, plans: seq<Plan>) {
    && |plans| == |im.pages|
    && forall p :: 0 <= p < |plans| ==> plans[p].size == |im.pages[p]| && Ordered(plans[p].patches, plans[p].size)
  }

  ghost function Laid(im: Image, plans: seq<Plan>): (r: Image)
    requires Planned(im, plans)
    ensures r.tables == im.tables && |r.pages| == |im.pages|
    ensures forall p :: 0 <= p < |r.pages| ==> r.pages[p] == Rebuilt(im.pages[p], plans[p].patches)
  {
    im.(pages := seq(|im.pages|, p requires 0 <= p < |im.pages| => Rebuilt(im.pages[p], plans[p].patches)))
  }

  // ---------- References ----------

  function PointerRef(l: Layout, i: nat): Reference {
    Reference(InTables(l.Pointer(i)), false)
  }

  function UseRef(l: Layout, i: nat): Reference {
    Reference(InTables(l.Use(i)), false)
  }

  // An asset's two pointers: to its header and to its data.
  function AssetRef(l: Layout, i: nat, cpu: bool): Reference {
    Reference(InTables(l.Asset(i) + if cpu then 24 else 16), true)
  }

  // The place a pointer descriptor names, in the old pages.
  function OldField(im: Image, i: nat): (r: Reference)
    requires WellFormed(im) && i < LayoutOf(im.tables).pointers
    ensures r.place.InPage?
  {
    var at := LayoutOf(im.tables).Pointer(i);
    Reference(InPage(U32(im.tables, at), U32(im.tables, at + 4)), true)
  }

  // A place of the old pages, in the new ones.
  function MovedPlace(plans: seq<Plan>, p: Place): Option<Place> {
    match p
    case InTables(_) => Some(p)
    case InPage(page, at) =>
      match MapTarget(plans, page, at)
      case None => None
      case Some(to) => Some(InPage(page, to))
  }

  // The new place is known and n bytes fit there.
  predicate MovesInto(im: Image, plans: seq<Plan>, p: Place, n: nat) {
    MovedPlace(plans, p).Some? && Fits(im, MovedPlace(plans, p).value, n)
  }

  ghost predicate FieldsMove(im: Image, plans: seq<Plan>)
    requires WellFormed(im) && Planned(im, plans)
  {
    forall i :: 0 <= i < LayoutOf(im.tables).pointers ==> MovesInto(Laid(im, plans), plans, OldField(im, i).place, 8)
  }

  function NewField(im: Image, plans: seq<Plan>, i: nat): Reference
    requires WellFormed(im) && i < LayoutOf(im.tables).pointers
    requires MovedPlace(plans, OldField(im, i).place).Some?
  {
    Reference(MovedPlace(plans, OldField(im, i).place).value, true)
  }

  // The number of references the conversion moves.
  function RefCount(l: Layout): nat {
    2 * l.pointers + l.uses + 2 * l.assets
  }

  // The k-th reference: descriptors each followed by the field it names, then uses, then assets' pointers in pairs.
  ghost function RefAt(im: Image, plans: seq<Plan>, k: nat): Reference
    requires WellFormed(im) && Planned(im, plans) && FieldsMove(im, plans) && k < RefCount(LayoutOf(im.tables))
  {
    var l := LayoutOf(im.tables);
    if k < 2 * l.pointers then
      if k % 2 == 0 then PointerRef(l, k / 2) else
        assert MovesInto(Laid(im, plans), plans, OldField(im, k / 2).place, 8);
        NewField(im, plans, k / 2)
    else if k < 2 * l.pointers + l.uses then UseRef(l, k - 2 * l.pointers)
    else AssetRef(l, (k - 2 * l.pointers - l.uses) / 2, (k - 2 * l.pointers - l.uses) % 2 == 1)
  }

  ghost function Refs(im: Image, plans: seq<Plan>): (refs: seq<Reference>)
    requires WellFormed(im) && Planned(im, plans) && FieldsMove(im, plans)
    ensures |refs| == RefCount(LayoutOf(im.tables))
    ensures forall k :: 0 <= k < |refs| ==> refs[k] == RefAt(im, plans, k)
  {
    seq(RefCount(LayoutOf(im.tables)), k requires 0 <= k < RefCount(LayoutOf(im.tables)) => RefAt(im, plans, k))
  }

  // ---------- Texture headers ----------

  function HeadPlace(c: Conversion): Place {
    InPage(c.headPage, c.headOffset)
  }

  ghost predicate HeadsMove(im: Image, plans: seq<Plan>, cs: seq<Conversion>)
    requires Planned(im, plans)
  {
    forall i :: 0 <= i < |cs| ==> MovesInto(Laid(im, plans), plans, HeadPlace(cs[i]), HEAD_SIZE)
  }

  function Odd(b: nat): nat {
    b / 2 * 2 + 1
  }

  // The flag is the lowest bit; the others stay.
  lemma OddIs(b: nat)
    ensures Odd(b) == Or(b, 1)
  {
    OrZero(b / 2);
    assert b / 2 * 2 == 2 * (b / 2);
  }

  // The new total size, the platform and the swizzle flag, written into a header.
  function Marked(im: Image, p: Place, total: nat): (r: Image)
    requires Fits(im, p, HEAD_SIZE)
    ensures SameShape(im, r)
  {
    var sized := Written(im, p.Plus(24), 4, total);
    FitsSame(im, sized, p, HEAD_SIZE);
    var platformed := Written(sized, p.Plus(28), 1, PS4_PLATFORM);
    FitsSame(im, platformed, p, HEAD_SIZE);
    Written(platformed, p.Plus(32), 1, Odd(Word(platformed, p.Plus(32), 1)))
  }

  ghost predicate PlacesFit(im: Image, ps: seq<Place>, n: nat) {
    forall i :: 0 <= i < |ps| ==> Fits(im, ps[i], n)
  }

  ghost function NewHeadPlace(im: Image, plans: seq<Plan>, cs: seq<Conversion>, i: nat): (p: Place)
    requires Planned(im, plans) && HeadsMove(im, plans, cs) && i < |cs|
    ensures MovedPlace(plans, HeadPlace(cs[i])) == Some(p) && Fits(Laid(im, plans), p, HEAD_SIZE)
  {
    assert MovesInto(Laid(im, plans), plans, HeadPlace(cs[i]), HEAD_SIZE);
    MovedPlace(plans, HeadPlace(cs[i])).value
  }

  ghost function HeadPlaces(im: Image, plans: seq<Plan>, cs: seq<Conversion>): (ps: seq<Place>)
    requires Planned(im, plans) && HeadsMove(im, plans, cs)
    ensures |ps| == |cs| && PlacesFit(Laid(im, plans), ps, HEAD_SIZE)
    ensures forall i :: 0 <= i < |ps| ==> MovedPlace(plans, HeadPlace(cs[i])) == Some(ps[i])
  {
    seq(|cs|, i requires 0 <= i < |cs| => NewHeadPlace(im, plans, cs, i))
  }

  function AllMarked(im: Image, ps: seq<Place>, totals: seq<nat>, n: nat): (r: Image)
    requires n <= |ps| == |totals| && PlacesFit(im, ps, HEAD_SIZE)
    ensures SameShape(im, r)
    decreases n, |ps|
  {
    if n == 0 then im else
      var before := AllMarked(im, ps, totals, n - 1);
      FitsSame(im, before, ps[n - 1], HEAD_SIZE);
      Marked(before, ps[n - 1], totals[n - 1])
  }

  function Totals(cs: seq<Conversion>): (ts: seq<nat>)
    ensures |ts| == |cs| && forall i :: 0 <= i < |ts| ==> ts[i] == cs[i].newTotal
  {
    seq(|cs|, i requires 0 <= i < |cs| => cs[i].newTotal)
  }

  // ---------- Sizes ----------

  function PageSlab(t: seq<Byte>, p: nat): nat
    requires Tabled(t) && p < LayoutOf(t).pages
  {
    U32(t, LayoutOf(t).Page(p))
  }

  // How much the first n pages grow in a slab.
  function SlabDelta(t: seq<Byte>, plans: seq<Plan>, slab: nat, n: nat): int
    requires Tabled(t) && n <= LayoutOf(t).pages == |plans|
    decreases n, |plans|
  {
    if n == 0 then 0 else
      SlabDelta(t, plans, slab, n - 1) + if PageSlab(t, n - 1) == slab then plans[n - 1].NewSize() - plans[n - 1].size else 0
  }

  function SlabTotal(t: seq<Byte>, slab: nat): nat
    requires Tabled(t) && slab < LayoutOf(t).slabs
  {
    U64(t, LayoutOf(t).Slab(slab) + 8)
  }

  function NatOf(n: int): nat {
    if n < 0 then 0 else n
  }

  function FileSize(im: Image): nat {
    |File(im)|
  }

  // The k-th word written at the end: page sizes, slab totals, and the file's size twice.
  function EditAt(t: seq<Byte>, plans: seq<Plan>, size: nat, k: nat): Edit
    requires Tabled(t) && LayoutOf(t).pages == |plans| && k < LayoutOf(t).pages + LayoutOf(t).slabs + 2
  {
    var l := LayoutOf(t);
    if k < l.pages then Edit(InTables(l.Page(k) + 8), 4, NatOf(plans[k].NewSize()))
    else if k < l.pages + l.slabs then
      var slab := k - l.pages;
      Edit(InTables(l.Slab(slab) + 8), 8, NatOf(SlabTotal(t, slab) + SlabDelta(t, plans, slab, l.pages)))
    else Edit(InTables(if k == l.pages + l.slabs then 0x18 else 0x28), 8, size)
  }

  function Edits(t: seq<Byte>, plans: seq<Plan>, size: nat): (es: seq<Edit>)
    requires Tabled(t) && LayoutOf(t).pages == |plans|
    ensures |es| == LayoutOf(t).pages + LayoutOf(t).slabs + 2
    ensures forall k :: 0 <= k < |es| ==> es[k] == EditAt(t, plans, size, k)
  {
    seq(LayoutOf(t).pages + LayoutOf(t).slabs + 2,
        k requires 0 <= k < LayoutOf(t).pages + LayoutOf(t).slabs + 2 => EditAt(t, plans, size, k))
  }

  // ---------- The whole ----------

  lemma RefsFit(im: Image, plans: seq<Plan>)
    requires WellFormed(im) && Planned(im, plans) && FieldsMove(im, plans)
    ensures AllFit(Laid(im, plans), Refs(im, plans))
  {
    forall k | 0 <= k < RefCount(LayoutOf(im.tables)) ensures RefAt(im, plans, k).Fits(Laid(im, plans)) {
      RefFits(im, plans, k);
    }
  }

  lemma RefFits(im: Image, plans: seq<Plan>, k: nat)
    requires WellFormed(im) && Planned(im, plans) && FieldsMove(im, plans) && k < RefCount(LayoutOf(im.tables))
    ensures RefAt(im, plans, k).Fits(Laid(im, plans))
  {
    hide LayoutOf, MovedPlace, Laid, Rebuilt;
    var l := LayoutOf(im.tables);
    if k < 2 * l.pointers && k % 2 == 1 {
      assert MovesInto(Laid(im, plans), plans, OldField(im, k / 2).place, 8);
    }
  }

  lemma EditFits(im: Image, t: seq<Byte>, plans: seq<Plan>, size: nat)
    requires Tabled(t) && LayoutOf(t).pages == |plans| && |im.tables| >= LayoutOf(t).End()
    ensures EditsFit(im, Edits(t, plans, size))
  {
    hide LayoutOf, SlabDelta, SlabTotal, Plan.NewSize;
    forall k | 0 <= k < LayoutOf(t).pages + LayoutOf(t).slabs + 2
      ensures Fits(im, EditAt(t, plans, size, k).place, EditAt(t, plans, size, k).n)
    {
    }
  }

  // Every page size can be written in four bytes.
  ghost predicate Sized(plans: seq<Plan>) {
    forall p :: 0 <= p < |plans| ==> plans[p].NewSize() < WORD32
  }

  // The references moved, the headers marked and the sizes written.
  ghost function Finished(im: Image, plans: seq<Plan>, cs: seq<Conversion>, moved: Image): (r: Image)
    requires WellFormed(im) && Planned(im, plans) && HeadsMove(im, plans, cs)
    requires SameShape(Laid(im, plans), moved)
    ensures SameShape(Laid(im, plans), r)
  {
    PlacesSame(Laid(im, plans), moved, HeadPlaces(im, plans, cs));
    var marked := AllMarked(moved, HeadPlaces(im, plans, cs), Totals(cs), |cs|);
    EditFits(marked, im.tables, plans, FileSize(marked));
    var es := Edits(im.tables, plans, FileSize(marked));
    Edited(marked, es, |es|)
  }

  lemma PlacesSame(a: Image, b: Image, ps: seq<Place>)
    requires SameShape(a, b) && PlacesFit(a, ps, HEAD_SIZE)
    ensures PlacesFit(b, ps, HEAD_SIZE)
  {
    forall i | 0 <= i < |ps| ensures Fits(b, ps[i], HEAD_SIZE) {
      FitsSame(a, b, ps[i], HEAD_SIZE);
    }
  }

  ghost function Moving(im: Image, plans: seq<Plan>): (r: Option<Image>)
    requires WellFormed(im) && Planned(im, plans) && FieldsMove(im, plans)
    ensures r.Some? ==> SameShape(Laid(im, plans), r.value)
  {
    RefsFit(im, plans);
    AllMoved(Laid(im, plans), plans, Refs(im, plans), |Refs(im, plans)|)
  }

  // What must hold of the plans for the conversion to go through, the moved references aside.
  ghost predicate Agreed(im: Image, plans: seq<Plan>, cs: seq<Conversion>)
    requires WellFormed(im)
  {
    Planned(im, plans) && FieldsMove(im, plans) && HeadsMove(im, plans, cs) && Sized(plans)
  }

  ghost function Relaid(im: Image, cs: seq<Conversion>): Option<Image>
    requires WellFormed(im)
  {
    var plans := Plans(im, cs);
    if !Agreed(im, plans, cs) then None else
      match Moving(im, plans)
      case None => None
      case Some(moved) => Some(Finished(im, plans, cs, moved))
  }

  // The module flag is dropped.
  function Cleared(im: Image): Image
    requires |im.tables| >= HEADER
  {
    im.(tables := Put(im.tables, 6, 2, 0))
  }

  lemma ClearedWellFormed(im: Image)
    requires WellFormed(im)
    ensures WellFormed(Cleared(im)) && LayoutOf(Cleared(im).tables) == LayoutOf(im.tables)
  {
    var s, t, l := im.tables, Cleared(im).tables, LayoutOf(im.tables);
    SameCounts(s, t);
    forall p | 0 <= p < l.pages ensures PageSize(t, p) == PageSize(s, p) {
      LeElsewhere(s, 6, 2, 0, l.Page(p) + 8, 4);
    }
  }

  // The table sizes are read from the bytes 0x38 to 0x4f.
  lemma SameCounts(s: seq<Byte>, t: seq<Byte>)
    requires |s| >= HEADER && |t| >= HEADER && s[0x38..0x50] == t[0x38..0x50]
    ensures LayoutOf(t) == LayoutOf(s)
  {
    hide Le;
    SliceSame(s, 0x38, t, 0x38, 24, 0, 2);
    SliceSame(s, 0x38, t, 0x38, 24, 2, 2);
    SliceSame(s, 0x38, t, 0x38, 24, 4, 2);
    SliceSame(s, 0x38, t, 0x38, 24, 8, 4);
    SliceSame(s, 0x38, t, 0x38, 24, 12, 4);
    SliceSame(s, 0x38, t, 0x38, 24, 16, 4);
    SliceSame(s, 0x38, t, 0x38, 24, 20, 4);
  }

  ghost function ConvertedImage(im: Image): Option<Image>
    requires WellFormed(im)
  {
    ClearedWellFormed(im);
    var cleared := Cleared(im);
    match Conversions(cleared, LayoutOf(cleared.tables).assets)
    case Bad => None
    case Good(cs) => if cs == [] then Some(cleared) else Relaid(cleared, cs)
  }
}
