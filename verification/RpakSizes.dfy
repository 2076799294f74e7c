// The sizes a conversion writes: of pages, of slabs and of the file.
module RpakSizes {
  import opened Bits
  import opened RpakBytes
  import opened RpakPages
  import opened RpakImage
  import opened RpakLayout
  import opened RpakRelocate
  import opened RpakSpecs
  import opened RpakConvert
  import opened RpakMoves
  import opened RpakKept

  // ---------- Bytes of the tables ----------

  // Bytes of the tables that no relocated offset is written over.
  ghost predicate NoOffsetAt(l: Layout, at: nat, n: nat) {
    forall k :: 0 <= k < RefCount(l) && IsSpot(l, k) ==> at + n <= SpotOf(l, k) + 4 || SpotOf(l, k) + 8 <= at
  }

  // Bytes of the tables that nothing is written over stay.
  lemma TablesKept(im: Image, cs: seq<Conversion>, out: Image, at: nat, n: nat)
    requires Yields(im, cs, out) && at + n <= |im.tables|
    requires NoSizeAt(LayoutOf(im.tables), at, n) && NoOffsetAt(LayoutOf(im.tables), at, n)
    ensures |out.tables| == |im.tables|
    ensures Bytes(out, InTables(at), n) == Bytes(im, InTables(at), n)
  {
    hide LayoutOf, RefAt, Finished, NoSizeAt, IsSpot, SpotOf;
    var moved := Stages(im, cs, out);
    var plans := Plans(im, cs);
    var refs, l := Refs(im, plans), LayoutOf(im.tables);
    RefsFit(im, plans);
    forall k | 0 <= k < |refs| ensures Apart(refs[k].place.Plus(4), 4, InTables(at), n) {
      SpotRef(im, plans, k);
    }
    AllMovedElsewhere(Laid(im, plans), plans, refs, |refs|, InTables(at), n);
    FinishedTables(im, plans, cs, moved, at, n);
  }

  lemma HeaderUntouched(l: Layout, at: nat, n: nat)
    requires at + n <= HEADER && (at + n <= 0x18 || 0x30 <= at)
    ensures NoSizeAt(l, at, n) && NoOffsetAt(l, at, n)
  {
    forall k | 0 <= k < RefCount(l) && IsSpot(l, k) ensures at + n <= SpotOf(l, k) {
      SpotInside(l, k);
    }
  }

  lemma PageSlabUntouched(l: Layout, p: nat)
    requires p < l.pages
    ensures NoSizeAt(l, l.Page(p), 4) && NoOffsetAt(l, l.Page(p), 4)
  {
    forall k | 0 <= k < RefCount(l) && IsSpot(l, k) ensures l.Page(p) + 4 <= SpotOf(l, k) {
      SpotInside(l, k);
    }
  }

  // The rest of an asset's descriptor: before, between and after its two offsets.
  lemma AssetUntouched(l: Layout, i: nat, d: nat, n: nat)
    requires i < l.assets && d + n <= 72 && (d + n <= 20 || (24 <= d && d + n <= 28) || 32 <= d)
    ensures NoSizeAt(l, l.Asset(i) + d, n) && NoOffsetAt(l, l.Asset(i) + d, n)
  {
    var at := l.Asset(i) + d;
    forall k | 0 <= k < RefCount(l) && IsSpot(l, k) ensures at + n <= SpotOf(l, k) + 4 || SpotOf(l, k) + 8 <= at {
      SpotInside(l, k);
      if 2 * l.pointers + l.uses <= k {
        var j := (k - 2 * l.pointers - l.uses) / 2;
        if j != i {
          TableSpots(l, if j < i then j else i, if j < i then i else j);
        }
      }
    }
  }

  lemma LayoutKept(im: Image, cs: seq<Conversion>, out: Image)
    requires Yields(im, cs, out)
    ensures Tabled(im.tables) && Tabled(out.tables) && HEADER <= |im.tables| && |Plans(im, cs)| == LayoutOf(im.tables).pages
    ensures |out.tables| == |im.tables| && LayoutOf(out.tables) == LayoutOf(im.tables)
  {
    var l := LayoutOf(im.tables);
    HeaderUntouched(l, 0x38, 24);
    hide LayoutOf, Relaid, AllGrow, NoSizeAt, NoOffsetAt;
    TablesKept(im, cs, out, 0x38, 24);
    SameCounts(im.tables, out.tables);
    assert |Plans(im, cs)| == |im.pages|;
  }

  // ---------- The words written at the end ----------

  lemma EditsApart(t: seq<Byte>, plans: seq<Plan>, size: nat, j: nat, k: nat)
    requires Tabled(t) && LayoutOf(t).pages == |plans| && j != k
    requires j < LayoutOf(t).pages + LayoutOf(t).slabs + 2 && k < LayoutOf(t).pages + LayoutOf(t).slabs + 2
    ensures var d, e := EditAt(t, plans, size, j), EditAt(t, plans, size, k); Apart(d.place, d.n, e.place, e.n)
  {
    hide LayoutOf, SlabDelta, SlabTotal, Plan.NewSize;
  }

  // The k-th of those words reads as written.
  lemma EditReads(im: Image, cs: seq<Conversion>, out: Image, size: nat, k: nat)
    requires Yields(im, cs, out) && k < LayoutOf(im.tables).pages + LayoutOf(im.tables).slabs + 2
    requires size == FileSize(out) && EditAt(im.tables, Plans(im, cs), size, k).v < Limit(EditAt(im.tables, Plans(im, cs), size, k).n)
    ensures var e := EditAt(im.tables, Plans(im, cs), size, k);
            Fits(out, e.place, e.n) && Word(out, e.place, e.n) == e.v
  {
    hide LayoutOf, EditAt, Apart, Plans, Laid;
    var moved := Stages(im, cs, out);
    var plans := Plans(im, cs);
    var marked := Headed(im, plans, cs, moved);
    SameSize(marked, out);
    EditFits(marked, im.tables, plans, size);
    var es := Edits(im.tables, plans, size);
    forall j | k < j < |es| ensures Apart(es[j].place, es[j].n, es[k].place, es[k].n) {
      EditsApart(im.tables, plans, size, j, k);
    }
    EditStands(marked, es, |es|, k);
    FitsSame(marked, out, es[k].place, es[k].n);
  }

  lemma {:induction false} SameFlat(a: Image, b: Image, n: nat)
    requires SameShape(a, b) && n <= |a.pages|
    ensures |Flat(a.pages, n)| == |Flat(b.pages, n)|
    decreases n
  {
    if n > 0 {
      SameFlat(a, b, n - 1);
    }
  }

  lemma SameSize(a: Image, b: Image)
    requires SameShape(a, b)
    ensures FileSize(a) == FileSize(b)
  {
    SameFlat(a, b, |a.pages|);
  }

  // ---------- Page sizes ----------

  lemma PageSizeKept(im: Image, cs: seq<Conversion>, out: Image, p: nat)
    requires Yields(im, cs, out) && p < LayoutOf(im.tables).pages
    ensures Tabled(out.tables) && LayoutOf(out.tables) == LayoutOf(im.tables) && p < |out.pages|
    ensures Plans(im, cs)[p].size == |im.pages[p]| == PageSize(im.tables, p)
    ensures |im.pages[p]| <= PageSize(out.tables, p) == |out.pages[p]| == Plans(im, cs)[p].NewSize()
  {
    hide LayoutOf, Relaid, Finished, Moving;
    var moved := Stages(im, cs, out);
    var plan := Plans(im, cs)[p];
    PageGrows(im.pages[p], plan.patches);
    LayoutKept(im, cs, out);
    Limit4();
    EditReads(im, cs, out, FileSize(out), p);
  }

  // The output is a well-formed archive with the same tables, and no page has shrunk.
  lemma StaysWellFormed(im: Image, cs: seq<Conversion>, out: Image)
    requires Yields(im, cs, out)
    ensures WellFormed(out) && LayoutOf(out.tables) == LayoutOf(im.tables)
    ensures |out.pages| == |im.pages| && forall p :: 0 <= p < |im.pages| ==> |im.pages[p]| <= |out.pages[p]|
  {
    hide LayoutOf, Relaid, Finished, Moving, PageSize, Laid;
    var moved := Stages(im, cs, out);
    LayoutKept(im, cs, out);
    forall p | 0 <= p < |im.pages| ensures |im.pages[p]| <= |out.pages[p]| == PageSize(out.tables, p) {
      PageSizeKept(im, cs, out, p);
    }
  }

  // ---------- Slab totals ----------

  // The sizes of a slab's pages, added up.
  function SlabSum(t: seq<Byte>, slab: nat, n: nat): nat
    requires Tabled(t) && n <= LayoutOf(t).pages
    decreases n, |t|
  {
    if n == 0 then 0 else SlabSum(t, slab, n - 1) + if PageSlab(t, n - 1) == slab then PageSize(t, n - 1) else 0
  }

  lemma {:induction false} SlabSumBound(t: seq<Byte>, slab: nat, n: nat)
    requires Tabled(t) && n <= LayoutOf(t).pages
    ensures SlabSum(t, slab, n) <= n * 0x1_0000_0000
    decreases n
  {
    hide LayoutOf, PageSlab;
    if n > 0 {
      SlabSumBound(t, slab, n - 1);
    }
  }

  lemma SameWord(a: Image, b: Image, at: nat)
    requires at + 4 <= |a.tables| && at + 4 <= |b.tables| && Bytes(a, InTables(at), 4) == Bytes(b, InTables(at), 4)
    ensures U32(a.tables, at) == U32(b.tables, at)
  {
    LeSame(a.tables, at, b.tables, at, 4);
  }

  lemma PageSlabKept(im: Image, cs: seq<Conversion>, out: Image, p: nat)
    requires Yields(im, cs, out) && p < LayoutOf(im.tables).pages
    ensures Tabled(out.tables) && LayoutOf(out.tables) == LayoutOf(im.tables)
    ensures PageSlab(out.tables, p) == PageSlab(im.tables, p)
  {
    var l := LayoutOf(im.tables);
    hide LayoutOf, NoSizeAt, NoOffsetAt, Relaid, AllGrow, PageSize, U32, Le;
    LayoutKept(im, cs, out);
    PageSlabUntouched(l, p);
    TablesKept(im, cs, out, l.Page(p), 4);
    SameWord(im, out, l.Page(p));
  }

  lemma SlabNone(t: seq<Byte>, plans: seq<Plan>, slab: nat)
    requires Tabled(t) && LayoutOf(t).pages == |plans|
    ensures SlabSum(t, slab, 0) == 0 && SlabDelta(t, plans, slab, 0) == 0
  {
  }

  lemma SlabStep(t: seq<Byte>, plans: seq<Plan>, slab: nat, n: nat)
    requires Tabled(t) && 0 < n <= LayoutOf(t).pages == |plans|
    ensures SlabSum(t, slab, n) == SlabSum(t, slab, n - 1) + if PageSlab(t, n - 1) == slab then PageSize(t, n - 1) else 0
    ensures SlabDelta(t, plans, slab, n) ==
            SlabDelta(t, plans, slab, n - 1) + if PageSlab(t, n - 1) == slab then plans[n - 1].NewSize() - plans[n - 1].size else 0
  {
  }

  // What a slab's total is increased by is what its pages grew, and is never negative.
  lemma {:induction false} SlabGrowth(im: Image, cs: seq<Conversion>, out: Image, slab: nat, n: nat)
    requires Yields(im, cs, out) && n <= LayoutOf(im.tables).pages
    ensures Tabled(out.tables) && LayoutOf(out.tables) == LayoutOf(im.tables)
    ensures |Plans(im, cs)| == LayoutOf(im.tables).pages
    ensures 0 <= SlabDelta(im.tables, Plans(im, cs), slab, n)
    ensures SlabSum(out.tables, slab, n) == SlabSum(im.tables, slab, n) + SlabDelta(im.tables, Plans(im, cs), slab, n)
    decreases n
  {
    hide LayoutOf, Relaid, AllGrow, PageSlab, PageSize, Plan.NewSize, PlanOf;
    LayoutKept(im, cs, out);
    var l, plans := LayoutOf(im.tables), Plans(im, cs);
    if n > 0 {
      SlabGrowth(im, cs, out, slab, n - 1);
      PageSizeKept(im, cs, out, n - 1);
      PageSlabKept(im, cs, out, n - 1);
      SlabStep(im.tables, plans, slab, n);
      SlabStep(out.tables, plans, slab, n);
    } else {
      SlabNone(im.tables, plans, slab);
      SlabNone(out.tables, plans, slab);
    }
  }

  // A slab total that was its pages' sizes still is.
  lemma SlabTotalKept(im: Image, cs: seq<Conversion>, out: Image, slab: nat)
    requires Yields(im, cs, out) && slab < LayoutOf(im.tables).slabs
    requires SlabTotal(im.tables, slab) == SlabSum(im.tables, slab, LayoutOf(im.tables).pages)
    ensures Tabled(out.tables) && LayoutOf(out.tables) == LayoutOf(im.tables)
    ensures SlabTotal(out.tables, slab) == SlabSum(out.tables, slab, LayoutOf(im.tables).pages)
  {
    hide *;
    LayoutKept(im, cs, out);
    var l := LayoutOf(im.tables);
    SlabGrowth(im, cs, out, slab, l.pages);
    SlabSumBound(out.tables, slab, l.pages);
    FewPages(im.tables);
    Limit8();
    SlabEdit(im.tables, Plans(im, cs), FileSize(out), slab);
    EditReads(im, cs, out, FileSize(out), l.pages + slab);
    SlabWord(out, slab);
  }

  lemma SlabEdit(t: seq<Byte>, plans: seq<Plan>, size: nat, slab: nat)
    requires Tabled(t) && LayoutOf(t).pages == |plans| && slab < LayoutOf(t).slabs
    requires 0 <= SlabDelta(t, plans, slab, LayoutOf(t).pages)
    ensures EditAt(t, plans, size, LayoutOf(t).pages + slab) ==
            Edit(InTables(LayoutOf(t).Slab(slab) + 8), 8, SlabTotal(t, slab) + SlabDelta(t, plans, slab, LayoutOf(t).pages))
  {
    hide LayoutOf, SlabTotal, SlabDelta;
  }

  lemma SlabWord(im: Image, slab: nat)
    requires Tabled(im.tables) && slab < LayoutOf(im.tables).slabs
    ensures SlabTotal(im.tables, slab) == Word(im, InTables(LayoutOf(im.tables).Slab(slab) + 8), 8)
  {
    hide LayoutOf, Le;
  }

  lemma FewPages(t: seq<Byte>)
    requires |t| >= HEADER
    ensures LayoutOf(t).pages < 65536 && LayoutOf(t).slabs < 65536 && LayoutOf(t).paths < 65536
  {
    Wide(t, 0x38);
    Wide(t, 0x3a);
    Wide(t, 0x3c);
  }

  lemma Limit8()
    ensures Limit(8) == 0x1_0000_0000_0000_0000
  {
  }

  // ---------- The file's size ----------

  lemma {:induction false} StartBound(t: seq<Byte>, p: nat)
    requires Tabled(t) && p <= LayoutOf(t).pages
    ensures PageStart(t, p) <= LayoutOf(t).End() + p * WORD32
    decreases p
  {
    hide LayoutOf;
    if p > 0 {
      StartBound(t, p - 1);
    }
  }

  // Both size fields of the header give the size of the file.
  lemma FileSizeWritten(im: Image, cs: seq<Conversion>, out: Image)
    requires Yields(im, cs, out)
    ensures |out.tables| >= HEADER
    ensures U64(out.tables, 0x18) == |File(out)| && U64(out.tables, 0x28) == |File(out)|
  {
    var l := LayoutOf(im.tables);
    StaysWellFormed(im, cs, out);
    FlatStart(out, |out.pages|);
    StartBound(out.tables, |out.pages|);
    FewPages(im.tables);
    Limit8();
    EditReads(im, cs, out, FileSize(out), l.pages + l.slabs);
    EditReads(im, cs, out, FileSize(out), l.pages + l.slabs + 1);
  }
}
