// What a conversion keeps: references, the other bytes of every page, texture data, sizes and slab totals.
module RpakKept {
  import opened Options
  import opened Bits
  import opened RpakBytes
  import opened RpakPages
  import opened RpakImage
  import opened RpakLayout
  import opened RpakRelocate
  import opened RpakSpecs
  import opened RpakConvert
  import opened RpakMoves

  // The conversions take the image to `out`.
  ghost predicate Yields(im: Image, cs: seq<Conversion>, out: Image) {
    WellFormed(im) && AllGrow(cs) && Relaid(im, cs) == Some(out)
  }

  lemma Stages(im: Image, cs: seq<Conversion>, out: Image) returns (moved: Image)
    requires Yields(im, cs, out)
    ensures Agreed(im, Plans(im, cs), cs) && AllValid(Plans(im, cs)) && Small(Plans(im, cs))
    ensures Moving(im, Plans(im, cs)) == Some(moved)
    ensures SameShape(Laid(im, Plans(im, cs)), moved)
    ensures out == Finished(im, Plans(im, cs), cs, moved)
    ensures SameShape(Laid(im, Plans(im, cs)), out)
  {
    PlansValid(im, cs);
    moved := Moving(im, Plans(im, cs)).value;
  }

  // ---------- Headers ----------

  // The bytes that marking a header at h writes.
  predicate ClearOfMarks(h: Place, p: Place, n: nat) {
    Apart(h.Plus(24), 5, p, n) && Apart(h.Plus(32), 1, p, n)
  }

  lemma MarkedElsewhere(im: Image, h: Place, total: nat, p: Place, n: nat)
    requires Fits(im, h, HEAD_SIZE) && Fits(im, p, n) && ClearOfMarks(h, p, n)
    ensures Bytes(Marked(im, h, total), p, n) == Bytes(im, p, n)
  {
    hide Bytes, Written, Word;
    var sized := Written(im, h.Plus(24), 4, total);
    WrittenElsewhere(im, h.Plus(24), 4, total, p, n);
    var platformed := Written(sized, h.Plus(28), 1, PS4_PLATFORM);
    WrittenElsewhere(sized, h.Plus(28), 1, PS4_PLATFORM, p, n);
    WrittenElsewhere(platformed, h.Plus(32), 1, Odd(Word(platformed, h.Plus(32), 1)), p, n);
  }

  lemma {:induction false} AllMarkedElsewhere(im: Image, ps: seq<Place>, totals: seq<nat>, n: nat, p: Place, m: nat)
    requires n <= |ps| == |totals| && PlacesFit(im, ps, HEAD_SIZE) && Fits(im, p, m)
    requires forall i :: 0 <= i < n ==> ClearOfMarks(ps[i], p, m)
    ensures Bytes(AllMarked(im, ps, totals, n), p, m) == Bytes(im, p, m)
    decreases n
  {
    hide Fits, Bytes, ClearOfMarks, Marked;
    if n > 0 {
      AllMarkedElsewhere(im, ps, totals, n - 1, p, m);
      var before := AllMarked(im, ps, totals, n - 1);
      FitsSame(im, before, ps[n - 1], HEAD_SIZE);
      FitsSame(im, before, p, m);
      MarkedElsewhere(before, ps[n - 1], totals[n - 1], p, m);
    }
  }

  // A marked header: the low 32 bits of the total size, the PS4 platform and the swizzle flag.
  ghost predicate HeadReads(im: Image, h: Place, total: nat) {
    && Fits(im, h, HEAD_SIZE)
    && Word(im, h.Plus(24), 4) == total % WORD32
    && Word(im, h.Plus(28), 1) == PS4_PLATFORM && Word(im, h.Plus(32), 1) % 2 == 1
  }

  lemma SameHead(a: Image, b: Image, h: Place, total: nat)
    requires HeadReads(a, h, total) && Fits(b, h, HEAD_SIZE)
    requires Bytes(b, h.Plus(24), 5) == Bytes(a, h.Plus(24), 5) && Bytes(b, h.Plus(32), 1) == Bytes(a, h.Plus(32), 1)
    ensures HeadReads(b, h, total)
  {
    hide Word, Bytes;
    PlusPlus(h, 24, 0);
    PlusPlus(h, 24, 4);
    PlusPlus(h, 32, 0);
    WordSame(a, h.Plus(24), b, h.Plus(24), 5, 0, 4);
    WordSame(a, h.Plus(24), b, h.Plus(24), 5, 4, 1);
    WordSame(a, h.Plus(32), b, h.Plus(32), 1, 0, 1);
  }

  lemma PlusPlus(p: Place, a: nat, b: nat)
    ensures p.Plus(a).Plus(b) == p.Plus(a + b)
  {
  }

  lemma LowByte(im: Image, p: Place)
    requires Fits(im, p, 1)
    ensures Word(im, p, 1) < 256
  {
    LeBound(Holder(im, p), p.at, 1);
    assert Limit(1) == 256;
  }

  // A size that does not fit in four bytes loses its high digits.
  lemma WrittenLow(im: Image, p: Place, v: nat)
    requires Fits(im, p, 4)
    ensures Word(Written(im, p, 4, v), p, 4) == v % WORD32
  {
    hide Le, LeBytes;
    Limit4();
    LowDigits(v);
    assert Written(im, p, 4, v) == Written(im, p, 4, v % WORD32);
    WrittenStands(im, p, 4, v % WORD32);
  }

  lemma SameDigit(high: nat, low: nat)
    ensures (256 * high + low) % 256 == low % 256
  {
  }

  lemma LowDigits(v: nat)
    ensures LeBytes(v, 4) == LeBytes(v % WORD32, 4)
  {
    var q, r := v / WORD32, v % WORD32;
    FourDigits(v);
    FourDigits(r);
    hide LeBytes;
    assert v == 0x1_0000_0000 * q + r;
    assert v / 256 == 0x100_0000 * q + r / 256;
    assert v / 65536 == 0x1_0000 * q + r / 65536;
    assert v / 0x100_0000 == 0x100 * q + r / 0x100_0000;
    SameDigit(0x100_0000 * q, r);
    SameDigit(0x1_0000 * q, r / 256);
    SameDigit(0x100 * q, r / 65536);
    SameDigit(q, r / 0x100_0000);
  }

  lemma FourDigits(v: nat)
    ensures LeBytes(v, 4) == [v % 256, v / 256 % 256, v / 65536 % 256, v / 0x100_0000 % 256]
  {
    var a, b, c := v / 256, v / 65536, v / 0x100_0000;
    assert a / 256 == b && b / 256 == c;
    assert LeBytes(c / 256, 0) == [];
    assert LeBytes(c, 1) == [c % 256];
    assert LeBytes(b, 2) == [b % 256, c % 256];
    assert LeBytes(a, 3) == [a % 256, b % 256, c % 256];
  }

  lemma MarkedReads(im: Image, h: Place, total: nat)
    requires Fits(im, h, HEAD_SIZE)
    ensures HeadReads(Marked(im, h, total), h, total)
  {
    hide Bytes, Written, Word, Le;
    Limit4();
    assert Limit(1) == 256;
    var sized := Written(im, h.Plus(24), 4, total);
    var platformed := Written(sized, h.Plus(28), 1, PS4_PLATFORM);
    var flags := Odd(Word(platformed, h.Plus(32), 1));
    var done := Written(platformed, h.Plus(32), 1, flags);
    LowByte(platformed, h.Plus(32));
    WrittenStands(platformed, h.Plus(32), 1, flags);
    WrittenStands(sized, h.Plus(28), 1, PS4_PLATFORM);
    WrittenElsewhere(platformed, h.Plus(32), 1, flags, h.Plus(28), 1);
    WrittenElsewhere(platformed, h.Plus(32), 1, flags, h.Plus(24), 4);
    WrittenElsewhere(sized, h.Plus(28), 1, PS4_PLATFORM, h.Plus(24), 4);
    PlusPlus(h, 24, 0);
    PlusPlus(h, 28, 0);
    WordSame(done, h.Plus(28), platformed, h.Plus(28), 1, 0, 1);
    WordSame(done, h.Plus(24), sized, h.Plus(24), 4, 0, 4);
    WrittenLow(im, h.Plus(24), total);
  }

  // A header that no later mark touches reads as marked.
  lemma {:induction false} AllMarkedRead(im: Image, ps: seq<Place>, totals: seq<nat>, n: nat, k: nat)
    requires k < n <= |ps| == |totals| && PlacesFit(im, ps, HEAD_SIZE)
    requires forall i :: k < i < n ==> ClearOfMarks(ps[i], ps[k].Plus(24), 9)
    ensures HeadReads(AllMarked(im, ps, totals, n), ps[k], totals[k])
    decreases n
  {
    hide Bytes, HeadReads, Marked;
    var before := AllMarked(im, ps, totals, n - 1);
    FitsSame(im, before, ps[n - 1], HEAD_SIZE);
    if k == n - 1 {
      MarkedReads(before, ps[k], totals[k]);
    } else {
      AllMarkedRead(im, ps, totals, n - 1, k);
      FitsSame(im, before, ps[k], HEAD_SIZE);
      NineClear(ps[n - 1], ps[k]);
      MarkedElsewhere(before, ps[n - 1], totals[n - 1], ps[k].Plus(24), 5);
      MarkedElsewhere(before, ps[n - 1], totals[n - 1], ps[k].Plus(32), 1);
      SameHead(before, AllMarked(im, ps, totals, n), ps[k], totals[k]);
    }
  }

  lemma NineClear(g: Place, h: Place)
    requires ClearOfMarks(g, h.Plus(24), 9)
    ensures ClearOfMarks(g, h.Plus(24), 5) && ClearOfMarks(g, h.Plus(32), 1)
  {
  }

  // ---------- From the moved image to the end ----------

  lemma PlaceFits(im: Image, ps: seq<Place>, i: nat)
    requires PlacesFit(im, ps, HEAD_SIZE) && i < |ps|
    ensures Fits(im, ps[i], HEAD_SIZE)
  {
  }

  lemma MarkedTable(im: Image, p: Place, total: nat)
    requires Fits(im, p, HEAD_SIZE) && p.InPage?
    ensures Marked(im, p, total).tables == im.tables
  {
  }

  lemma {:induction false} MarkedTables(im: Image, ps: seq<Place>, totals: seq<nat>, n: nat)
    requires n <= |ps| == |totals| && PlacesFit(im, ps, HEAD_SIZE) && forall i :: 0 <= i < n ==> ps[i].InPage?
    ensures AllMarked(im, ps, totals, n).tables == im.tables
    decreases n
  {
    hide Fits, Marked, SameShape, PlacesFit;
    if n > 0 {
      PlaceFits(im, ps, n - 1);
      MarkedTables(im, ps, totals, n - 1);
      FitsSame(im, AllMarked(im, ps, totals, n - 1), ps[n - 1], HEAD_SIZE);
      MarkedTable(AllMarked(im, ps, totals, n - 1), ps[n - 1], totals[n - 1]);
    }
  }

  lemma {:induction false} EditedPages(im: Image, es: seq<Edit>, n: nat)
    requires n <= |es| && EditsFit(im, es) && forall k :: 0 <= k < n ==> es[k].place.InTables?
    ensures Edited(im, es, n).pages == im.pages
    decreases n
  {
    if n > 0 {
      EditedPages(im, es, n - 1);
    }
  }

  // The image with its headers marked, before the sizes are written.
  ghost function Headed(im: Image, plans: seq<Plan>, cs: seq<Conversion>, moved: Image): (r: Image)
    requires WellFormed(im) && Planned(im, plans) && HeadsMove(im, plans, cs)
    requires SameShape(Laid(im, plans), moved)
    ensures SameShape(moved, r)
  {
    PlacesSame(Laid(im, plans), moved, HeadPlaces(im, plans, cs));
    AllMarked(moved, HeadPlaces(im, plans, cs), Totals(cs), |cs|)
  }

  lemma HeadedTables(im: Image, plans: seq<Plan>, cs: seq<Conversion>, moved: Image)
    requires WellFormed(im) && Planned(im, plans) && HeadsMove(im, plans, cs)
    requires SameShape(Laid(im, plans), moved)
    ensures Headed(im, plans, cs, moved).tables == moved.tables
  {
    var ps := HeadPlaces(im, plans, cs);
    PlacesSame(Laid(im, plans), moved, ps);
    forall i | 0 <= i < |ps| ensures ps[i].InPage? {
      assert MovedPlace(plans, HeadPlace(cs[i])) == Some(ps[i]);
    }
    MarkedTables(moved, ps, Totals(cs), |cs|);
  }

  lemma FinishedPages(im: Image, plans: seq<Plan>, cs: seq<Conversion>, moved: Image)
    requires WellFormed(im) && Planned(im, plans) && HeadsMove(im, plans, cs)
    requires SameShape(Laid(im, plans), moved)
    ensures Finished(im, plans, cs, moved).pages == Headed(im, plans, cs, moved).pages
  {
    hide Laid, AllMarked, EditAt, LayoutOf;
    var marked := Headed(im, plans, cs, moved);
    EditFits(marked, im.tables, plans, FileSize(marked));
    var es := Edits(im.tables, plans, FileSize(marked));
    forall k | 0 <= k < |es| ensures es[k].place.InTables? {
      EditInTables(im.tables, plans, FileSize(marked), k);
    }
    EditedPages(marked, es, |es|);
  }

  lemma EditInTables(t: seq<Byte>, plans: seq<Plan>, size: nat, k: nat)
    requires Tabled(t) && LayoutOf(t).pages == |plans| && k < LayoutOf(t).pages + LayoutOf(t).slabs + 2
    ensures EditAt(t, plans, size, k).place.InTables?
  {
  }

  // Bytes of the tables that no size is written over.
  ghost predicate NoSizeAt(l: Layout, at: nat, n: nat) {
    && (at + n <= 0x18 || 0x20 <= at) && (at + n <= 0x28 || 0x30 <= at)
    && (forall s :: 0 <= s < l.slabs ==> at + n <= l.Slab(s) + 8 || l.Slab(s) + 16 <= at)
    && forall p :: 0 <= p < l.pages ==> at + n <= l.Page(p) + 8 || l.Page(p) + 12 <= at
  }

  lemma EditApart(t: seq<Byte>, plans: seq<Plan>, size: nat, k: nat, at: nat, n: nat)
    requires Tabled(t) && LayoutOf(t).pages == |plans| && k < LayoutOf(t).pages + LayoutOf(t).slabs + 2
    requires NoSizeAt(LayoutOf(t), at, n)
    ensures var e := EditAt(t, plans, size, k); Apart(e.place, e.n, InTables(at), n)
  {
    hide LayoutOf;
  }

  lemma FinishedTables(im: Image, plans: seq<Plan>, cs: seq<Conversion>, moved: Image, at: nat, n: nat)
    requires WellFormed(im) && Planned(im, plans) && HeadsMove(im, plans, cs)
    requires SameShape(Laid(im, plans), moved)
    requires at + n <= |moved.tables| && NoSizeAt(LayoutOf(im.tables), at, n)
    ensures Bytes(Finished(im, plans, cs, moved), InTables(at), n) == Bytes(moved, InTables(at), n)
  {
    hide Laid, AllMarked, EditAt, LayoutOf, NoSizeAt;
    var marked := Headed(im, plans, cs, moved);
    HeadedTables(im, plans, cs, moved);
    EditFits(marked, im.tables, plans, FileSize(marked));
    var es := Edits(im.tables, plans, FileSize(marked));
    forall k | 0 <= k < |es| ensures Apart(es[k].place, es[k].n, InTables(at), n) {
      EditApart(im.tables, plans, FileSize(marked), k, at, n);
    }
    EditedElsewhere(marked, es, |es|, InTables(at), n);
  }

  // ---------- References in the tables ----------

  lemma SpotUnsized(l: Layout, k: nat)
    requires IsSpot(l, k)
    ensures NoSizeAt(l, SpotOf(l, k), 8) && SpotOf(l, k) + 8 <= l.End()
  {
    SpotInside(l, k);
  }

  // Every pointer descriptor, use and asset pointer leads to where its old target went.
  lemma TableReferenceKept(im: Image, cs: seq<Conversion>, out: Image, k: nat)
    requires Yields(im, cs, out) && IsSpot(LayoutOf(im.tables), k)
    ensures Planned(im, Plans(im, cs)) && FieldsMove(im, Plans(im, cs))
    ensures var r := RefAt(im, Plans(im, cs), k);
            r.Fits(im) && r.Fits(out) && r.Leads(im, out, Plans(im, cs))
  {
    hide LayoutOf, RefAt, Finished, Apart, Moved;
    var moved := Stages(im, cs, out);
    var plans := Plans(im, cs);
    var refs, l := Refs(im, plans), LayoutOf(im.tables);
    RefsFit(im, plans);
    TableRefAlone(im, plans, k);
    AllLead(Laid(im, plans), plans, refs, |refs|, k);
    SpotRef(im, plans, k);
    SpotUnsized(l, k);
    FinishedTables(im, plans, cs, moved, SpotOf(l, k), 8);
    SameReference(out, moved, refs[k]);
  }

  lemma SpotKept(im: Image, cs: seq<Conversion>, out: Image, k: nat, r: Reference)
    requires Yields(im, cs, out) && IsSpot(LayoutOf(im.tables), k)
    requires r.place == InTables(SpotOf(LayoutOf(im.tables), k))
    requires r.optional == (k >= 2 * LayoutOf(im.tables).pointers + LayoutOf(im.tables).uses)
    ensures r.Fits(im) && r.Fits(out) && r.Leads(im, out, Plans(im, cs))
  {
    TableReferenceKept(im, cs, out, k);
    hide LayoutOf, Relaid, AllGrow, Plans, Reference.Leads, Reference.Fits, IsSpot;
    RefIs(im, Plans(im, cs), k, r);
  }

  lemma RefIs(im: Image, plans: seq<Plan>, k: nat, r: Reference)
    requires WellFormed(im) && Planned(im, plans) && FieldsMove(im, plans) && IsSpot(LayoutOf(im.tables), k)
    requires r.place == InTables(SpotOf(LayoutOf(im.tables), k))
    requires r.optional == (k >= 2 * LayoutOf(im.tables).pointers + LayoutOf(im.tables).uses)
    ensures r == RefAt(im, plans, k)
  {
    hide LayoutOf;
  }

  lemma Spots(l: Layout, i: nat)
    ensures i < l.pointers ==> IsSpot(l, 2 * i) && PointerRef(l, i).place == InTables(SpotOf(l, 2 * i))
    ensures i < l.uses ==> var k := 2 * l.pointers + i; IsSpot(l, k) && UseRef(l, i).place == InTables(SpotOf(l, k))
    ensures i < l.assets ==> var k := 2 * l.pointers + l.uses + 2 * i;
              && IsSpot(l, k) && AssetRef(l, i, false).place == InTables(SpotOf(l, k))
              && IsSpot(l, k + 1) && AssetRef(l, i, true).place == InTables(SpotOf(l, k + 1))
  {
  }

  lemma PointerKept(im: Image, cs: seq<Conversion>, out: Image, i: nat)
    requires Yields(im, cs, out) && i < LayoutOf(im.tables).pointers
    ensures var r := PointerRef(LayoutOf(im.tables), i);
            r.Fits(im) && r.Fits(out) && r.Leads(im, out, Plans(im, cs))
  {
    hide LayoutOf, Relaid, Plans, Reference.Leads, IsSpot, SpotOf, AllGrow, Reference.Fits, PageSize;
    var l := LayoutOf(im.tables);
    Spots(l, i);
    SpotKept(im, cs, out, 2 * i, PointerRef(l, i));
  }

  lemma UseKept(im: Image, cs: seq<Conversion>, out: Image, i: nat)
    requires Yields(im, cs, out) && i < LayoutOf(im.tables).uses
    ensures var r := UseRef(LayoutOf(im.tables), i);
            r.Fits(im) && r.Fits(out) && r.Leads(im, out, Plans(im, cs))
  {
    hide LayoutOf, Relaid, Plans, Reference.Leads, IsSpot, SpotOf, AllGrow, Reference.Fits, PageSize;
    var l := LayoutOf(im.tables);
    Spots(l, i);
    SpotKept(im, cs, out, 2 * l.pointers + i, UseRef(l, i));
  }

  lemma AssetKept(im: Image, cs: seq<Conversion>, out: Image, i: nat, cpu: bool)
    requires Yields(im, cs, out) && i < LayoutOf(im.tables).assets
    ensures var r := AssetRef(LayoutOf(im.tables), i, cpu);
            r.Fits(im) && r.Fits(out) && r.Leads(im, out, Plans(im, cs))
  {
    hide LayoutOf, Relaid, Plans, Reference.Leads, IsSpot, SpotOf, AllGrow, Reference.Fits, PageSize;
    var l := LayoutOf(im.tables);
    Spots(l, i);
    SpotKept(im, cs, out, 2 * l.pointers + l.uses + 2 * i + if cpu then 1 else 0, AssetRef(l, i, cpu));
  }
}
