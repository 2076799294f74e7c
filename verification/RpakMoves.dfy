// Where the parts of an archive go when its texture data is replaced.
module RpakMoves {
  import opened Options
  import opened Bits
  import opened RpakTextures
  import opened RpakPages
  import opened RpakImage
  import opened RpakLayout
  import opened RpakRelocate
  import opened RpakSpecs
  import opened RpakConvert

  // ---------- Plans ----------

  ghost predicate AllGrow(cs: seq<Conversion>) {
    forall i :: 0 <= i < |cs| ==> 1 <= cs[i].oldSize <= |cs[i].data|
  }

  lemma ExaminedGrows(a: Asset, pages: seq<seq<Byte>>)
    requires ExaminedAsset(a, pages).Convert?
    ensures var c := ExaminedAsset(a, pages).conversion; 1 <= c.oldSize <= |c.data|
  {
    ConversionGrows(a, HeadAt(pages[a.headPage], a.headOffset), pages[a.cpuPage]);
  }

  lemma {:induction false} ConversionsGrow(im: Image, n: nat)
    requires WellFormed(im) && n <= LayoutOf(im.tables).assets
    ensures Conversions(im, n).Good? ==> AllGrow(Conversions(im, n).conversions)
    decreases n
  {
    hide LayoutOf, ExaminedAsset, AssetOf, WellFormed;
    if n > 0 && Conversions(im, n).Good? {
      ConversionsGrow(im, n - 1);
      ConversionsStep(im, n - 1);
      if ExaminedAsset(AssetOf(im, n - 1), im.pages).Convert? {
        ExaminedGrows(AssetOf(im, n - 1), im.pages);
      }
    }
  }

  lemma {:induction false} PatchesGrow(cs: seq<Conversion>, n: nat, p: nat)
    requires n <= |cs| && AllGrow(cs)
    ensures Growing(PatchesOf(cs, n, p))
    decreases n
  {
    if n > 0 {
      PatchesGrow(cs, n - 1, p);
    }
  }

  // Sorting only rearranges.
  lemma {:induction false} InsertKeeps(ps: seq<Patch>, x: Patch)
    ensures multiset(Insert(ps, x)) == multiset(ps) + multiset{x}
    decreases |ps|
  {
    if ps != [] {
      InsertKeeps(ps[1..], x);
      assert ps == [ps[0]] + ps[1..];
    }
  }

  lemma OneMore(ps: seq<Patch>, n: nat)
    requires 0 < n <= |ps|
    ensures multiset(ps[..n]) == multiset(ps[..n - 1]) + multiset{ps[n - 1]}
  {
    assert ps[..n] == ps[..n - 1] + [ps[n - 1]];
  }

  lemma {:induction false} SortedKeeps(ps: seq<Patch>, n: nat)
    requires n <= |ps|
    ensures multiset(Sorted(ps, n)) == multiset(ps[..n])
    decreases n
  {
    hide Insert;
    if n > 0 {
      SortedKeeps(ps, n - 1);
      InsertKeeps(Sorted(ps, n - 1), ps[n - 1]);
      OneMore(ps, n);
    }
  }

  ghost predicate ByStart(ps: seq<Patch>) {
    forall i, j :: 0 <= i < j < |ps| ==> ps[i].start <= ps[j].start
  }

  lemma {:induction false} InsertSorts(ps: seq<Patch>, x: Patch)
    requires ByStart(ps)
    ensures ByStart(Insert(ps, x))
    ensures |Insert(ps, x)| == |ps| + 1
    ensures forall y :: y in Insert(ps, x) ==> y == x || y in ps
    decreases |ps|
  {
    if ps != [] && x.start >= ps[0].start {
      InsertSorts(ps[1..], x);
      var r := Insert(ps[1..], x);
      forall k | 0 <= k < |r| ensures ps[0].start <= r[k].start {
        assert r[k] in r;
        assert r[k] == x || r[k] in ps;
      }
    }
  }

  lemma {:induction false} SortedSorts(ps: seq<Patch>, n: nat)
    requires n <= |ps|
    ensures ByStart(Sorted(ps, n)) && |Sorted(ps, n)| == n
    decreases n
  {
    if n > 0 {
      SortedSorts(ps, n - 1);
      InsertSorts(Sorted(ps, n - 1), ps[n - 1]);
    }
  }

  lemma SortedGrows(ps: seq<Patch>)
    requires Growing(ps)
    ensures Growing(Sorted(ps, |ps|))
  {
    SortedKeeps(ps, |ps|);
    assert ps[..|ps|] == ps;
    var r := Sorted(ps, |ps|);
    forall i | 0 <= i < |r| ensures 1 <= r[i].oldSize <= |r[i].data| {
      assert r[i] in multiset(r);
      assert r[i] in multiset(ps);
    }
  }

  ghost predicate AllValid(plans: seq<Plan>) {
    forall p :: 0 <= p < |plans| ==> plans[p].Valid()
  }

  // The plans of growing conversions that are apart only ever make pages grow.
  lemma PlansValid(im: Image, cs: seq<Conversion>)
    requires AllGrow(cs) && Planned(im, Plans(im, cs))
    ensures AllValid(Plans(im, cs))
  {
    var plans := Plans(im, cs);
    forall p | 0 <= p < |plans| ensures plans[p].Valid() {
      PatchesGrow(cs, |cs|, p);
      SortedGrows(PatchesOf(cs, |cs|, p));
    }
  }

  lemma {:induction false} PatchListed(cs: seq<Conversion>, n: nat, j: nat)
    requires j < n <= |cs|
    ensures PatchOf(cs[j]) in PatchesOf(cs, n, cs[j].cpuPage)
    decreases n
  {
    if j < n - 1 {
      PatchListed(cs, n - 1, j);
    }
  }

  // Each conversion's patch is in the plan of its page.
  lemma PatchPlanned(im: Image, cs: seq<Conversion>, j: nat) returns (n: nat)
    requires j < |cs| && cs[j].cpuPage < |im.pages|
    ensures n < |Plans(im, cs)[cs[j].cpuPage].patches|
    ensures Plans(im, cs)[cs[j].cpuPage].patches[n] == PatchOf(cs[j])
  {
    var ps := PatchesOf(cs, |cs|, cs[j].cpuPage);
    PatchListed(cs, |cs|, j);
    SortedKeeps(ps, |ps|);
    assert ps[..|ps|] == ps;
    assert PatchOf(cs[j]) in multiset(ps);
    assert PatchOf(cs[j]) in Sorted(ps, |ps|);
    n :| n < |Sorted(ps, |ps|)| && Sorted(ps, |ps|)[n] == PatchOf(cs[j]);
  }

  // ---------- Stretches that move as one ----------

  // n bytes of a page that no replaced range touches.
  ghost predicate Whole(im: Image, plans: seq<Plan>, p: Place, n: nat) {
    && p.InPage? && Fits(im, p, n) && p.page < |plans|
    && Clear(plans[p.page].patches, p.at, n)
  }

  lemma WholeMoves(im: Image, plans: seq<Plan>, p: Place, n: nat)
    requires Planned(im, plans) && AllValid(plans) && n > 0 && Whole(im, plans, p, n)
    ensures MovesInto(Laid(im, plans), plans, p, n)
    ensures MovedPlace(plans, p).value.InPage?
    ensures Bytes(Laid(im, plans), MovedPlace(plans, p).value, n) == Bytes(im, p, n)
  {
    SliceMoves(im.pages[p.page], plans[p.page].patches, p.at, n);
  }

  lemma SliceMoves(page: seq<Byte>, ps: seq<Patch>, at: nat, n: nat)
    requires Ordered(ps, |page|) && Growing(ps) && Clear(ps, at, n) && at + n <= |page| && n > 0
    ensures MapOffset(ps, |page|, at).Some?
    ensures var to := MapOffset(ps, |page|, at).value;
            to + n <= |Rebuilt(page, ps)| && Rebuilt(page, ps)[to..to + n] == page[at..at + n]
  {
    hide Rebuilt, MapOffset, Ordered, Growing, Clear;
    MovesTogether(page, ps, at, n, 0);
    MovesTogether(page, ps, at, n, n - 1);
    var to := MapOffset(ps, |page|, at).value;
    var moved, was := Rebuilt(page, ps)[to..to + n], page[at..at + n];
    forall k | 0 <= k < n ensures moved[k] == was[k] {
      MovesTogether(page, ps, at, n, k);
    }
    assert moved == was;
  }

  // The inside of a whole stretch moves with it.
  lemma PlusMoves(im: Image, plans: seq<Plan>, p: Place, n: nat, d: nat)
    requires Planned(im, plans) && AllValid(plans) && d < n && Whole(im, plans, p, n)
    ensures MovedPlace(plans, p).Some?
    ensures MovedPlace(plans, p.Plus(d)) == Some(MovedPlace(plans, p).value.Plus(d))
  {
    MovesTogether(im.pages[p.page], plans[p.page].patches, p.at, n, d);
  }

  lemma WholeInside(im: Image, plans: seq<Plan>, p: Place, n: nat, d: nat, k: nat)
    requires Whole(im, plans, p, n) && d + k <= n
    ensures Whole(im, plans, p.Plus(d), k)
  {
  }

  lemma LastMoves(im: Image, plans: seq<Plan>, p: Place, n: nat, q: Place)
    requires Planned(im, plans) && AllValid(plans) && n > 0 && Whole(im, plans, p, n)
    requires q.InPage? && q.page == p.page && p.at + n <= q.at && MovedPlace(plans, p).Some? && MovedPlace(plans, q).Some?
    ensures MovedPlace(plans, p).value.at + n <= MovedPlace(plans, q).value.at
  {
    MapIncreases(plans[p.page].patches, plans[p.page].size, p.at, q.at);
  }

  // Stretches that share no byte still share none after the move.
  lemma StillApart(im: Image, plans: seq<Plan>, p: Place, n: nat, q: Place, m: nat)
    requires Planned(im, plans) && AllValid(plans) && n > 0 && m > 0
    requires Whole(im, plans, p, n) && Whole(im, plans, q, m) && Apart(p, n, q, m)
    ensures MovedPlace(plans, p).Some? && MovedPlace(plans, q).Some?
    ensures Apart(MovedPlace(plans, p).value, n, MovedPlace(plans, q).value, m)
  {
    WholeMoves(im, plans, p, n);
    WholeMoves(im, plans, q, m);
    if p.page == q.page {
      if p.at + n <= q.at {
        LastMoves(im, plans, p, n, q);
      } else {
        LastMoves(im, plans, q, m, p);
      }
    }
  }

  // ---------- Which references overlap ----------

  lemma TableSpots(l: Layout, j: nat, k: nat)
    requires j < k
    ensures l.Pointer(j) + 8 <= l.Pointer(k) && l.Use(j) + 8 <= l.Use(k) && l.Asset(j) + 72 <= l.Asset(k)
    ensures l.Page(j) + 12 <= l.Page(k) && l.Slab(j) + 16 <= l.Slab(k)
  {
  }

  // The position in the tables of the k-th reference, if it is one in the tables.
  function SpotOf(l: Layout, k: nat): nat {
    if k < 2 * l.pointers then l.Pointer(k / 2)
    else if k < 2 * l.pointers + l.uses then l.Use(k - 2 * l.pointers)
    else l.Asset((k - 2 * l.pointers - l.uses) / 2) + if (k - 2 * l.pointers - l.uses) % 2 == 1 then 24 else 16
  }

  predicate IsSpot(l: Layout, k: nat) {
    k < RefCount(l) && (k >= 2 * l.pointers || k % 2 == 0)
  }

  lemma PointerSpot(l: Layout, i: nat)
    requires i < l.pointers
    ensures l.Pointer(0) <= l.Pointer(i) && l.Pointer(i) + 8 <= l.Pointer(l.pointers)
  {
  }

  lemma Halves(k: nat, n: nat)
    requires k < 2 * n
    ensures k / 2 < n
  {
  }

  lemma SpotInside(l: Layout, k: nat)
    requires IsSpot(l, k)
    ensures k < 2 * l.pointers ==> l.Pointer(0) <= SpotOf(l, k) && SpotOf(l, k) + 8 <= l.Pointer(l.pointers)
    ensures 2 * l.pointers <= k < 2 * l.pointers + l.uses ==> l.Use(0) <= SpotOf(l, k) && SpotOf(l, k) + 8 <= l.Use(l.uses)
    ensures 2 * l.pointers + l.uses <= k ==>
              var i := (k - 2 * l.pointers - l.uses) / 2;
              i < l.assets && l.Asset(i) + 16 <= SpotOf(l, k) && SpotOf(l, k) + 8 <= l.Asset(i) + 32
  {
    if k < 2 * l.pointers {
      PointerSpot(l, k / 2);
    } else if k >= 2 * l.pointers + l.uses {
      Halves(k - 2 * l.pointers - l.uses, l.assets);
    }
  }

  // The same table, at different entries or fields of one.
  lemma TwinSpots(l: Layout, j: nat, k: nat)
    requires IsSpot(l, j) && IsSpot(l, k) && j < k
    requires k < 2 * l.pointers || j >= 2 * l.pointers + l.uses || 2 * l.pointers <= j < k < 2 * l.pointers + l.uses
    ensures SpotOf(l, j) + 8 <= SpotOf(l, k)
  {
    if k < 2 * l.pointers {
      TableSpots(l, j / 2, k / 2);
    } else if j >= 2 * l.pointers + l.uses {
      var a, b := j - 2 * l.pointers - l.uses, k - 2 * l.pointers - l.uses;
      if a / 2 < b / 2 {
        TableSpots(l, a / 2, b / 2);
      }
    }
  }

  lemma TablesFollow(l: Layout)
    ensures l.Pointer(l.pointers) == l.Asset(0) && l.Asset(l.assets) == l.Use(0)
  {
  }

  lemma SpotsInOrder(l: Layout, j: nat, k: nat)
    requires IsSpot(l, j) && IsSpot(l, k) && j < k
    ensures SpotOf(l, j) + 8 <= SpotOf(l, k) || SpotOf(l, k) + 8 <= SpotOf(l, j)
  {
    if k < 2 * l.pointers || j >= 2 * l.pointers + l.uses || 2 * l.pointers <= j < k < 2 * l.pointers + l.uses {
      TwinSpots(l, j, k);
    } else {
      hide SpotOf;
      SpotInside(l, j);
      SpotInside(l, k);
      TablesFollow(l);
    }
  }

  lemma SpotsApart(l: Layout, j: nat, k: nat)
    requires IsSpot(l, j) && IsSpot(l, k) && j != k
    ensures SpotOf(l, j) + 8 <= SpotOf(l, k) || SpotOf(l, k) + 8 <= SpotOf(l, j)
  {
    hide SpotOf, IsSpot;
    if j < k {
      SpotsInOrder(l, j, k);
    } else {
      SpotsInOrder(l, k, j);
    }
  }

  lemma SpotRef(im: Image, plans: seq<Plan>, k: nat)
    requires WellFormed(im) && Planned(im, plans) && FieldsMove(im, plans) && k < RefCount(LayoutOf(im.tables))
    ensures var l := LayoutOf(im.tables);
            if IsSpot(l, k) then RefAt(im, plans, k).place == InTables(SpotOf(l, k)) else RefAt(im, plans, k).place.InPage?
  {
    hide LayoutOf, Laid;
    var l := LayoutOf(im.tables);
    if !IsSpot(l, k) {
      assert MovesInto(Laid(im, plans), plans, OldField(im, k / 2).place, 8);
    }
  }

  // No reference in the tables is touched by moving another.
  lemma TableRefAlone(im: Image, plans: seq<Plan>, k: nat)
    requires WellFormed(im) && Planned(im, plans) && FieldsMove(im, plans) && IsSpot(LayoutOf(im.tables), k)
    ensures Alone(Refs(im, plans), k)
  {
    hide LayoutOf, RefAt;
    var refs, l := Refs(im, plans), LayoutOf(im.tables);
    SpotRef(im, plans, k);
    forall j | 0 <= j < |refs| && j != k ensures Apart(refs[j].place.Plus(4), 4, refs[k].place, 8) {
      SpotRef(im, plans, j);
      if IsSpot(l, j) {
        SpotsApart(l, j, k);
      }
    }
  }

  // The k-th field lies whole between the replaced ranges, away from the other fields.
  ghost predicate FieldTidy(im: Image, plans: seq<Plan>, i: nat)
    requires WellFormed(im) && i < LayoutOf(im.tables).pointers
  {
    && Whole(im, plans, OldField(im, i).place, 8)
    && forall j :: 0 <= j < LayoutOf(im.tables).pointers && j != i ==>
         Whole(im, plans, OldField(im, j).place, 8) && Apart(OldField(im, i).place, 8, OldField(im, j).place, 8)
  }

  lemma FieldAlone(im: Image, plans: seq<Plan>, i: nat)
    requires WellFormed(im) && Planned(im, plans) && AllValid(plans) && FieldsMove(im, plans)
    requires i < LayoutOf(im.tables).pointers && FieldTidy(im, plans, i)
    ensures Alone(Refs(im, plans), 2 * i + 1)
  {
    hide LayoutOf, OldField, MovedPlace, Whole;
    var refs, l, k := Refs(im, plans), LayoutOf(im.tables), 2 * i + 1;
    FieldRef(im, plans, i);
    forall j | 0 <= j < |refs| && j != k ensures Apart(refs[j].place.Plus(4), 4, refs[k].place, 8) {
      SpotRef(im, plans, j);
      if !IsSpot(l, j) {
        FieldRef(im, plans, j / 2);
        StillApart(im, plans, OldField(im, i).place, 8, OldField(im, j / 2).place, 8);
      } else {
        SpotRef(im, plans, k);
      }
    }
  }

  lemma FieldRef(im: Image, plans: seq<Plan>, i: nat)
    requires WellFormed(im) && Planned(im, plans) && FieldsMove(im, plans) && i < LayoutOf(im.tables).pointers
    ensures MovedPlace(plans, OldField(im, i).place).Some?
    ensures Refs(im, plans)[2 * i + 1] == NewField(im, plans, i)
  {
    hide LayoutOf, OldField, MovedPlace, Laid;
    assert MovesInto(Laid(im, plans), plans, OldField(im, i).place, 8);
    assert RefAt(im, plans, 2 * i + 1) == NewField(im, plans, i);
  }
}
