// Moving references to where their targets went.
module RpakRelocate {
  import opened Options
  import opened RpakBytes
  import opened RpakPages
  import opened RpakImage

  const NO_PAGE: nat := 0xffff_ffff

  // What happens to one page: its old size and the ranges replaced in it.
  datatype Plan = Plan(size: nat, patches: seq<Patch>) {
    function NewSize(): int {
      size + Delta(patches, 0, size)
    }

    ghost predicate Valid() {
      Ordered(patches, size) && Growing(patches)
    }
  }

  function MapTarget(plans: seq<Plan>, page: nat, offset: nat): Option<nat> {
    if page < |plans| then MapOffset(plans[page].patches, plans[page].size, offset) else None
  }

  // A page number and an offset, four bytes each, at a place. An optional one may name no page.
  datatype Reference = Reference(place: Place, optional: bool) {
    predicate Fits(im: Image) {
      RpakImage.Fits(im, place, 8)
    }

    function Page(im: Image): (v: nat)
      requires Fits(im)
    {
      Word32(im, place)
    }

    function Offset(im: Image): (v: nat)
      requires Fits(im)
    {
      Word32(im, place.Plus(4))
    }

    predicate Absent(im: Image)
      requires Fits(im)
    {
      optional && Page(im) == NO_PAGE
    }

    predicate Movable(im: Image, plans: seq<Plan>)
      requires Fits(im)
    {
      Absent(im) || MapTarget(plans, Page(im), Offset(im)).Some?
    }

    // In `after` it leads to where the plans move what it led to in `before`.
    predicate Leads(before: Image, after: Image, plans: seq<Plan>)
      requires Fits(before) && Fits(after)
    {
      && Page(after) == Page(before)
      && if Absent(before) then Offset(after) == Offset(before)
         else MapTarget(plans, Page(before), Offset(before)) == Some(Offset(after))
    }
  }

  function Moved(im: Image, plans: seq<Plan>, r: Reference): (out: Option<Image>)
    requires r.Fits(im)
    ensures out.Some? ==> SameShape(im, out.value)
  {
    if r.Absent(im) then Some(im) else
      match MapTarget(plans, r.Page(im), r.Offset(im))
      case None => None
      case Some(offset) => Some(Written(im, r.place.Plus(4), 4, offset))
  }

  ghost predicate AllFit(im: Image, refs: seq<Reference>) {
    forall k :: 0 <= k < |refs| ==> refs[k].Fits(im)
  }

  // The first n references moved, one after the other.
  function AllMoved(im: Image, plans: seq<Plan>, refs: seq<Reference>, n: nat): (out: Option<Image>)
    requires n <= |refs| && AllFit(im, refs)
    ensures out.Some? ==> SameShape(im, out.value)
    decreases n, |refs|
  {
    if n == 0 then Some(im) else
      match AllMoved(im, plans, refs, n - 1)
      case None => None
      case Some(before) => FitsSame(im, before, refs[n - 1].place, 8); Moved(before, plans, refs[n - 1])
  }

  // No other reference's offset word touches the k-th reference.
  ghost predicate Alone(refs: seq<Reference>, k: nat)
    requires k < |refs|
  {
    forall j :: 0 <= j < |refs| && j != k ==> Apart(refs[j].place.Plus(4), 4, refs[k].place, 8)
  }

  // Every new offset can be written in four bytes.
  ghost predicate Small(plans: seq<Plan>) {
    forall p :: 0 <= p < |plans| ==> plans[p].Valid() && plans[p].NewSize() < WORD32
  }

  lemma TargetFits(plans: seq<Plan>, page: nat, offset: nat)
    requires Small(plans) && MapTarget(plans, page, offset).Some?
    ensures MapTarget(plans, page, offset).value < Limit(4)
  {
    var p := plans[page];
    MapDefined(p.patches, p.size, offset);
    DeltaGrows(p.patches, 0, offset, p.size);
    Limit4();
  }

  lemma MovedElsewhere(im: Image, plans: seq<Plan>, r: Reference, q: Place, m: nat)
    requires r.Fits(im) && Moved(im, plans, r).Some? && Fits(im, q, m) && Apart(r.place.Plus(4), 4, q, m)
    ensures Bytes(Moved(im, plans, r).value, q, m) == Bytes(im, q, m)
  {
    if !r.Absent(im) {
      WrittenElsewhere(im, r.place.Plus(4), 4, MapTarget(plans, r.Page(im), r.Offset(im)).value, q, m);
    }
  }

  // Bytes no moved offset lies in stay as they are.
  lemma {:induction false} AllMovedElsewhere(im: Image, plans: seq<Plan>, refs: seq<Reference>, n: nat, q: Place, m: nat)
    requires n <= |refs| && AllFit(im, refs) && AllMoved(im, plans, refs, n).Some? && Fits(im, q, m)
    requires forall k :: 0 <= k < n ==> Apart(refs[k].place.Plus(4), 4, q, m)
    ensures Bytes(AllMoved(im, plans, refs, n).value, q, m) == Bytes(im, q, m)
    decreases n
  {
    hide Moved, Apart, RpakImage.Fits, Bytes;
    if n > 0 {
      AllMovedElsewhere(im, plans, refs, n - 1, q, m);
      var before := AllMoved(im, plans, refs, n - 1).value;
      FitsSame(im, before, refs[n - 1].place, 8);
      FitsSame(im, before, q, m);
      MovedElsewhere(before, plans, refs[n - 1], q, m);
    }
  }

  lemma SameReference(a: Image, b: Image, r: Reference)
    requires r.Fits(a) && r.Fits(b) && Bytes(a, r.place, 8) == Bytes(b, r.place, 8)
    ensures r.Page(a) == r.Page(b) && r.Offset(a) == r.Offset(b)
  {
    WordSame(a, r.place, b, r.place, 8, 0, 4);
    WordSame(a, r.place, b, r.place, 8, 4, 4);
  }

  // A reference not reached yet still reads as it did.
  lemma NotYetMoved(im: Image, plans: seq<Plan>, refs: seq<Reference>, n: nat, k: nat)
    requires n <= k < |refs| && AllFit(im, refs) && Alone(refs, k) && AllMoved(im, plans, refs, n).Some?
    ensures refs[k].Fits(AllMoved(im, plans, refs, n).value)
    ensures refs[k].Page(AllMoved(im, plans, refs, n).value) == refs[k].Page(im)
    ensures refs[k].Offset(AllMoved(im, plans, refs, n).value) == refs[k].Offset(im)
  {
    AllMovedElsewhere(im, plans, refs, n, refs[k].place, 8);
    SameReference(AllMoved(im, plans, refs, n).value, im, refs[k]);
  }

  lemma MovedLeads(im: Image, plans: seq<Plan>, r: Reference)
    requires r.Fits(im) && Small(plans) && Moved(im, plans, r).Some?
    ensures r.Leads(im, Moved(im, plans, r).value, plans)
  {
    if !r.Absent(im) {
      TargetFits(plans, r.Page(im), r.Offset(im));
      var offset := MapTarget(plans, r.Page(im), r.Offset(im)).value;
      WrittenStands(im, r.place.Plus(4), 4, offset);
      WrittenElsewhere(im, r.place.Plus(4), 4, offset, r.place, 4);
      WordSame(Written(im, r.place.Plus(4), 4, offset), r.place, im, r.place, 4, 0, 4);
    }
  }

  // A reference that no other one touches leads to where its own old target went.
  lemma {:induction false} AllLead(im: Image, plans: seq<Plan>, refs: seq<Reference>, n: nat, k: nat)
    requires k < n <= |refs| && AllFit(im, refs) && Alone(refs, k) && Small(plans)
    requires AllMoved(im, plans, refs, n).Some?
    ensures refs[k].Fits(AllMoved(im, plans, refs, n).value)
    ensures refs[k].Leads(im, AllMoved(im, plans, refs, n).value, plans)
    decreases n
  {
    hide Written, Apart, MapTarget, RpakImage.Fits;
    var before, after := AllMoved(im, plans, refs, n - 1).value, AllMoved(im, plans, refs, n).value;
    FitsSame(im, before, refs[n - 1].place, 8);
    FitsSame(im, after, refs[k].place, 8);
    if k == n - 1 {
      NotYetMoved(im, plans, refs, n - 1, k);
      MovedLeads(before, plans, refs[k]);
    } else {
      AllLead(im, plans, refs, n - 1, k);
      MovedElsewhere(before, plans, refs[n - 1], refs[k].place, 8);
      SameReference(after, before, refs[k]);
    }
  }

  lemma MovedIffMovable(im: Image, before: Image, plans: seq<Plan>, r: Reference)
    requires r.Fits(im) && r.Fits(before) && r.Page(before) == r.Page(im) && r.Offset(before) == r.Offset(im)
    ensures Moved(before, plans, r).Some? <==> r.Movable(im, plans)
  {
  }

  // The move is refused exactly when some target lies inside a replaced range or outside its page.
  lemma {:induction false} AllMovable(im: Image, plans: seq<Plan>, refs: seq<Reference>, n: nat)
    requires n <= |refs| && AllFit(im, refs) && forall k :: 0 <= k < n ==> Alone(refs, k)
    ensures AllMoved(im, plans, refs, n).Some? <==> forall k :: 0 <= k < n ==> refs[k].Movable(im, plans)
    decreases n
  {
    hide Written, Apart, MapTarget, RpakImage.Fits, Reference.Page, Reference.Offset;
    if n > 0 {
      AllMovable(im, plans, refs, n - 1);
      if AllMoved(im, plans, refs, n - 1).Some? {
        NotYetMoved(im, plans, refs, n - 1, n - 1);
        MovedIffMovable(im, AllMoved(im, plans, refs, n - 1).value, plans, refs[n - 1]);
      }
    }
  }
}
