// The last write that lands on a byte of a page.
module RpakLast {
  import opened Options
  import opened Bits
  import opened RpakBytes
  import opened RpakImage
  import opened RpakRelocate
  import opened RpakSpecs
  import opened RpakConvert
  import opened RpakMoves
  import opened RpakKept

  function ByteAt(im: Image, q: Place): Byte
    requires Fits(im, q, 1)
  {
    Holder(im, q)[q.at]
  }

  predicate Reads8(im: Image, q: Place)
    requires Fits(im, q, 1)
  {
    ByteAt(im, q) as nat == PS4_PLATFORM
  }

  // Whether an n-byte number v written at p puts the PS4 platform at q.
  predicate Puts8(p: Place, n: nat, v: nat, q: Place) {
    p.at <= q.at < p.at + n && LeBytes(v, n)[q.at - p.at] as nat == PS4_PLATFORM
  }

  lemma WrittenByte(im: Image, p: Place, n: nat, v: nat, q: Place)
    requires Fits(im, p, n) && Fits(im, q, 1)
    ensures !Apart(p, n, q, 1) ==> (Reads8(Written(im, p, n, v), q) <==> Puts8(p, n, v, q))
    ensures Apart(p, n, q, 1) ==> ByteAt(Written(im, p, n, v), q) == ByteAt(im, q)
  {
  }

  // ---------- Marks ----------

  // The mark of a header at h leaves the PS4 platform at q, a byte that it writes.
  predicate MarkLeaves(h: Place, total: nat, q: Place) {
    q == h.Plus(28) || Puts8(h.Plus(24), 4, total, q)
  }

  // The last of the first n headers whose mark writes the byte at q.
  function LastMark(ps: seq<Place>, n: nat, q: Place): (j: Option<nat>)
    requires n <= |ps|
    ensures j.Some? ==> j.value < n && !ClearOfMarks(ps[j.value], q, 1)
    ensures forall i :: (if j.Some? then j.value < i else 0 <= i) && i < n ==> ClearOfMarks(ps[i], q, 1)
    decreases n, |ps|
  {
    if n == 0 then None else if ClearOfMarks(ps[n - 1], q, 1) then LastMark(ps, n - 1, q) else Some(n - 1)
  }

  lemma EightBytes()
    ensures LeBytes(PS4_PLATFORM, 1) == [8]
  {
    assert LeBytes(PS4_PLATFORM / 256, 0) == [];
  }

  lemma OddIsNot8(b: nat)
    ensures LeBytes(Odd(b), 1)[0] as nat != PS4_PLATFORM
  {
    var odd := Odd(b);
    assert odd % 2 == 1;
    assert odd % 256 % 2 == 1;
    assert LeBytes(odd, 1)[0] == odd % 256;
  }

  lemma MarkedByte(im: Image, h: Place, total: nat, q: Place)
    requires Fits(im, h, HEAD_SIZE) && Fits(im, q, 1) && !ClearOfMarks(h, q, 1)
    ensures Reads8(Marked(im, h, total), q) <==> MarkLeaves(h, total, q)
  {
    hide Written, Word, ByteAt, LeBytes;
    var sized := Written(im, h.Plus(24), 4, total);
    var platformed := Written(sized, h.Plus(28), 1, PS4_PLATFORM);
    var flags := Odd(Word(platformed, h.Plus(32), 1));
    WrittenByte(im, h.Plus(24), 4, total, q);
    WrittenByte(sized, h.Plus(28), 1, PS4_PLATFORM, q);
    WrittenByte(platformed, h.Plus(32), 1, flags, q);
    OddIsNot8(Word(platformed, h.Plus(32), 1));
    EightBytes();
  }

  lemma SameByte(a: Image, b: Image, q: Place)
    requires Fits(a, q, 1) && Fits(b, q, 1) && Bytes(a, q, 1) == Bytes(b, q, 1)
    ensures ByteAt(a, q) == ByteAt(b, q)
  {
    assert Bytes(a, q, 1)[0] == ByteAt(a, q) && Bytes(b, q, 1)[0] == ByteAt(b, q);
  }

  // After n marks the byte reads 8 exactly when the last of them to write it leaves 8, or none does and it read 8.
  lemma {:induction false} AllMarkedByte(im: Image, ps: seq<Place>, totals: seq<nat>, n: nat, q: Place)
    requires n <= |ps| == |totals| && PlacesFit(im, ps, HEAD_SIZE) && Fits(im, q, 1)
    ensures Reads8(AllMarked(im, ps, totals, n), q) <==>
            if LastMark(ps, n, q).Some? then MarkLeaves(ps[LastMark(ps, n, q).value], totals[LastMark(ps, n, q).value], q)
            else Reads8(im, q)
    decreases n
  {
    hide Fits, Bytes, ClearOfMarks, Marked, MarkLeaves, ByteAt;
    if n > 0 {
      var before := AllMarked(im, ps, totals, n - 1);
      FitsSame(im, before, ps[n - 1], HEAD_SIZE);
      FitsSame(im, before, q, 1);
      if ClearOfMarks(ps[n - 1], q, 1) {
        FitsSame(im, AllMarked(im, ps, totals, n), q, 1);
        AllMarkedByte(im, ps, totals, n - 1, q);
        MarkedElsewhere(before, ps[n - 1], totals[n - 1], q, 1);
        SameByte(before, AllMarked(im, ps, totals, n), q);
      } else {
        MarkedByte(before, ps[n - 1], totals[n - 1], q);
      }
    }
  }

  // ---------- Moved offsets ----------

  // Moving the k-th reference, when its turn comes, writes the byte at q.
  predicate OffsetWrites(im: Image, plans: seq<Plan>, refs: seq<Reference>, k: nat, q: Place)
    requires k < |refs| && AllFit(im, refs)
  {
    && AllMoved(im, plans, refs, k).Some?
    && var before := AllMoved(im, plans, refs, k).value;
       FitsSame(im, before, refs[k].place, 8);
       !refs[k].Absent(before) && !Apart(refs[k].place.Plus(4), 4, q, 1)
  }

  // What it writes there is 8.
  predicate OffsetLeaves(im: Image, plans: seq<Plan>, refs: seq<Reference>, k: nat, q: Place)
    requires k < |refs| && AllFit(im, refs)
  {
    && AllMoved(im, plans, refs, k).Some?
    && var before := AllMoved(im, plans, refs, k).value;
       FitsSame(im, before, refs[k].place, 8);
       var to := MapTarget(plans, refs[k].Page(before), refs[k].Offset(before));
       to.Some? && Puts8(refs[k].place.Plus(4), 4, to.value, q)
  }

  lemma {:induction false} MovedBefore(im: Image, plans: seq<Plan>, refs: seq<Reference>, k: nat, n: nat)
    requires k <= n <= |refs| && AllFit(im, refs) && AllMoved(im, plans, refs, n).Some?
    ensures AllMoved(im, plans, refs, k).Some?
    decreases n
  {
    hide Moved;
    if k < n {
      MovedBefore(im, plans, refs, k, n - 1);
    }
  }

  // The last of the first n references whose moved offset is written over the byte at q.
  function LastOffset(im: Image, plans: seq<Plan>, refs: seq<Reference>, n: nat, q: Place): (k: Option<nat>)
    requires n <= |refs| && AllFit(im, refs)
    ensures k.Some? ==> k.value < n
    decreases n, |refs|
  {
    if n == 0 then None
    else if OffsetWrites(im, plans, refs, n - 1, q) then Some(n - 1)
    else LastOffset(im, plans, refs, n - 1, q)
  }

  lemma {:induction false} LastIs(im: Image, plans: seq<Plan>, refs: seq<Reference>, n: nat, q: Place)
    requires n <= |refs| && AllFit(im, refs)
    ensures var k := LastOffset(im, plans, refs, n, q);
            && (k.Some? ==> OffsetWrites(im, plans, refs, k.value, q))
            && forall i :: (if k.Some? then k.value < i else 0 <= i) && i < n ==> !OffsetWrites(im, plans, refs, i, q)
    decreases n
  {
    hide OffsetWrites;
    if n > 0 {
      LastIs(im, plans, refs, n - 1, q);
    }
  }

  lemma MovedByte(im: Image, plans: seq<Plan>, r: Reference, q: Place)
    requires r.Fits(im) && Fits(im, q, 1) && Moved(im, plans, r).Some?
    ensures r.Absent(im) || Apart(r.place.Plus(4), 4, q, 1) ==> ByteAt(Moved(im, plans, r).value, q) == ByteAt(im, q)
    ensures !r.Absent(im) && !Apart(r.place.Plus(4), 4, q, 1) ==>
            (Reads8(Moved(im, plans, r).value, q) <==>
             Puts8(r.place.Plus(4), 4, MapTarget(plans, r.Page(im), r.Offset(im)).value, q))
  {
    hide Written, ByteAt, LeBytes, Le;
    if !r.Absent(im) {
      WrittenByte(im, r.place.Plus(4), 4, MapTarget(plans, r.Page(im), r.Offset(im)).value, q);
    }
  }

  // The same for the moved references.
  lemma {:induction false} AllMovedByte(im: Image, plans: seq<Plan>, refs: seq<Reference>, n: nat, q: Place)
    requires n <= |refs| && AllFit(im, refs) && AllMoved(im, plans, refs, n).Some? && Fits(im, q, 1)
    ensures Reads8(AllMoved(im, plans, refs, n).value, q) <==>
            if LastOffset(im, plans, refs, n, q).Some?
            then OffsetLeaves(im, plans, refs, LastOffset(im, plans, refs, n, q).value, q)
            else Reads8(im, q)
    decreases n
  {
    hide Fits, Moved, ByteAt, Puts8, Apart, MapTarget, Reference.Absent, Reference.Page, Reference.Offset;
    if n > 0 {
      MovedBefore(im, plans, refs, n - 1, n);
      var before := AllMoved(im, plans, refs, n - 1).value;
      FitsSame(im, before, refs[n - 1].place, 8);
      FitsSame(im, before, q, 1);
      MovedByte(before, plans, refs[n - 1], q);
      MovedTarget(before, plans, refs[n - 1]);
      if !OffsetWrites(im, plans, refs, n - 1, q) {
        AllMovedByte(im, plans, refs, n - 1, q);
      }
    }
  }

  lemma MovedTarget(im: Image, plans: seq<Plan>, r: Reference)
    requires r.Fits(im) && Moved(im, plans, r).Some?
    ensures r.Absent(im) || MapTarget(plans, r.Page(im), r.Offset(im)).Some?
  {
  }
}
