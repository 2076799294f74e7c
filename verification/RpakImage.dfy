// An archive held as its tables and its pages, and words written inside either.
module RpakImage {
  import opened Bits
  import opened RpakBytes

  datatype Image = Image(tables: seq<Byte>, pages: seq<seq<Byte>>)

  // A position in the tables or in a page.
  datatype Place = InTables(at: nat) | InPage(page: nat, at: nat) {
    function Plus(d: nat): Place {
      match this
      case InTables(at) => InTables(at + d)
      case InPage(page, at) => InPage(page, at + d)
    }
  }

  predicate Fits(im: Image, p: Place, n: nat) {
    match p
    case InTables(at) => at + n <= |im.tables|
    case InPage(page, at) => page < |im.pages| && at + n <= |im.pages[page]|
  }

  function Holder(im: Image, p: Place): seq<Byte>
    requires Fits(im, p, 0)
  {
    match p
    case InTables(_) => im.tables
    case InPage(page, _) => im.pages[page]
  }

  function Bytes(im: Image, p: Place, n: nat): (b: seq<Byte>)
    requires Fits(im, p, n)
    ensures |b| == n
  {
    Holder(im, p)[p.at..p.at + n]
  }

  function Word(im: Image, p: Place, n: nat): nat
    requires Fits(im, p, n)
  {
    Le(Holder(im, p), p.at, n)
  }

  function Word32(im: Image, p: Place): (v: nat)
    requires Fits(im, p, 4)
    ensures v < WORD32
  {
    U32(Holder(im, p), p.at)
  }

  function Written(im: Image, p: Place, n: nat, v: nat): (r: Image)
    requires Fits(im, p, n)
    ensures SameShape(im, r)
  {
    match p
    case InTables(at) => im.(tables := Put(im.tables, at, n, v))
    case InPage(page, at) => im.(pages := im.pages[page := Put(im.pages[page], at, n, v)])
  }

  ghost predicate SameShape(a: Image, b: Image) {
    |a.tables| == |b.tables| && |a.pages| == |b.pages| && forall p :: 0 <= p < |a.pages| ==> |a.pages[p]| == |b.pages[p]|
  }

  // n bytes from p and m bytes from q share none.
  predicate Apart(p: Place, n: nat, q: Place, m: nat) {
    match (p, q)
    case (InTables(a), InTables(b)) => a + n <= b || b + m <= a
    case (InPage(i, a), InPage(j, b)) => i != j || a + n <= b || b + m <= a
    case (_, _) => true
  }

  lemma FitsSame(a: Image, b: Image, p: Place, n: nat)
    requires SameShape(a, b)
    ensures Fits(a, p, n) <==> Fits(b, p, n)
  {
  }

  lemma WrittenStands(im: Image, p: Place, n: nat, v: nat)
    requires Fits(im, p, n) && v < Limit(n)
    ensures Word(Written(im, p, n, v), p, n) == v
  {
    LeOfPut(Holder(im, p), p.at, n, v);
  }

  lemma WrittenElsewhere(im: Image, p: Place, n: nat, v: nat, q: Place, m: nat)
    requires Fits(im, p, n) && Fits(im, q, m) && Apart(p, n, q, m)
    ensures Bytes(Written(im, p, n, v), q, m) == Bytes(im, q, m)
  {
    assert forall s: seq<Byte> :: |s| == |Holder(im, q)| ==> s[q.at..q.at + m] == s[q.at..q.at + m];
  }

  lemma SubSlice(s: seq<Byte>, at: nat, n: nat, d: nat, k: nat)
    requires at + n <= |s| && d + k <= n
    ensures s[at..at + n][d..d + k] == s[at + d..at + d + k]
  {
    var a, b := s[at..at + n][d..d + k], s[at + d..at + d + k];
    assert |a| == |b|;
    forall i | 0 <= i < k ensures a[i] == b[i] {
      assert a[i] == s[at..at + n][d + i];
    }
  }

  lemma SliceSame(s: seq<Byte>, at: nat, t: seq<Byte>, bt: nat, n: nat, d: nat, k: nat)
    requires at + n <= |s| && bt + n <= |t| && d + k <= n && s[at..at + n] == t[bt..bt + n]
    ensures s[at + d..at + d + k] == t[bt + d..bt + d + k]
    ensures Le(s, at + d, k) == Le(t, bt + d, k)
  {
    SubSlice(s, at, n, d, k);
    SubSlice(t, bt, n, d, k);
    LeSame(s, at + d, t, bt + d, k);
  }

  lemma PlusInside(im: Image, p: Place, n: nat, d: nat, k: nat)
    requires Fits(im, p, n) && d + k <= n
    ensures Fits(im, p.Plus(d), k) && p.Plus(d).at == p.at + d && Holder(im, p.Plus(d)) == Holder(im, p)
  {
  }

  lemma WholeInside(im: Image, p: Place, n: nat)
    requires Fits(im, p, n)
    ensures p.at + n <= |Holder(im, p)|
  {
  }

  // Equal bytes, equal words.
  lemma WordSame(a: Image, p: Place, b: Image, q: Place, n: nat, d: nat, k: nat)
    requires Fits(a, p, n) && Fits(b, q, n) && d + k <= n && Bytes(a, p, n) == Bytes(b, q, n)
    ensures Fits(a, p.Plus(d), k) && Fits(b, q.Plus(d), k)
    ensures Bytes(a, p.Plus(d), k) == Bytes(b, q.Plus(d), k)
    ensures Word(a, p.Plus(d), k) == Word(b, q.Plus(d), k)
  {
    PlusInside(a, p, n, d, k);
    PlusInside(b, q, n, d, k);
    WholeInside(a, p, n);
    WholeInside(b, q, n);
    hide Holder, Fits, Le, Place.Plus;
    SliceSame(Holder(a, p), p.at, Holder(b, q), q.at, n, d, k);
  }

  // ---------- Writes that do not depend on what was there ----------

  datatype Edit = Edit(place: Place, n: nat, v: nat)

  ghost predicate EditsFit(im: Image, es: seq<Edit>) {
    forall k :: 0 <= k < |es| ==> Fits(im, es[k].place, es[k].n)
  }

  function Edited(im: Image, es: seq<Edit>, n: nat): (r: Image)
    requires n <= |es| && EditsFit(im, es)
    ensures SameShape(im, r)
    decreases n, |es|
  {
    if n == 0 then im else
      Written(Edited(im, es, n - 1), es[n - 1].place, es[n - 1].n, es[n - 1].v)
  }

  lemma {:induction false} EditedElsewhere(im: Image, es: seq<Edit>, n: nat, q: Place, m: nat)
    requires n <= |es| && EditsFit(im, es) && Fits(im, q, m)
    requires forall k :: 0 <= k < n ==> Apart(es[k].place, es[k].n, q, m)
    ensures Bytes(Edited(im, es, n), q, m) == Bytes(im, q, m)
    decreases n
  {
    hide Written, Apart, Put, Fits;
    if n > 0 {
      EditedElsewhere(im, es, n - 1, q, m);
      FitsSame(im, Edited(im, es, n - 1), q, m);
      FitsSame(im, Edited(im, es, n - 1), es[n - 1].place, es[n - 1].n);
      WrittenElsewhere(Edited(im, es, n - 1), es[n - 1].place, es[n - 1].n, es[n - 1].v, q, m);
    }
  }

  lemma {:induction false} EditStands(im: Image, es: seq<Edit>, n: nat, k: nat)
    requires k < n <= |es| && EditsFit(im, es) && es[k].v < Limit(es[k].n)
    requires forall j :: k < j < n ==> Apart(es[j].place, es[j].n, es[k].place, es[k].n)
    ensures Word(Edited(im, es, n), es[k].place, es[k].n) == es[k].v
    decreases n
  {
    hide Written, Apart, Put, Fits;
    var last := es[n - 1];
    FitsSame(im, Edited(im, es, n - 1), last.place, last.n);
    FitsSame(im, Edited(im, es, n - 1), es[k].place, es[k].n);
    FitsSame(im, Edited(im, es, n), es[k].place, es[k].n);
    if k == n - 1 {
      WrittenStands(Edited(im, es, n - 1), last.place, last.n, last.v);
    } else {
      EditStands(im, es, n - 1, k);
      var q, m := es[k].place, es[k].n;
      var before := Edited(im, es, n - 1);
      WrittenElsewhere(before, last.place, last.n, last.v, q, m);
      WordSame(Edited(im, es, n), q, before, q, m, 0, m);
    }
  }
}
