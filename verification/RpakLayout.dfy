// Where an archive keeps its tables and pages.
module RpakLayout {
  import opened Bits
  import opened RpakBytes
  import opened RpakImage

  const HEADER: nat := 0x58

  // The number of path bytes and of entries in each table, as the header gives them.
  datatype Layout = Layout(paths: nat, slabs: nat, pages: nat, pointers: nat, assets: nat, uses: nat, dependents: nat) {
    function Slab(i: nat): nat {
      HEADER + paths + 16 * i
    }

    function Page(i: nat): nat {
      Slab(slabs) + 12 * i
    }

    function Pointer(i: nat): nat {
      Page(pages) + 8 * i
    }

    function Asset(i: nat): nat {
      Pointer(pointers) + 72 * i
    }

    function Use(i: nat): nat {
      Asset(assets) + 8 * i
    }

    function End(): nat {
      Use(uses) + 4 * dependents
    }
  }

  function LayoutOf(t: seq<Byte>): (l: Layout)
    requires |t| >= HEADER
  {
    Layout(U16(t, 0x38), U16(t, 0x3a), U16(t, 0x3c), U32(t, 0x40), U32(t, 0x44), U32(t, 0x48), U32(t, 0x4c))
  }

  // The tables are all there.
  predicate Tabled(t: seq<Byte>) {
    |t| >= HEADER && LayoutOf(t).End() <= |t|
  }

  function PageSize(t: seq<Byte>, p: nat): (n: nat)
    requires Tabled(t) && p < LayoutOf(t).pages
    ensures n < WORD32
  {
    U32(t, LayoutOf(t).Page(p) + 8)
  }

  // Where page p of the file starts, for the sizes the page table gives.
  function PageStart(t: seq<Byte>, p: nat): nat
    requires Tabled(t) && p <= LayoutOf(t).pages
    decreases p, |t|
  {
    if p == 0 then LayoutOf(t).End() else PageStart(t, p - 1) + PageSize(t, p - 1)
  }

  // The pages fill the rest of the file exactly.
  predicate Opens(rpak: seq<Byte>) {
    Tabled(rpak) && PageStart(rpak, LayoutOf(rpak).pages) == |rpak|
  }

  function FirstPages(rpak: seq<Byte>, n: nat): (pages: seq<seq<Byte>>)
    requires Tabled(rpak) && n <= LayoutOf(rpak).pages && PageStart(rpak, n) <= |rpak|
    ensures |pages| == n
    decreases n, |rpak|
  {
    if n == 0 then [] else FirstPages(rpak, n - 1) + [rpak[PageStart(rpak, n - 1)..PageStart(rpak, n)]]
  }

  function Opened(rpak: seq<Byte>): Image
    requires Opens(rpak)
  {
    Image(rpak[..LayoutOf(rpak).End()], FirstPages(rpak, LayoutOf(rpak).pages))
  }

  function Flat(pages: seq<seq<Byte>>, n: nat): seq<Byte>
    requires n <= |pages|
    decreases n, |pages|
  {
    if n == 0 then [] else Flat(pages, n - 1) + pages[n - 1]
  }

  function File(im: Image): seq<Byte> {
    im.tables + Flat(im.pages, |im.pages|)
  }

  // The header describes exactly these tables and pages.
  ghost predicate WellFormed(im: Image) {
    && Tabled(im.tables) && |im.tables| == LayoutOf(im.tables).End() && |im.pages| == LayoutOf(im.tables).pages
    && forall p :: 0 <= p < |im.pages| ==> |im.pages[p]| == PageSize(im.tables, p)
  }

  // Byte strings that begin with the same tables.
  lemma SamePrefix(s: seq<Byte>, t: seq<Byte>, at: nat, n: nat, k: nat)
    requires k <= |s| && k <= |t| && s[..k] == t[..k] && at + n <= k
    ensures Le(s, at, n) == Le(t, at, n)
  {
    assert s[at..at + n] == s[..k][at..at + n];
    assert t[at..at + n] == t[..k][at..at + n];
    LeSame(s, at, t, at, n);
  }

  lemma SameLayout(s: seq<Byte>, t: seq<Byte>)
    requires Tabled(s) && LayoutOf(s).End() <= |t| && s[..LayoutOf(s).End()] == t[..LayoutOf(s).End()]
    ensures LayoutOf(t) == LayoutOf(s) && Tabled(t)
    ensures forall p :: 0 <= p < LayoutOf(s).pages ==> PageSize(t, p) == PageSize(s, p)
  {
    var l, end := LayoutOf(s), LayoutOf(s).End();
    SameHeader(s, t, end);
    forall p | 0 <= p < l.pages ensures PageSize(t, p) == PageSize(s, p) {
      SamePrefix(s, t, l.Page(p) + 8, 4, end);
    }
  }

  lemma SameHeader(s: seq<Byte>, t: seq<Byte>, k: nat)
    requires HEADER <= k <= |s| && k <= |t| && s[..k] == t[..k]
    ensures LayoutOf(t) == LayoutOf(s)
  {
    hide Le;
    SamePrefix(s, t, 0x38, 2, k);
    SamePrefix(s, t, 0x3a, 2, k);
    SamePrefix(s, t, 0x3c, 2, k);
    SamePrefix(s, t, 0x40, 4, k);
    SamePrefix(s, t, 0x44, 4, k);
    SamePrefix(s, t, 0x48, 4, k);
    SamePrefix(s, t, 0x4c, 4, k);
  }

  lemma {:induction false} SameStarts(s: seq<Byte>, t: seq<Byte>, p: nat)
    requires Tabled(s) && LayoutOf(s).End() <= |t| && s[..LayoutOf(s).End()] == t[..LayoutOf(s).End()]
    requires p <= LayoutOf(s).pages
    ensures LayoutOf(t) == LayoutOf(s) && Tabled(t)
    ensures PageStart(t, p) == PageStart(s, p)
    decreases p
  {
    SameLayout(s, t);
    hide LayoutOf, PageSize;
    if p > 0 {
      SameStarts(s, t, p - 1);
    }
  }

  // The pages of a well-formed image lie in its file where the page table says.
  lemma {:induction false} FlatStart(im: Image, n: nat)
    requires WellFormed(im) && n <= |im.pages|
    ensures |im.tables| + |Flat(im.pages, n)| == PageStart(im.tables, n)
    decreases n
  {
    hide LayoutOf, PageSize;
    if n > 0 {
      FlatStart(im, n - 1);
    }
  }

  lemma {:induction false} FlatPrefix(pages: seq<seq<Byte>>, n: nat, m: nat)
    requires n <= m <= |pages|
    ensures |Flat(pages, n)| <= |Flat(pages, m)| && Flat(pages, m)[..|Flat(pages, n)|] == Flat(pages, n)
    decreases m
  {
    if n < m {
      FlatPrefix(pages, n, m - 1);
    }
  }

  lemma FilePrefix(im: Image, n: nat)
    requires WellFormed(im) && n <= |im.pages|
    ensures PageStart(im.tables, n) <= |File(im)|
    ensures File(im)[..PageStart(im.tables, n)] == im.tables + Flat(im.pages, n)
  {
    FlatStart(im, n);
    FlatPrefix(im.pages, n, |im.pages|);
    hide PageStart, Flat, LayoutOf, PageSize, WellFormed;
    var all, some := Flat(im.pages, |im.pages|), Flat(im.pages, n);
    assert (im.tables + all)[..|im.tables| + |some|] == im.tables + all[..|some|];
  }

  lemma FilePage(im: Image, p: nat)
    requires WellFormed(im) && p < |im.pages|
    ensures PageStart(im.tables, p) <= PageStart(im.tables, p + 1) <= |File(im)|
    ensures File(im)[PageStart(im.tables, p)..PageStart(im.tables, p + 1)] == im.pages[p]
  {
    FilePrefix(im, p);
    FilePrefix(im, p + 1);
    FlatStart(im, p);
    FlatStart(im, p + 1);
    var from, to := PageStart(im.tables, p), PageStart(im.tables, p + 1);
    assert Flat(im.pages, p + 1) == Flat(im.pages, p) + im.pages[p];
    hide PageStart, Flat, LayoutOf, PageSize, WellFormed, File;
    assert File(im)[from..to] == File(im)[..to][from..];
  }

  lemma FileLayout(im: Image, n: nat)
    requires WellFormed(im) && n <= |im.pages|
    ensures Tabled(File(im)) && LayoutOf(File(im)) == LayoutOf(im.tables)
    ensures PageStart(File(im), n) == PageStart(im.tables, n) <= |File(im)|
  {
    FilePrefix(im, n);
    assert File(im)[..|im.tables|] == im.tables == im.tables[..|im.tables|];
    SameStarts(im.tables, File(im), n);
  }

  lemma {:induction false} FirstPagesOfFile(im: Image, n: nat)
    requires WellFormed(im) && n <= |im.pages|
    ensures Tabled(File(im)) && LayoutOf(File(im)) == LayoutOf(im.tables)
    ensures PageStart(File(im), n) == PageStart(im.tables, n) <= |File(im)|
    ensures FirstPages(File(im), n) == im.pages[..n]
    decreases n
  {
    hide LayoutOf, PageStart, PageSize, File, Flat, Tabled, Layout.End;
    FileLayout(im, n);
    if n > 0 {
      hide FirstPages;
      FileLayout(im, n - 1);
      FirstPagesOfFile(im, n - 1);
      FilePage(im, n - 1);
      FirstPagesStep(File(im), n);
      assert im.pages[..n] == im.pages[..n - 1] + [im.pages[n - 1]];
    }
  }

  lemma FirstPagesStep(s: seq<Byte>, n: nat)
    requires Tabled(s) && 0 < n <= LayoutOf(s).pages && PageStart(s, n) <= |s|
    ensures PageStart(s, n - 1) <= PageStart(s, n)
    ensures FirstPages(s, n) == FirstPages(s, n - 1) + [s[PageStart(s, n - 1)..PageStart(s, n)]]
  {
  }

  // Opening the file of a well-formed image gives the image back.
  lemma OpenedFile(im: Image)
    requires WellFormed(im)
    ensures Opens(File(im)) && Opened(File(im)) == im
  {
    FirstPagesOfFile(im, |im.pages|);
    FlatStart(im, |im.pages|);
    assert File(im)[..|im.tables|] == im.tables;
  }

  lemma {:induction false} FlatOfFile(rpak: seq<Byte>, n: nat)
    requires Tabled(rpak) && n <= LayoutOf(rpak).pages && PageStart(rpak, n) <= |rpak|
    ensures LayoutOf(rpak).End() <= PageStart(rpak, n)
    ensures Flat(FirstPages(rpak, n), n) == rpak[LayoutOf(rpak).End()..PageStart(rpak, n)]
    ensures forall p :: 0 <= p < n ==> |FirstPages(rpak, n)[p]| == PageSize(rpak, p)
    decreases n
  {
    hide LayoutOf, PageSize;
    if n > 0 {
      FlatOfFile(rpak, n - 1);
      FlatOfMore(FirstPages(rpak, n - 1), FirstPages(rpak, n)[n - 1]);
    }
  }

  lemma FlatOfMore(pages: seq<seq<Byte>>, page: seq<Byte>)
    ensures Flat(pages + [page], |pages| + 1) == Flat(pages, |pages|) + page
  {
    FlatSame(pages, pages + [page], |pages|);
  }

  lemma {:induction false} FlatSame(a: seq<seq<Byte>>, b: seq<seq<Byte>>, n: nat)
    requires n <= |a| && n <= |b| && a[..n] == b[..n]
    ensures Flat(a, n) == Flat(b, n)
    decreases n
  {
    if n > 0 {
      assert a[..n - 1] == a[..n][..n - 1] && b[..n - 1] == b[..n][..n - 1];
      assert a[n - 1] == a[..n][n - 1] && b[n - 1] == b[..n][n - 1];
      FlatSame(a, b, n - 1);
    }
  }

  // An archive is the file of what it opens to.
  lemma FileOpened(rpak: seq<Byte>)
    requires Opens(rpak)
    ensures WellFormed(Opened(rpak)) && File(Opened(rpak)) == rpak && LayoutOf(Opened(rpak).tables) == LayoutOf(rpak)
  {
    var l, im := LayoutOf(rpak), Opened(rpak);
    FlatOfFile(rpak, l.pages);
    assert im.tables[..l.End()] == rpak[..l.End()];
    SameLayout(rpak, im.tables);
    assert rpak[..l.End()] + rpak[l.End()..] == rpak;
  }

  // ---------- The code ----------

  method Advance(cursor: nat, count: nat, stride: nat, size: nat) returns (ok: bool, next: nat)
    requires stride > 0
    ensures ok <==> cursor + count * stride <= size
    ensures ok ==> next == cursor + count * stride
  {
    next := cursor;
    if cursor > size {
      return false, cursor;
    }
    Fitting(count, stride, size - cursor);
    if count > (size - cursor) / stride {
      return false, cursor;
    }
    next := cursor + count * stride;
    ok := true;
  }

  lemma Fitting(count: nat, stride: nat, room: nat)
    requires stride > 0
    ensures count <= room / stride <==> count * stride <= room
  {
    var q, r := room / stride, room % stride;
    assert room == stride * q + r;
    if count <= q {
      assert count * stride <= q * stride by {
        Below(count, q, stride);
      }
    } else {
      Below(q + 1, count, stride);
      assert (q + 1) * stride == q * stride + stride;
    }
  }

  lemma Below(a: nat, b: nat, k: nat)
    requires a <= b
    ensures a * k <= b * k
  {
  }

  // The tables, if they all lie within the file.
  method ReadLayout(rpak: seq<Byte>) returns (ok: bool, l: Layout)
    requires |rpak| >= HEADER
    ensures ok <==> Tabled(rpak)
    ensures l == LayoutOf(rpak)
  {
    l := LayoutOf(rpak);
    var cursor;
    ok, cursor := Advance(HEADER, l.paths, 1, |rpak|);
    if ok {
      ok, cursor := Advance(cursor, l.slabs, 16, |rpak|);
    }
    if ok {
      ok, cursor := Advance(cursor, l.pages, 12, |rpak|);
    }
    if ok {
      ok, cursor := Advance(cursor, l.pointers, 8, |rpak|);
    }
    if ok {
      ok, cursor := Advance(cursor, l.assets, 72, |rpak|);
    }
    if ok {
      ok, cursor := Advance(cursor, l.uses, 8, |rpak|);
    }
    if ok {
      ok, cursor := Advance(cursor, l.dependents, 4, |rpak|);
    }
  }

  lemma {:induction false} StartsGrow(t: seq<Byte>, p: nat, q: nat)
    requires Tabled(t) && p <= q <= LayoutOf(t).pages
    ensures PageStart(t, p) <= PageStart(t, q)
    decreases q
  {
    if p < q {
      StartsGrow(t, p, q - 1);
    }
  }

  // The pages, if they fill the rest of the file exactly.
  method ReadPages(rpak: seq<Byte>) returns (ok: bool, pages: seq<seq<Byte>>)
    requires Tabled(rpak)
    ensures ok <==> Opens(rpak)
    ensures ok ==> pages == Opened(rpak).pages
  {
    var l := LayoutOf(rpak);
    hide LayoutOf, PageSize, Layout.End, Layout.Page;
    pages := [];
    var pageCursor := l.End();
    for page := 0 to l.pages
      invariant pageCursor == PageStart(rpak, page) <= |rpak|
      invariant pages == FirstPages(rpak, page)
    {
      var next;
      ok, next := Advance(pageCursor, PageSize(rpak, page), 1, |rpak|);
      if !ok {
        StartsGrow(rpak, page + 1, l.pages);
        return false, [];
      }
      pages := pages + [rpak[pageCursor..next]];
      pageCursor := next;
    }
    ok := pageCursor == |rpak|;
  }
}
