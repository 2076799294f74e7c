// The runtime's own inspection of an archive, and which archives pass it.
module RpakGate {
  import opened Options
  import opened Bits
  import opened RpakBytes
  import opened RpakImage
  import opened RpakLayout
  import opened RpakSpecs

  const MAX_TABLE_BYTES: nat := 16 * 1024 * 1024
  const MATERIAL_TYPE: nat := 0x6c74_616d
  const DATATABLE_TYPE: nat := 0x6c62_7464

  datatype Counts = Counts(textures: nat, pc: nat, ps4: nat, other: nat, materials: nat, datatables: nat) {
    predicate Supported() {
      (textures != 0 || materials != 0 || datatables != 0) && ps4 == textures && pc == 0 && other == 0
    }

    // Every texture is of one of the three kinds.
    predicate Summed() {
      textures == pc + ps4 + other
    }

    predicate Clean() {
      pc == 0 && other == 0
    }

    predicate Any() {
      textures + materials + datatables > 0
    }
  }

  // An archive of the right version, neither compressed nor a patch; a converter may also meet the module flag.
  predicate Stamped(s: seq<Byte>, flags: set<nat>) {
    |s| >= HEADER && s[..4] == [82, 80, 97, 107] && U16(s, 4) == 7 && U16(s, 6) in flags && U16(s, 0x3e) == 0
  }

  // The pages the table gives lie in the file; more may follow.
  predicate Readable(s: seq<Byte>) {
    Stamped(s, {0}) && Tabled(s) && LayoutOf(s).End() <= MAX_TABLE_BYTES && PageStart(s, LayoutOf(s).pages) <= |s|
  }

  // An asset's share of the counts.
  function Counted(c: Counts, s: seq<Byte>, a: Asset): Option<Counts>
    requires Readable(s)
  {
    var c := if a.kind == MATERIAL_TYPE then c.(materials := c.materials + 1) else c;
    var c := if a.kind == DATATABLE_TYPE then c.(datatables := c.datatables + 1) else c;
    if a.kind != TEXTURE_TYPE then Some(c)
    else if a.headPage >= LayoutOf(s).pages || a.headSize <= 0x1c then None
    else if a.headOffset + a.headSize > PageSize(s, a.headPage) then None
    else
      var at := PageStart(s, a.headPage) + a.headOffset;
      if at + a.headSize > |s| then None else
        var c := c.(textures := c.textures + 1);
        Some(if s[at + 0x1c] == 0 then c.(pc := c.pc + 1)
             else if s[at + 0x1c] == 8 then c.(ps4 := c.ps4 + 1) else c.(other := c.other + 1))
  }

  function Counting(s: seq<Byte>, n: nat): Option<Counts>
    requires Readable(s) && n <= LayoutOf(s).assets
    decreases n, |s|
  {
    if n == 0 then Some(Counts(0, 0, 0, 0, 0, 0)) else
      match Counting(s, n - 1)
      case None => None
      case Some(c) => Counted(c, s, AssetAt(s, LayoutOf(s).Asset(n - 1)))
  }

  function Inspected(s: seq<Byte>): Option<Counts> {
    if Readable(s) then Counting(s, LayoutOf(s).assets) else None
  }

  predicate Passes(s: seq<Byte>) {
    Inspected(s).Some? && Inspected(s).value.Supported()
  }

  // ---------- Which archives pass ----------

  // Something the runtime would load the archive for.
  predicate Wanted(kind: nat) {
    kind == TEXTURE_TYPE || kind == MATERIAL_TYPE || kind == DATATABLE_TYPE
  }

  predicate HeadLies(a: Asset, pages: seq<seq<Byte>>) {
    a.headPage < |pages| && a.headSize > 0x1c && a.headOffset + a.headSize <= |pages[a.headPage]|
  }

  // A texture whose header lies in its page and has the PS4 platform, or no texture at all.
  predicate Loads(a: Asset, pages: seq<seq<Byte>>) {
    a.kind == TEXTURE_TYPE ==> HeadLies(a, pages) && pages[a.headPage][a.headOffset + 28] as nat == PS4_PLATFORM
  }

  lemma AssetInFile(im: Image, i: nat)
    requires WellFormed(im) && i < LayoutOf(im.tables).assets
    ensures Tabled(File(im)) && LayoutOf(File(im)) == LayoutOf(im.tables)
    ensures AssetAt(File(im), LayoutOf(im.tables).Asset(i)) == AssetOf(im, i)
  {
    FileLayout(im, 0);
    var s, t, at := File(im), im.tables, LayoutOf(im.tables).Asset(i);
    assert s[..|t|] == t == t[..|t|];
    hide LayoutOf, Le, File;
    SamePrefix(s, t, at + 68, 4, |t|);
    SamePrefix(s, t, at + 16, 4, |t|);
    SamePrefix(s, t, at + 20, 4, |t|);
    SamePrefix(s, t, at + 24, 4, |t|);
    SamePrefix(s, t, at + 28, 4, |t|);
    SamePrefix(s, t, at + 32, 8, |t|);
    SamePrefix(s, t, at + 60, 4, |t|);
  }

  lemma PageEnd(t: seq<Byte>, p: nat)
    requires Tabled(t) && p < LayoutOf(t).pages
    ensures PageStart(t, p + 1) == PageStart(t, p) + PageSize(t, p)
  {
  }

  lemma SliceIndex(s: seq<Byte>, from: nat, to: nat, k: nat)
    requires from <= to <= |s| && k < to - from
    ensures s[from..to][k] == s[from + k]
  {
  }

  // A byte of a page, in the file.
  lemma PageByte(im: Image, p: nat, offset: nat)
    requires WellFormed(im) && p < |im.pages| && offset < |im.pages[p]|
    ensures Tabled(File(im)) && LayoutOf(File(im)) == LayoutOf(im.tables)
    ensures PageSize(File(im), p) == |im.pages[p]| && PageStart(File(im), p) + |im.pages[p]| <= |File(im)|
    ensures File(im)[PageStart(File(im), p) + offset] == im.pages[p][offset]
  {
    hide LayoutOf, PageStart, PageSize, File, Flat;
    PageEnd(im.tables, p);
    FileLayout(im, p);
    FileLayout(im, p + 1);
    FilePage(im, p);
    PageEnd(File(im), p);
    hide WellFormed, Tabled;
    SliceIndex(File(im), PageStart(im.tables, p), PageStart(im.tables, p + 1), offset);
  }

  lemma CountsOne(im: Image, c: Counts, i: nat)
    requires WellFormed(im) && Readable(File(im)) && i < LayoutOf(im.tables).assets && c.Summed()
    ensures var r := Counted(c, File(im), AssetOf(im, i));
            && (r.Some? ==> r.value.Summed() && (r.value.Any() <==> c.Any() || Wanted(AssetOf(im, i).kind)))
            && (r.Some? && r.value.Clean() <==> c.Clean() && Loads(AssetOf(im, i), im.pages))
  {
    hide LayoutOf, AssetAt, PageStart, PageSize, File, Readable;
    var a := AssetOf(im, i);
    if a.kind == TEXTURE_TYPE && HeadLies(a, im.pages) {
      PageByte(im, a.headPage, a.headOffset + 28);
      hide WellFormed, AssetOf;
    } else if a.kind == TEXTURE_TYPE {
      GateRefuses(im, c, a);
    }
  }

  lemma GateRefuses(im: Image, c: Counts, a: Asset)
    requires WellFormed(im) && Readable(File(im)) && a.kind == TEXTURE_TYPE && !HeadLies(a, im.pages)
    ensures Counted(c, File(im), a).None?
  {
    hide LayoutOf, PageStart, PageSize, File, Readable, Flat;
    FileLayout(im, 0);
    if a.headPage < |im.pages| {
      FileSizes(im, a.headPage);
    }
  }

  lemma FileSizes(im: Image, p: nat)
    requires WellFormed(im) && p < |im.pages|
    ensures Tabled(File(im)) && LayoutOf(File(im)) == LayoutOf(im.tables) && PageSize(File(im), p) == |im.pages[p]|
  {
    hide LayoutOf, PageStart, PageSize, File, Flat;
    PageEnd(im.tables, p);
    FileLayout(im, p);
    FileLayout(im, p + 1);
    PageEnd(File(im), p);
  }

  lemma {:induction false} CountsAll(im: Image, n: nat)
    requires WellFormed(im) && Readable(File(im)) && LayoutOf(File(im)) == LayoutOf(im.tables)
    requires n <= LayoutOf(im.tables).assets
    ensures var r := Counting(File(im), n);
            && (r.Some? ==> r.value.Summed() && (r.value.Any() <==> exists i :: 0 <= i < n && Wanted(AssetOf(im, i).kind)))
            && (r.Some? && r.value.Clean() <==> forall i :: 0 <= i < n ==> Loads(AssetOf(im, i), im.pages))
    decreases n
  {
    hide LayoutOf, Counted, Loads, AssetOf, Readable, WellFormed, File;
    if n > 0 {
      CountsAll(im, n - 1);
      AssetInFile(im, n - 1);
      if Counting(File(im), n - 1).Some? {
        CountsOne(im, Counting(File(im), n - 1).value, n - 1);
      }
    }
  }

  lemma ReadableExactly(im: Image)
    requires WellFormed(im) && Stamped(im.tables, {0})
    ensures Readable(File(im)) <==> |im.tables| <= MAX_TABLE_BYTES
    ensures Tabled(File(im)) && LayoutOf(File(im)) == LayoutOf(im.tables)
  {
    FileLayout(im, |im.pages|);
    SameStamp(im.tables, File(im), {0});
    hide LayoutOf, Stamped;
  }

  lemma PassesCounted(s: seq<Byte>)
    ensures Passes(s) <==> Readable(s) && Counting(s, LayoutOf(s).assets).Some? && Counting(s, LayoutOf(s).assets).value.Supported()
  {
    hide Counting, LayoutOf;
  }

  lemma CleanPasses(c: Option<Counts>)
    requires c.Some? ==> c.value.Summed()
    ensures c.Some? && c.value.Supported() <==> c.Some? && c.value.Clean() && c.value.Any()
  {
  }

  // The runtime loads a well-formed archive exactly when its tables are small enough, it holds a texture, a material
  // or a datatable, and every texture has its header in place with the PS4 platform.
  lemma PassesExactly(im: Image)
    requires WellFormed(im) && Stamped(im.tables, {0})
    ensures Passes(File(im)) <==>
            && |im.tables| <= MAX_TABLE_BYTES
            && (exists i :: 0 <= i < LayoutOf(im.tables).assets && Wanted(AssetOf(im, i).kind))
            && forall i :: 0 <= i < LayoutOf(im.tables).assets ==> Loads(AssetOf(im, i), im.pages)
  {
    var n := LayoutOf(im.tables).assets;
    hide LayoutOf, Loads, Wanted, AssetOf, Stamped, Counting, Readable, File, WellFormed, Passes;
    hide Counts.Supported, Counts.Summed, Counts.Any, Counts.Clean;
    ReadableExactly(im);
    PassesCounted(File(im));
    if |im.tables| <= MAX_TABLE_BYTES {
      CountsAll(im, n);
      CleanPasses(Counting(File(im), n));
    }
  }

  lemma SameStamp(s: seq<Byte>, t: seq<Byte>, flags: set<nat>)
    requires Stamped(s, flags) && |s| <= |t| && t[..|s|] == s
    ensures Stamped(t, flags)
  {
    assert s[..|s|] == s;
    hide Le;
    SamePrefix(s, t, 4, 2, |s|);
    SamePrefix(s, t, 6, 2, |s|);
    SamePrefix(s, t, 0x3e, 2, |s|);
    assert t[..4] == t[..|s|][..4];
  }

  // ---------- The code ----------

  method Inspect(s: seq<Byte>) returns (r: Option<Counts>)
    ensures r == Inspected(s)
  {
    hide LayoutOf, Counted, AssetAt, U16, U32;
    if |s| < HEADER {
      return None;
    }
    if s[..4] != [82, 80, 97, 107] || U16(s, 4) != 7 || U16(s, 6) != 0 || U16(s, 0x3e) != 0 {
      return None;
    }
    var ok, l := ReadLayout(s);
    if !ok {
      return None;
    }
    if l.End() > MAX_TABLE_BYTES {
      return None;
    }
    ok := PagesInside(s);
    if !ok {
      return None;
    }
    r := CountAssets(s);
  }

  method PagesInside(s: seq<Byte>) returns (ok: bool)
    requires Tabled(s) && LayoutOf(s).End() <= |s|
    ensures ok <==> PageStart(s, LayoutOf(s).pages) <= |s|
  {
    hide LayoutOf, PageSize, Layout.End;
    var l := LayoutOf(s);
    var pageCursor := l.End();
    for i := 0 to l.pages
      invariant pageCursor == PageStart(s, i) <= |s|
    {
      ok, pageCursor := Advance(pageCursor, PageSize(s, i), 1, |s|);
      if !ok {
        StartsGrow(s, i + 1, l.pages);
        return;
      }
    }
    ok := true;
  }

  lemma {:induction false} NoneStays(s: seq<Byte>, n: nat, m: nat)
    requires Readable(s) && n <= m <= LayoutOf(s).assets && Counting(s, n).None?
    ensures Counting(s, m).None?
    decreases m
  {
    hide LayoutOf, Counted, AssetAt, Readable;
    if n < m {
      NoneStays(s, n, m - 1);
    }
  }

  method CountAssets(s: seq<Byte>) returns (r: Option<Counts>)
    requires Readable(s)
    ensures r == Counting(s, LayoutOf(s).assets)
  {
    var l := LayoutOf(s);
    hide LayoutOf, Readable, Counted, AssetAt;
    var counts := Counts(0, 0, 0, 0, 0, 0);
    for i := 0 to l.assets
      invariant Counting(s, i) == Some(counts)
    {
      var a := AssetFits(s, i);
      r := CountAsset(s, a, counts);
      if r.None? {
        NoneStays(s, i + 1, l.assets);
        return;
      }
      counts := r.value;
    }
    r := Some(counts);
  }

  method AssetFits(s: seq<Byte>, i: nat) returns (a: Asset)
    requires Readable(s) && i < LayoutOf(s).assets
    ensures LayoutOf(s).Asset(i) + 72 <= |s| && a == AssetAt(s, LayoutOf(s).Asset(i))
  {
    hide LayoutOf, AssetAt;
    a := AssetAt(s, LayoutOf(s).Asset(i));
  }

  method CountAsset(s: seq<Byte>, a: Asset, counts: Counts) returns (r: Option<Counts>)
    requires Readable(s)
    ensures r == Counted(counts, s, a)
  {
    hide LayoutOf, PageStart, PageSize;
    var c := counts;
    if a.kind == MATERIAL_TYPE {
      c := c.(materials := c.materials + 1);
    }
    if a.kind == DATATABLE_TYPE {
      c := c.(datatables := c.datatables + 1);
    }
    if a.kind != TEXTURE_TYPE {
      return Some(c);
    }
    if a.headPage >= LayoutOf(s).pages || a.headSize <= 0x1c {
      return None;
    }
    var pageBytes := PageSize(s, a.headPage);
    if a.headOffset > pageBytes || a.headSize > pageBytes - a.headOffset {
      return None;
    }
    var textureHeader := PageStart(s, a.headPage) + a.headOffset;
    if textureHeader > |s| || a.headSize > |s| - textureHeader {
      return None;
    }
    var platform := s[textureHeader + 0x1c];
    c := c.(textures := c.textures + 1);
    if platform == 0 {
      c := c.(pc := c.pc + 1);
    } else if platform == 8 {
      c := c.(ps4 := c.ps4 + 1);
    } else {
      c := c.(other := c.other + 1);
    }
    r := Some(c);
  }
}
