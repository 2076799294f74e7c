// An archive's tables written record by record, and what reading them gives.
module RpakRecords {
  import opened Bits
  import opened RpakBytes
  import opened RpakImage
  import opened RpakLayout
  import opened RpakConvert
  import opened RpakSpecs
  import RpakStreams

  // ---------- Records ----------

  // A slab: flags, alignment and the size of all its pages.
  datatype SlabRecord = SlabRecord(flags: nat, alignment: nat, total: nat) {
    predicate Valid() {
      flags < WORD32 && alignment < WORD32 && total < WORD32 * WORD32
    }

    function Bytes(): seq<Byte> {
      LeBytes(flags, 4) + LeBytes(alignment, 4) + LeBytes(total, 8)
    }
  }

  datatype PageRecord = PageRecord(slab: nat, alignment: nat, size: nat) {
    predicate Valid() {
      slab < WORD32 && alignment < WORD32 && size < WORD32
    }

    function Bytes(): seq<Byte> {
      LeBytes(slab, 4) + LeBytes(alignment, 4) + LeBytes(size, 4)
    }
  }

  // A page and an offset in it.
  datatype Link = Link(page: nat, offset: nat) {
    predicate Valid() {
      page < WORD32 && offset < WORD32
    }

    function Bytes(): seq<Byte> {
      LeBytes(page, 4) + LeBytes(offset, 4)
    }
  }

  // An asset's descriptor: an identity, its header, its data, its streams, eight words, the header's size and its kind.
  datatype AssetRecord = AssetRecord(guid: seq<Byte>, head: Link, cpu: Link, stream: nat, middle: seq<Byte>, headSize: nat,
                                     version: nat, kind: nat)
  {
    predicate Valid() {
      && |guid| == 16 && head.Valid() && cpu.Valid() && stream < WORD32 * WORD32 && |middle| == 20
      && headSize < WORD32 && version < WORD32 && kind < WORD32
    }

    function Bytes(): seq<Byte> {
      guid + head.Bytes() + cpu.Bytes() + LeBytes(stream, 8) + middle + LeBytes(headSize, 4) + LeBytes(version, 4) + LeBytes(kind, 4)
    }
  }

  // The tables in their order; of the header the counts are told apart.
  datatype Tables = Tables(start: seq<Byte>, patch: seq<Byte>, last: seq<Byte>, paths: seq<Byte>, slabs: seq<SlabRecord>,
                           pages: seq<PageRecord>, pointers: seq<Link>, assets: seq<AssetRecord>, uses: seq<Link>,
                           dependents: seq<nat>)
  {
    ghost predicate Valid() {
      && |start| == 56 && |patch| == 2 && |last| == 8 && |paths| < 65536 && |slabs| < 65536 && |pages| < 65536
      && |pointers| < WORD32 && |assets| < WORD32 && |uses| < WORD32 && |dependents| < WORD32
      && (forall i :: 0 <= i < |slabs| ==> slabs[i].Valid()) && (forall i :: 0 <= i < |pages| ==> pages[i].Valid())
      && (forall i :: 0 <= i < |pointers| ==> pointers[i].Valid()) && (forall i :: 0 <= i < |assets| ==> assets[i].Valid())
      && forall i :: 0 <= i < |uses| ==> uses[i].Valid()
    }

    function Counts(): seq<Byte> {
      LeBytes(|paths|, 2) + LeBytes(|slabs|, 2) + LeBytes(|pages|, 2) + patch +
      LeBytes(|pointers|, 4) + LeBytes(|assets|, 4) + LeBytes(|uses|, 4) + LeBytes(|dependents|, 4)
    }

    function Parts(): seq<seq<Byte>> {
      [start + Counts() + last + paths, Strung(seq(|slabs|, i requires 0 <= i < |slabs| => slabs[i].Bytes())),
       Strung(seq(|pages|, i requires 0 <= i < |pages| => pages[i].Bytes())),
       Strung(seq(|pointers|, i requires 0 <= i < |pointers| => pointers[i].Bytes())),
       Strung(seq(|assets|, i requires 0 <= i < |assets| => assets[i].Bytes())),
       Strung(seq(|uses|, i requires 0 <= i < |uses| => uses[i].Bytes())),
       Strung(seq(|dependents|, i requires 0 <= i < |dependents| => LeBytes(dependents[i], 4)))]
    }

    function Bytes(): seq<Byte> {
      Strung(Parts())
    }
  }

  // One after the other.
  function Strung(bs: seq<seq<Byte>>): seq<Byte>
    decreases |bs|
  {
    if bs == [] then [] else bs[0] + Strung(bs[1..])
  }

  // ---------- Places ----------

  // b stands in s at a position.
  ghost predicate Stands(s: seq<Byte>, at: nat, b: seq<Byte>) {
    at + |b| <= |s| && s[at..at + |b|] == b
  }

  lemma StandsIn(s: seq<Byte>, at: nat, b: seq<Byte>, k: nat, c: seq<Byte>)
    requires Stands(s, at, b) && Stands(b, k, c)
    ensures Stands(s, at + k, c)
  {
    assert forall i :: 0 <= i < |b| ==> s[at + i] == s[at..at + |b|][i] == b[i];
    assert forall i :: 0 <= i < |c| ==> b[k + i] == b[k..k + |c|][i] == c[i];
    assert s[at + k..at + k + |c|] == c;
  }

  lemma LeStands(s: seq<Byte>, at: nat, n: nat, v: nat)
    requires Stands(s, at, LeBytes(v, n)) && v < Limit(n)
    ensures Le(s, at, n) == v
  {
    LeOfBytes(v, n);
    assert LeBytes(v, n)[0..n] == LeBytes(v, n);
    LeSame(s, at, LeBytes(v, n), 0, n);
  }

  // How long the first k are.
  function Length(bs: seq<seq<Byte>>, k: nat): nat
    requires k <= |bs|
  {
    if k == 0 then 0 else Length(bs, k - 1) + |bs[k - 1]|
  }

  lemma {:induction false} LengthLater(bs: seq<seq<Byte>>, k: nat)
    requires 0 < k <= |bs|
    ensures Length(bs, k) == |bs[0]| + Length(bs[1..], k - 1)
    decreases k
  {
    if k > 1 {
      LengthLater(bs, k - 1);
    }
  }

  lemma StrungLater(bs: seq<seq<Byte>>, at: nat, b: seq<Byte>)
    requires bs != [] && Stands(Strung(bs[1..]), at, b)
    ensures Stands(Strung(bs), |bs[0]| + at, b)
  {
    var s, rest := Strung(bs), Strung(bs[1..]);
    assert s == bs[0] + rest;
    hide Strung;
    assert Stands(s, |bs[0]|, rest);
    StandsIn(s, |bs[0]|, rest, at, b);
  }

  lemma NoLength(bs: seq<seq<Byte>>)
    ensures Length(bs, 0) == 0
  {
  }

  lemma FirstStands(bs: seq<seq<Byte>>)
    requires bs != []
    ensures Stands(Strung(bs), 0, bs[0])
  {
  }

  lemma {:induction false} PartStands(bs: seq<seq<Byte>>, k: nat)
    requires k < |bs|
    ensures Stands(Strung(bs), Length(bs, k), bs[k]) && |Strung(bs)| == Length(bs, |bs|)
    decreases |bs|
  {
    hide Stands, Length;
    LengthLater(bs, |bs|);
    if k > 0 {
      PartStands(bs[1..], k - 1);
      LengthLater(bs, k);
      StrungLater(bs, Length(bs[1..], k - 1), bs[k]);
    } else {
      NoLength(bs);
      FirstStands(bs);
      if |bs| > 1 {
        PartStands(bs[1..], 0);
      } else {
        NoLength(bs[1..]);
      }
    }
  }

  lemma {:induction false} EvenLength(bs: seq<seq<Byte>>, n: nat, k: nat)
    requires k <= |bs| && forall i :: 0 <= i < |bs| ==> |bs[i]| == n
    ensures Length(bs, k) == n * k
    decreases k
  {
    if k > 0 {
      EvenLength(bs, n, k - 1);
    }
  }

  // Record i of a table of records of one size.
  lemma RecordStands(bs: seq<seq<Byte>>, n: nat, i: nat)
    requires i < |bs| && forall j :: 0 <= j < |bs| ==> |bs[j]| == n
    ensures Stands(Strung(bs), n * i, bs[i])
  {
    PartStands(bs, i);
    EvenLength(bs, n, i);
  }

  lemma TableLength(bs: seq<seq<Byte>>, n: nat)
    requires forall j :: 0 <= j < |bs| ==> |bs[j]| == n
    ensures |Strung(bs)| == n * |bs|
  {
    EvenLength(bs, n, |bs|);
    if bs != [] {
      PartStands(bs, 0);
    }
  }

  // ---------- Reading records ----------

  lemma LinkStands(s: seq<Byte>, at: nat, l: Link)
    requires l.Valid() && Stands(s, at, l.Bytes())
    ensures U32(s, at) == l.page && U32(s, at + 4) == l.offset
  {
    Limit4();
    var b := l.Bytes();
    assert Stands(b, 0, LeBytes(l.page, 4)) && Stands(b, 4, LeBytes(l.offset, 4));
    StandsIn(s, at, b, 0, LeBytes(l.page, 4));
    StandsIn(s, at, b, 4, LeBytes(l.offset, 4));
    LeStands(s, at, 4, l.page);
    LeStands(s, at + 4, 4, l.offset);
  }

  lemma Limit8()
    ensures Limit(8) == WORD32 * WORD32 && Limit(2) == 65536
  {
    Limit4();
    assert Limit(8) == 256 * (256 * (256 * (256 * Limit(4))));
  }

  lemma SlabStands(s: seq<Byte>, at: nat, r: SlabRecord)
    requires r.Valid() && Stands(s, at, r.Bytes())
    ensures U64(s, at + 8) == r.total
  {
    Limit8();
    assert Stands(r.Bytes(), 8, LeBytes(r.total, 8));
    StandsIn(s, at, r.Bytes(), 8, LeBytes(r.total, 8));
    LeStands(s, at + 8, 8, r.total);
  }

  lemma PageStands(s: seq<Byte>, at: nat, r: PageRecord)
    requires r.Valid() && Stands(s, at, r.Bytes())
    ensures U32(s, at) == r.slab && U32(s, at + 8) == r.size
  {
    Limit4();
    var b := r.Bytes();
    assert Stands(b, 0, LeBytes(r.slab, 4)) && Stands(b, 8, LeBytes(r.size, 4));
    StandsIn(s, at, b, 0, LeBytes(r.slab, 4));
    StandsIn(s, at, b, 8, LeBytes(r.size, 4));
    LeStands(s, at, 4, r.slab);
    LeStands(s, at + 8, 4, r.size);
  }

  function AssetMeant(r: AssetRecord): Asset {
    Asset(r.kind, r.head.page, r.head.offset, r.cpu.page, r.cpu.offset, r.stream, r.headSize)
  }

  lemma AssetParts(r: AssetRecord)
    requires r.Valid()
    ensures var b := r.Bytes();
            && |b| == 72 && Stands(b, 16, r.head.Bytes()) && Stands(b, 24, r.cpu.Bytes()) && Stands(b, 32, LeBytes(r.stream, 8))
            && Stands(b, 60, LeBytes(r.headSize, 4)) && Stands(b, 68, LeBytes(r.kind, 4))
  {
    hide LeBytes;
    var a := r.guid + r.head.Bytes() + r.cpu.Bytes() + LeBytes(r.stream, 8) + r.middle;
    assert |a| == 60 && r.Bytes() == a + (LeBytes(r.headSize, 4) + LeBytes(r.version, 4) + LeBytes(r.kind, 4));
    assert r.Bytes()[..60] == a;
  }

  lemma AssetStands(s: seq<Byte>, at: nat, r: AssetRecord)
    requires r.Valid() && Stands(s, at, r.Bytes())
    ensures at + 72 <= |s| && AssetAt(s, at) == AssetMeant(r)
  {
    hide AssetRecord.Bytes, Link.Bytes;
    Limit4();
    Limit8();
    AssetParts(r);
    var b := r.Bytes();
    StandsIn(s, at, b, 16, r.head.Bytes());
    StandsIn(s, at, b, 24, r.cpu.Bytes());
    StandsIn(s, at, b, 32, LeBytes(r.stream, 8));
    StandsIn(s, at, b, 60, LeBytes(r.headSize, 4));
    StandsIn(s, at, b, 68, LeBytes(r.kind, 4));
    LinkStands(s, at + 16, r.head);
    LinkStands(s, at + 24, r.cpu);
    LeStands(s, at + 32, 8, r.stream);
    LeStands(s, at + 60, 4, r.headSize);
    LeStands(s, at + 68, 4, r.kind);
  }

  // ---------- The whole ----------

  lemma CountsStand(t: Tables)
    requires t.Valid()
    ensures var b := t.Counts();
            && |b| == 24 && Stands(b, 0, LeBytes(|t.paths|, 2)) && Stands(b, 2, LeBytes(|t.slabs|, 2))
            && Stands(b, 4, LeBytes(|t.pages|, 2)) && Stands(b, 8, LeBytes(|t.pointers|, 4))
            && Stands(b, 12, LeBytes(|t.assets|, 4)) && Stands(b, 16, LeBytes(|t.uses|, 4))
            && Stands(b, 20, LeBytes(|t.dependents|, 4))
  {
    hide LeBytes, Strung;
  }

  lemma CountsRead(t: Tables, s: seq<Byte>)
    requires t.Valid() && |s| >= HEADER && Stands(s, 56, t.Counts())
    ensures LayoutOf(s) == Layout(|t.paths|, |t.slabs|, |t.pages|, |t.pointers|, |t.assets|, |t.uses|, |t.dependents|)
  {
    hide Tables.Counts, Strung, LeBytes;
    Limit4();
    Limit8();
    CountsStand(t);
    var b := t.Counts();
    StandsIn(s, 56, b, 0, LeBytes(|t.paths|, 2));
    StandsIn(s, 56, b, 2, LeBytes(|t.slabs|, 2));
    StandsIn(s, 56, b, 4, LeBytes(|t.pages|, 2));
    StandsIn(s, 56, b, 8, LeBytes(|t.pointers|, 4));
    StandsIn(s, 56, b, 12, LeBytes(|t.assets|, 4));
    StandsIn(s, 56, b, 16, LeBytes(|t.uses|, 4));
    StandsIn(s, 56, b, 20, LeBytes(|t.dependents|, 4));
    hide Limit, Stands;
    LeStands(s, 0x38, 2, |t.paths|);
    LeStands(s, 0x3a, 2, |t.slabs|);
    LeStands(s, 0x3c, 2, |t.pages|);
    LeStands(s, 0x40, 4, |t.pointers|);
    LeStands(s, 0x44, 4, |t.assets|);
    LeStands(s, 0x48, 4, |t.uses|);
    LeStands(s, 0x4c, 4, |t.dependents|);
  }

  // Where the k-th table starts: behind the ones before it.
  lemma PartsStand(t: Tables)
    requires t.Valid()
    ensures var p, s := t.Parts(), t.Bytes();
            && |p| == 7 && |s| == Length(p, 7) && |p[0]| == HEADER + |t.paths| && Stands(s, 56, t.Counts())
            && forall k :: 0 <= k < 7 ==> Stands(s, Length(p, k), p[k])
  {
    hide Strung, Tables.Counts, LeBytes;
    var p, s := t.Parts(), t.Bytes();
    forall k | 0 <= k < 7 ensures Stands(s, Length(p, k), p[k]) {
      PartStands(p, k);
    }
    PartStands(p, 0);
    CountsStand(t);
    assert p[0] == t.start + t.Counts() + t.last + t.paths;
    assert Stands(p[0], 56, t.Counts());
    StandsIn(s, 0, p[0], 56, t.Counts());
  }

  lemma SevenLengths(p: seq<seq<Byte>>)
    requires |p| == 7
    ensures Length(p, 0) == 0 && Length(p, 1) == |p[0]| && Length(p, 2) == Length(p, 1) + |p[1]|
    ensures Length(p, 3) == Length(p, 2) + |p[2]| && Length(p, 4) == Length(p, 3) + |p[3]|
    ensures Length(p, 5) == Length(p, 4) + |p[4]| && Length(p, 6) == Length(p, 5) + |p[5]|
    ensures Length(p, 7) == Length(p, 6) + |p[6]|
  {
  }

  lemma TableLengths(t: Tables)
    requires t.Valid()
    ensures var p := t.Parts();
            && |p| == 7 && |p[1]| == 16 * |t.slabs| && |p[2]| == 12 * |t.pages| && |p[3]| == 8 * |t.pointers|
            && |p[4]| == 72 * |t.assets| && |p[5]| == 8 * |t.uses| && |p[6]| == 4 * |t.dependents|
  {
    hide Tables.Counts, LeBytes, Strung;
    TableLength(seq(|t.slabs|, i requires 0 <= i < |t.slabs| => t.slabs[i].Bytes()), 16);
    TableLength(seq(|t.pages|, i requires 0 <= i < |t.pages| => t.pages[i].Bytes()), 12);
    TableLength(seq(|t.pointers|, i requires 0 <= i < |t.pointers| => t.pointers[i].Bytes()), 8);
    TableLength(seq(|t.assets|, i requires 0 <= i < |t.assets| => t.assets[i].Bytes()), 72);
    TableLength(seq(|t.uses|, i requires 0 <= i < |t.uses| => t.uses[i].Bytes()), 8);
    TableLength(seq(|t.dependents|, i requires 0 <= i < |t.dependents| => LeBytes(t.dependents[i], 4)), 4);
  }

  // The header's counts are the tables', and the tables fill the bytes.
  lemma TablesRead(t: Tables)
    requires t.Valid()
    ensures var s := t.Bytes();
            && Tabled(s) && LayoutOf(s).End() == |s|
            && LayoutOf(s) == Layout(|t.paths|, |t.slabs|, |t.pages|, |t.pointers|, |t.assets|, |t.uses|, |t.dependents|)
    ensures var p, l := t.Parts(), LayoutOf(t.Bytes());
            && |p| == 7 && Stands(t.Bytes(), l.Slab(0), p[1]) && Stands(t.Bytes(), l.Page(0), p[2])
            && Stands(t.Bytes(), l.Pointer(0), p[3]) && Stands(t.Bytes(), l.Asset(0), p[4])
            && Stands(t.Bytes(), l.Use(0), p[5])
  {
    hide Tables.Parts, Tables.Bytes, Tables.Counts, LayoutOf, Length, Stands;
    PartsStand(t);
    SevenLengths(t.Parts());
    TableLengths(t);
    CountsRead(t, t.Bytes());
  }

  // Each slab, page, pointer, asset and use is read as it was written.
  lemma SlabRead(t: Tables, i: nat)
    requires t.Valid() && i < |t.slabs|
    ensures Tabled(t.Bytes()) && LayoutOf(t.Bytes()).slabs == |t.slabs| && SlabTotal(t.Bytes(), i) == t.slabs[i].total
  {
    hide Tables.Bytes, Tables.Counts, LayoutOf, Stands, Strung, Le;
    TablesRead(t);
    var s, l := t.Bytes(), LayoutOf(t.Bytes());
    var bs := seq(|t.slabs|, j requires 0 <= j < |t.slabs| => t.slabs[j].Bytes());
    RecordStands(bs, 16, i);
    StandsIn(s, l.Slab(0), Strung(bs), 16 * i, bs[i]);
    SlabStands(s, l.Slab(i), t.slabs[i]);
  }

  lemma PageRead(t: Tables, i: nat)
    requires t.Valid() && i < |t.pages|
    ensures Tabled(t.Bytes()) && LayoutOf(t.Bytes()).pages == |t.pages|
    ensures PageSlab(t.Bytes(), i) == t.pages[i].slab && PageSize(t.Bytes(), i) == t.pages[i].size
  {
    hide Tables.Bytes, Tables.Counts, LayoutOf, Stands, Strung, Le;
    TablesRead(t);
    var s, l := t.Bytes(), LayoutOf(t.Bytes());
    var bs := seq(|t.pages|, j requires 0 <= j < |t.pages| => t.pages[j].Bytes());
    RecordStands(bs, 12, i);
    StandsIn(s, l.Page(0), Strung(bs), 12 * i, bs[i]);
    PageStands(s, l.Page(i), t.pages[i]);
  }

  lemma PointerRead(t: Tables, i: nat)
    requires t.Valid() && i < |t.pointers|
    ensures var s, l := t.Bytes(), LayoutOf(t.Bytes());
            && Tabled(s) && l.pointers == |t.pointers| && l.Pointer(i) + 8 <= |s|
            && U32(s, l.Pointer(i)) == t.pointers[i].page && U32(s, l.Pointer(i) + 4) == t.pointers[i].offset
  {
    hide Tables.Bytes, Tables.Counts, LayoutOf, Stands, Strung, Le;
    TablesRead(t);
    var s, l := t.Bytes(), LayoutOf(t.Bytes());
    var bs := seq(|t.pointers|, j requires 0 <= j < |t.pointers| => t.pointers[j].Bytes());
    RecordStands(bs, 8, i);
    StandsIn(s, l.Pointer(0), Strung(bs), 8 * i, bs[i]);
    LinkStands(s, l.Pointer(i), t.pointers[i]);
  }

  lemma UseRead(t: Tables, i: nat)
    requires t.Valid() && i < |t.uses|
    ensures var s, l := t.Bytes(), LayoutOf(t.Bytes());
            && Tabled(s) && l.uses == |t.uses| && l.Use(i) + 8 <= |s|
            && U32(s, l.Use(i)) == t.uses[i].page && U32(s, l.Use(i) + 4) == t.uses[i].offset
  {
    hide Tables.Bytes, Tables.Counts, LayoutOf, Stands, Strung, Le;
    TablesRead(t);
    var s, l := t.Bytes(), LayoutOf(t.Bytes());
    var bs := seq(|t.uses|, j requires 0 <= j < |t.uses| => t.uses[j].Bytes());
    RecordStands(bs, 8, i);
    StandsIn(s, l.Use(0), Strung(bs), 8 * i, bs[i]);
    LinkStands(s, l.Use(i), t.uses[i]);
  }

  lemma AssetRead(t: Tables, i: nat)
    requires t.Valid() && i < |t.assets|
    ensures var s, l := t.Bytes(), LayoutOf(t.Bytes());
            && Tabled(s) && l.assets == |t.assets| && l.Asset(i) + 72 <= |s|
            && AssetAt(s, l.Asset(i)) == AssetMeant(t.assets[i])
  {
    hide Tables.Bytes, Tables.Counts, LayoutOf, Stands, Strung, Le;
    TablesRead(t);
    var s, l := t.Bytes(), LayoutOf(t.Bytes());
    var bs := seq(|t.assets|, j requires 0 <= j < |t.assets| => t.assets[j].Bytes());
    RecordStands(bs, 72, i);
    StandsIn(s, l.Asset(0), Strung(bs), 72 * i, bs[i]);
    AssetStands(s, l.Asset(i), t.assets[i]);
  }

  // ---------- STARPak directories ----------

  // A block of a STARPak: where it starts and how long it is.
  datatype Extent = Extent(offset: nat, size: nat) {
    predicate Valid() {
      offset < WORD32 * WORD32 && size < WORD32 * WORD32
    }

    function Bytes(): seq<Byte> {
      LeBytes(offset, 8) + LeBytes(size, 8)
    }
  }

  ghost predicate AllExtents(es: seq<Extent>) {
    |es| < WORD32 * WORD32 && forall i :: 0 <= i < |es| ==> es[i].Valid()
  }

  function ExtentBytes(es: seq<Extent>): (bs: seq<seq<Byte>>)
    ensures |bs| == |es| && forall i :: 0 <= i < |es| ==> bs[i] == es[i].Bytes() && |bs[i]| == 16
  {
    seq(|es|, i requires 0 <= i < |es| => es[i].Bytes())
  }

  // The blocks, then the directory, then how many entries it has.
  function Starpak(body: seq<Byte>, es: seq<Extent>): seq<Byte> {
    body + Strung(ExtentBytes(es)) + LeBytes(|es|, 8)
  }

  // The size of the first block listed that starts at an offset, or 0.
  function FirstSize(es: seq<Extent>, offset: nat): nat
    decreases |es|
  {
    if es == [] then 0 else if es[0].offset == offset then es[0].size else FirstSize(es[1..], offset)
  }

  lemma ExtentStands(s: seq<Byte>, at: nat, e: Extent)
    requires e.Valid() && Stands(s, at, e.Bytes())
    ensures at + 16 <= |s| && U64(s, at) == e.offset && U64(s, at + 8) == e.size
  {
    Limit8();
    var b := e.Bytes();
    assert Stands(b, 0, LeBytes(e.offset, 8)) && Stands(b, 8, LeBytes(e.size, 8));
    StandsIn(s, at, b, 0, LeBytes(e.offset, 8));
    StandsIn(s, at, b, 8, LeBytes(e.size, 8));
    LeStands(s, at, 8, e.offset);
    LeStands(s, at + 8, 8, e.size);
  }

  lemma {:induction false} EntriesFrom(s: seq<Byte>, at: nat, es: seq<Extent>, i: nat, offset: nat)
    requires AllExtents(es) && i <= |es| && at + 16 * |es| <= |s|
    requires forall j :: 0 <= j < |es| ==> Stands(s, at + 16 * j, es[j].Bytes())
    ensures RpakStreams.Allocation(s, at + 16 * i, |es| - i, offset) == FirstSize(es[i..], offset)
    decreases |es| - i
  {
    hide Stands, Extent.Bytes, Le;
    if i < |es| {
      ExtentStands(s, at + 16 * i, es[i]);
      EntriesFrom(s, at, es, i + 1, offset);
      assert es[i..][1..] == es[i + 1..] && at + 16 * (i + 1) == at + 16 * i + 16;
    }
  }

  // The directory is read as it was written.
  lemma DirectoryRead(body: seq<Byte>, es: seq<Extent>, offset: nat)
    requires AllExtents(es) && |body| >= 8
    ensures var s := Starpak(body, es);
            && |s| >= 16 && U64(s, |s| - 8) == |es| <= (|s| - 8) / 16
            && RpakStreams.Table(s) == |body| && RpakStreams.AllocationOf(s, offset) == FirstSize(es, offset)
  {
    hide Strung, Stands, Extent.Bytes, Le, LeBytes, RpakStreams.Allocation;
    var s, bs := Starpak(body, es), ExtentBytes(es);
    TableLength(bs, 16);
    Limit8();
    CountStands(body, es);
    LeStands(s, |s| - 8, 8, |es|);
    forall j | 0 <= j < |es| ensures Stands(s, |body| + 16 * j, es[j].Bytes()) {
      RecordStands(bs, 16, j);
      StandsIn(s, |body|, Strung(bs), 16 * j, bs[j]);
    }
    EntriesFrom(s, |body|, es, 0, offset);
    assert es[0..] == es;
  }

  lemma CountStands(body: seq<Byte>, es: seq<Extent>)
    ensures var s := Starpak(body, es);
            && |s| >= 8 && Stands(s, |s| - 8, LeBytes(|es|, 8)) && Stands(s, |body|, Strung(ExtentBytes(es)))
  {
    hide Strung, LeBytes;
  }
}
