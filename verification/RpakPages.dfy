// Replacing byte ranges inside a page, and where the bytes around them end up.
module RpakPages {
  import opened Options
  import opened Bits

  // `data` takes the place of oldSize bytes from `start`.
  datatype Patch = Patch(start: nat, oldSize: nat, data: seq<Byte>) {
    function End(): nat {
      start + oldSize
    }
  }

  // Patches in order, apart from each other and within a page of the given size.
  ghost predicate Ordered(ps: seq<Patch>, size: nat) {
    && (forall i :: 0 <= i < |ps| ==> ps[i].End() <= size)
    && forall i, j :: 0 <= i < j < |ps| ==> ps[i].End() <= ps[j].start
  }

  // No patch is empty, and none is smaller than what it replaces.
  ghost predicate Growing(ps: seq<Patch>) {
    forall i :: 0 <= i < |ps| ==> 1 <= ps[i].oldSize <= |ps[i].data|
  }

  // How far the patches from i on move what lies at `offset`.
  function Delta(ps: seq<Patch>, i: nat, offset: nat): int
    requires i <= |ps|
    decreases |ps| - i
  {
    if i == |ps| then 0
    else (if ps[i].End() <= offset then |ps[i].data| - ps[i].oldSize else 0) + Delta(ps, i + 1, offset)
  }

  // Strictly inside a range that is replaced.
  predicate Inside(ps: seq<Patch>, offset: nat) {
    exists i :: 0 <= i < |ps| && ps[i].start < offset < ps[i].End()
  }

  function MapOffset(ps: seq<Patch>, size: nat, offset: nat): Option<nat> {
    if offset > size || Inside(ps, offset) || offset + Delta(ps, 0, offset) < 0 then None
    else Some(offset + Delta(ps, 0, offset))
  }

  // The page from `source` on, with the patches from i on applied.
  function Rebuild(page: seq<Byte>, ps: seq<Patch>, i: nat, source: nat): seq<Byte>
    requires i <= |ps| && Ordered(ps, |page|) && source <= |page|
    requires i < |ps| ==> source <= ps[i].start
    decreases |ps| - i
  {
    if i == |ps| then page[source..]
    else page[source..ps[i].start] + ps[i].data + Rebuild(page, ps, i + 1, ps[i].End())
  }

  function Rebuilt(page: seq<Byte>, ps: seq<Patch>): seq<Byte>
    requires Ordered(ps, |page|)
  {
    Rebuild(page, ps, 0, 0)
  }

  // Within a range that is replaced.
  ghost predicate Covered(ps: seq<Patch>, offset: nat) {
    exists i :: 0 <= i < |ps| && ps[i].start <= offset < ps[i].End()
  }

  lemma {:induction false} NoDelta(ps: seq<Patch>, i: nat, offset: nat)
    requires i <= |ps| && forall j :: i <= j < |ps| ==> offset < ps[j].End()
    ensures Delta(ps, i, offset) == 0
    decreases |ps| - i
  {
    if i < |ps| {
      NoDelta(ps, i + 1, offset);
    }
  }

  lemma {:induction false} DeltaGrows(ps: seq<Patch>, i: nat, a: nat, b: nat)
    requires i <= |ps| && Growing(ps) && a <= b
    ensures 0 <= Delta(ps, i, a) <= Delta(ps, i, b)
    decreases |ps| - i
  {
    if i < |ps| {
      DeltaGrows(ps, i + 1, a, b);
    }
  }

  // A surviving byte is found where the map says.
  lemma {:induction false} SurvivesFrom(page: seq<Byte>, ps: seq<Patch>, i: nat, source: nat, offset: nat)
    requires i <= |ps| && Ordered(ps, |page|) && (i < |ps| ==> source <= ps[i].start)
    requires source <= offset < |page| && forall j :: i <= j < |ps| ==> !(ps[j].start <= offset < ps[j].End())
    ensures var k := offset - source + Delta(ps, i, offset);
            0 <= k < |Rebuild(page, ps, i, source)| && Rebuild(page, ps, i, source)[k] == page[offset]
    decreases |ps| - i
  {
    if i < |ps| {
      if offset < ps[i].start {
        NoDelta(ps, i, offset);
      } else {
        SurvivesFrom(page, ps, i + 1, ps[i].End(), offset);
      }
    }
  }

  lemma Survives(page: seq<Byte>, ps: seq<Patch>, offset: nat)
    requires Ordered(ps, |page|) && offset < |page| && !Covered(ps, offset)
    ensures MapOffset(ps, |page|, offset).Some?
    ensures var k := MapOffset(ps, |page|, offset).value;
            k < |Rebuilt(page, ps)| && Rebuilt(page, ps)[k] == page[offset]
  {
    SurvivesFrom(page, ps, 0, 0, offset);
  }

  // The size of the rebuilt page, and where the end of the old one maps to.
  lemma {:induction false} RebuildSize(page: seq<Byte>, ps: seq<Patch>, i: nat, source: nat)
    requires i <= |ps| && Ordered(ps, |page|) && source <= |page| && (i < |ps| ==> source <= ps[i].start)
    ensures |Rebuild(page, ps, i, source)| == |page| - source + Delta(ps, i, |page|)
    decreases |ps| - i
  {
    if i < |ps| {
      RebuildSize(page, ps, i + 1, ps[i].End());
    }
  }

  // A page never shrinks, so every offset outside the replaced ranges has an image inside the new page.
  lemma PageGrows(page: seq<Byte>, ps: seq<Patch>)
    requires Ordered(ps, |page|) && Growing(ps)
    ensures |page| <= |Rebuilt(page, ps)|
    ensures |Rebuilt(page, ps)| == |page| + Delta(ps, 0, |page|)
    ensures MapOffset(ps, |page|, |page|) == Some(|Rebuilt(page, ps)|)
  {
    RebuildSize(page, ps, 0, 0);
    DeltaGrows(ps, 0, |page|, |page|);
  }

  lemma MapDefined(ps: seq<Patch>, size: nat, offset: nat)
    requires Growing(ps)
    ensures MapOffset(ps, size, offset).Some? <==> offset <= size && !Inside(ps, offset)
    ensures MapOffset(ps, size, offset).Some? ==> MapOffset(ps, size, offset).value == offset + Delta(ps, 0, offset)
  {
    DeltaGrows(ps, 0, offset, offset);
  }

  // The map keeps order, so different offsets keep apart.
  lemma MapIncreases(ps: seq<Patch>, size: nat, a: nat, b: nat)
    requires Growing(ps) && a < b
    requires MapOffset(ps, size, a).Some? && MapOffset(ps, size, b).Some?
    ensures MapOffset(ps, size, a).value + (b - a) <= MapOffset(ps, size, b).value
  {
    DeltaGrows(ps, 0, a, b);
  }

  // A stretch that no replaced range touches moves as one piece.
  ghost predicate Clear(ps: seq<Patch>, offset: nat, n: nat) {
    forall i :: 0 <= i < |ps| ==> ps[i].End() <= offset || offset + n <= ps[i].start
  }

  lemma {:induction false} DeltaTogether(ps: seq<Patch>, i: nat, offset: nat, n: nat, k: nat)
    requires i <= |ps| && Clear(ps, offset, n) && k < n && Growing(ps)
    ensures Delta(ps, i, offset + k) == Delta(ps, i, offset)
    decreases |ps| - i
  {
    if i < |ps| {
      DeltaTogether(ps, i + 1, offset, n, k);
    }
  }

  lemma MovesTogether(page: seq<Byte>, ps: seq<Patch>, offset: nat, n: nat, k: nat)
    requires Ordered(ps, |page|) && Growing(ps) && Clear(ps, offset, n) && offset + n <= |page| && k < n
    ensures MapOffset(ps, |page|, offset).Some?
    ensures MapOffset(ps, |page|, offset + k) == Some(MapOffset(ps, |page|, offset).value + k)
    ensures MapOffset(ps, |page|, offset).value + k < |Rebuilt(page, ps)|
    ensures Rebuilt(page, ps)[MapOffset(ps, |page|, offset).value + k] == page[offset + k]
  {
    MapDefined(ps, |page|, offset);
    MapDefined(ps, |page|, offset + k);
    DeltaTogether(ps, 0, offset, n, k);
    Survives(page, ps, offset + k);
  }

  lemma RebuildUnfolds(page: seq<Byte>, ps: seq<Patch>, i: nat, source: nat)
    requires Ordered(ps, |page|) && i < |ps| && source <= ps[i].start
    ensures ps[i].End() <= |page| && (i + 1 < |ps| ==> ps[i].End() <= ps[i + 1].start)
    ensures Rebuild(page, ps, i, source) ==
            page[source..ps[i].start] + ps[i].data + Rebuild(page, ps, i + 1, ps[i].End())
  {
  }

  // Replacement data stands where the start of what it replaces maps to.
  lemma {:induction false} DataFrom(page: seq<Byte>, ps: seq<Patch>, i: nat, source: nat, n: nat, k: nat)
    requires i <= n < |ps| && Ordered(ps, |page|) && Growing(ps) && source <= ps[i].start && k < |ps[n].data|
    ensures var at := ps[n].start - source + Delta(ps, i, ps[n].start) + k;
            0 <= at < |Rebuild(page, ps, i, source)| && Rebuild(page, ps, i, source)[at] == ps[n].data[k]
    decreases n - i
  {
    RebuildUnfolds(page, ps, i, source);
    if i == n {
      NoDelta(ps, i, ps[n].start);
    } else {
      assert ps[i].End() <= ps[n].start;
      assert Delta(ps, i, ps[n].start) == |ps[i].data| - ps[i].oldSize + Delta(ps, i + 1, ps[n].start);
      DataFrom(page, ps, i + 1, ps[i].End(), n, k);
      hide *;
    }
  }

  lemma DataStands(page: seq<Byte>, ps: seq<Patch>, n: nat, k: nat)
    requires n < |ps| && Ordered(ps, |page|) && Growing(ps) && k < |ps[n].data|
    ensures MapOffset(ps, |page|, ps[n].start).Some?
    ensures var at := MapOffset(ps, |page|, ps[n].start).value + k;
            at < |Rebuilt(page, ps)| && Rebuilt(page, ps)[at] == ps[n].data[k]
  {
    DataFrom(page, ps, 0, 0, n, k);
    MapDefined(ps, |page|, ps[n].start);
  }

  lemma DataSlice(page: seq<Byte>, ps: seq<Patch>, n: nat)
    requires n < |ps| && Ordered(ps, |page|) && Growing(ps)
    ensures MapOffset(ps, |page|, ps[n].start).Some?
    ensures var at := MapOffset(ps, |page|, ps[n].start).value;
            at + |ps[n].data| <= |Rebuilt(page, ps)| && Rebuilt(page, ps)[at..at + |ps[n].data|] == ps[n].data
  {
    hide Rebuilt, MapOffset, Ordered;
    DataStands(page, ps, n, 0);
    DataStands(page, ps, n, |ps[n].data| - 1);
    var at := MapOffset(ps, |page|, ps[n].start).value;
    var data := Rebuilt(page, ps)[at..at + |ps[n].data|];
    forall k | 0 <= k < |ps[n].data| ensures data[k] == ps[n].data[k] {
      DataStands(page, ps, n, k);
    }
  }

  // What lies behind a replaced range moves behind its replacement.
  lemma {:induction false} DeltaJumps(ps: seq<Patch>, size: nat, i: nat, n: nat, offset: nat)
    requires i <= n < |ps| && Ordered(ps, size) && Growing(ps) && ps[n].End() <= offset
    ensures Delta(ps, i, offset) >= Delta(ps, i, ps[n].start) + |ps[n].data| - ps[n].oldSize
    decreases n - i
  {
    if i == n {
      NoDelta(ps, i, ps[n].start);
      DeltaGrows(ps, i + 1, 0, offset);
    } else {
      DeltaJumps(ps, size, i + 1, n, offset);
    }
  }

  // A stretch that no replaced range touches stays clear of the replacements.
  lemma BesideData(ps: seq<Patch>, size: nat, n: nat, offset: nat, m: nat)
    requires n < |ps| && Ordered(ps, size) && Growing(ps) && m > 0 && Clear(ps, offset, m) && offset + m <= size
    ensures MapOffset(ps, size, offset).Some? && MapOffset(ps, size, ps[n].start).Some?
    ensures var at, to := MapOffset(ps, size, ps[n].start).value, MapOffset(ps, size, offset).value;
            to + m <= at || at + |ps[n].data| <= to
  {
    StartDefined(ps, size, n);
    MapDefined(ps, size, offset);
    MapDefined(ps, size, ps[n].start);
    if ps[n].End() <= offset {
      DeltaJumps(ps, size, 0, n, offset);
    } else {
      DeltaGrows(ps, 0, offset, ps[n].start);
    }
  }

  lemma StartDefined(ps: seq<Patch>, size: nat, n: nat)
    requires n < |ps| && Ordered(ps, size) && Growing(ps)
    ensures ps[n].start <= size && !Inside(ps, ps[n].start)
  {
  }

  // ---------- The code ----------

  method FindOffset(ps: seq<Patch>, size: nat, offset: nat) returns (mapped: Option<nat>)
    ensures mapped == MapOffset(ps, size, offset)
  {
    if offset > size {
      return None;
    }
    var delta := 0;
    var i := 0;
    while i < |ps|
      invariant 0 <= i <= |ps| && delta + Delta(ps, i, offset) == Delta(ps, 0, offset)
      invariant forall j :: 0 <= j < i ==> !(ps[j].start < offset < ps[j].End())
    {
      var end := ps[i].start + ps[i].oldSize;
      if offset > ps[i].start && offset < end {
        return None;
      }
      if end <= offset {
        delta := delta + (|ps[i].data| - ps[i].oldSize);
      }
      i := i + 1;
    }
    var result := offset + delta;
    if result < 0 {
      return None;
    }
    mapped := Some(result);
  }

  // The patches before i are applied up to `source`.
  ghost predicate Rebuilding(page: seq<Byte>, ps: seq<Patch>, i: nat, source: nat, done: seq<Byte>)
    requires Ordered(ps, |page|)
  {
    && i <= |ps| && source <= |page| && (i < |ps| ==> source <= ps[i].start)
    && done + Rebuild(page, ps, i, source) == Rebuilt(page, ps)
  }

  lemma RebuildStarts(page: seq<Byte>, ps: seq<Patch>)
    requires Ordered(ps, |page|)
    ensures Rebuilding(page, ps, 0, 0, [])
  {
    hide Rebuild;
  }

  lemma RebuildStep(page: seq<Byte>, ps: seq<Patch>, i: nat, source: nat, done: seq<Byte>)
    requires Ordered(ps, |page|) && i < |ps| && Rebuilding(page, ps, i, source, done)
    ensures source <= ps[i].start <= |page|
    ensures Rebuilding(page, ps, i + 1, ps[i].End(), done + page[source..ps[i].start] + ps[i].data)
  {
    var rest := Rebuild(page, ps, i + 1, ps[i].End());
    var kept, data := page[source..ps[i].start], ps[i].data;
    assert Rebuild(page, ps, i, source) == kept + data + rest;
    hide Rebuild;
    assert done + (kept + data + rest) == (done + kept + data) + rest;
  }

  lemma RebuildEnds(page: seq<Byte>, ps: seq<Patch>, source: nat, done: seq<Byte>)
    requires Ordered(ps, |page|) && Rebuilding(page, ps, |ps|, source, done)
    ensures source <= |page| && done + page[source..] == Rebuilt(page, ps)
  {
  }

  method RebuildPage(page: seq<Byte>, ps: seq<Patch>) returns (r: seq<Byte>)
    requires Ordered(ps, |page|)
    ensures r == Rebuilt(page, ps)
  {
    hide Rebuilding, Rebuilt, Ordered;
    r := [];
    var source: nat := 0;
    var i := 0;
    RebuildStarts(page, ps);
    while i < |ps|
      invariant 0 <= i <= |ps| && Rebuilding(page, ps, i, source, r)
    {
      RebuildStep(page, ps, i, source, r);
      r := r + page[source..ps[i].start];
      r := r + ps[i].data;
      source := ps[i].start + ps[i].oldSize;
      i := i + 1;
    }
    RebuildEnds(page, ps, source, r);
    r := r + page[source..];
  }

  // Whether sorted patches are apart from each other and within the page.
  method CheckOrdered(ps: seq<Patch>, size: nat) returns (ok: bool)
    requires forall i, j :: 0 <= i < j < |ps| ==> ps[i].start <= ps[j].start
    ensures ok <==> Ordered(ps, size)
  {
    var end := 0;
    var i := 0;
    while i < |ps|
      invariant 0 <= i <= |ps| && Ordered(ps[..i], size)
      invariant end == if i == 0 then 0 else ps[i - 1].End()
      invariant forall j :: 0 <= j < i ==> ps[j].End() <= end
    {
      if ps[i].start < end || ps[i].start > size || ps[i].oldSize > size - ps[i].start {
        return false;
      }
      end := ps[i].start + ps[i].oldSize;
      i := i + 1;
    }
    assert ps[..i] == ps;
    return true;
  }
}
