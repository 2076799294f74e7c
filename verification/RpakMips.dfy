// A group of mips: stored smallest first and linear, converted to largest first and tiled.
module RpakMips {
  import opened Bits
  import opened RpakTextures

  // No mip of a texture with 16-bit sides takes more: 8192 by 8192 tiles of 64 blocks of 16 bytes.
  const TILED_MAX: nat := 0x10_0000_0000

  datatype Texture = Texture(width: nat, height: nat, format: nat, arrays: nat) {
    ghost predicate Valid() {
      width < 65536 && height < 65536 && format < FORMATS
    }

    function Level(mip: nat): (m: Mip)
      requires format < FORMATS
      ensures m.Valid()
    {
      Mip(AtLeastOne(ShiftRight(width, mip)), AtLeastOne(ShiftRight(height, mip)), BlockBytes(format), BlockSide(format))
    }

    // The bytes one layer of a mip takes in the source, padding included.
    function Aligned(mip: nat): nat
      requires format < FORMATS
    {
      Align16(Level(mip).Linear())
    }

    function MipSource(mip: nat): nat
      requires format < FORMATS
    {
      arrays * Aligned(mip)
    }

    function MipTiled(mip: nat): nat
      requires format < FORMATS
    {
      arrays * Level(mip).Tiled()
    }

    // The source bytes of the mips from `mip` up to `last`: where the data of the mip before them starts.
    function SourceSize(mip: nat, last: nat): nat
      requires format < FORMATS && mip <= last
      decreases last - mip
    {
      if mip == last then 0 else SourceSize(mip + 1, last) + MipSource(mip)
    }

    function TiledSize(mip: nat, last: nat): nat
      requires format < FORMATS && mip <= last
      decreases last - mip
    {
      if mip == last then 0 else MipTiled(mip) + TiledSize(mip + 1, last)
    }
  }

  function AtLeastOne(n: nat): nat {
    if n < 1 then 1 else n
  }

  // The first n layers of a mip whose data starts at `at`, tiled one after the other.
  function Layers(t: Texture, source: seq<Byte>, mip: nat, at: nat, n: nat): (s: seq<Byte>)
    requires t.format < FORMATS && at + n * t.Aligned(mip) <= |source|
    ensures |s| == n * t.Level(mip).Tiled()
    decreases n, |source|
  {
    if n == 0 then [] else
      MulStep(n - 1, t.Aligned(mip));
      MulStep(n - 1, t.Level(mip).Tiled());
      Layers(t, source, mip, at, n - 1) + Swizzled(t.Level(mip), source[at + (n - 1) * t.Aligned(mip)..])
  }

  function MipLayers(t: Texture, source: seq<Byte>, mip: nat, at: nat): (s: seq<Byte>)
    requires t.format < FORMATS && at + t.MipSource(mip) <= |source|
    ensures |s| == t.MipTiled(mip)
  {
    Layers(t, source, mip, at, t.arrays)
  }

  // The converted group: the largest mip first, though its data comes last in the source.
  function Converted(t: Texture, source: seq<Byte>, mip: nat, last: nat): (s: seq<Byte>)
    requires t.format < FORMATS && mip <= last && t.SourceSize(mip, last) <= |source|
    ensures |s| == t.TiledSize(mip, last)
    decreases last - mip
  {
    if mip == last then [] else
      MipLayers(t, source, mip, t.SourceSize(mip + 1, last)) + Converted(t, source, mip + 1, last)
  }

  // Converting never takes less room.
  lemma {:induction false} ConvertingNeverShrinks(t: Texture, mip: nat, last: nat)
    requires t.format < FORMATS && mip <= last
    ensures t.SourceSize(mip, last) <= t.TiledSize(mip, last)
    decreases last - mip
  {
    if mip < last {
      ConvertingNeverShrinks(t, mip + 1, last);
      TilingNeverShrinks(t.Level(mip));
      MulMonotone(t.arrays, t.Aligned(mip), t.arrays, t.Level(mip).Tiled());
    }
  }

  lemma OneLayer(t: Texture, source: seq<Byte>, mip: nat, at: nat)
    requires t.format < FORMATS && t.arrays == 1 && at + t.MipSource(mip) <= |source|
    ensures t.Level(mip).Linear() <= |source| - at && t.MipTiled(mip) == t.Level(mip).Tiled()
    ensures MipLayers(t, source, mip, at) == Swizzled(t.Level(mip), source[at..])
  {
    hide Swizzled;
    assert at + 0 * t.Aligned(mip) == at;
    assert Layers(t, source, mip, at, 0) == [];
  }

  // Every mip of a single-layer texture stands in the converted group after the larger ones, tiled.
  lemma {:induction false} MipStands(t: Texture, source: seq<Byte>, first: nat, mip: nat, last: nat)
    requires t.format < FORMATS && t.arrays == 1 && first <= mip < last && t.SourceSize(first, last) <= |source|
    ensures t.TiledSize(first, mip) + t.Level(mip).Tiled() <= t.TiledSize(first, last)
    ensures t.SourceSize(mip + 1, last) + t.Level(mip).Linear() <= |source|
    ensures var at := t.TiledSize(first, mip);
            Converted(t, source, first, last)[at..at + t.Level(mip).Tiled()] ==
            Swizzled(t.Level(mip), source[t.SourceSize(mip + 1, last)..])
    decreases mip - first
  {
    hide Swizzled, MipLayers, Texture.MipSource, Texture.MipTiled, Texture.Level;
    var head := MipLayers(t, source, first, t.SourceSize(first + 1, last));
    var tail := Converted(t, source, first + 1, last);
    if first == mip {
      OneLayer(t, source, mip, t.SourceSize(mip + 1, last));
      assert (head + tail)[0..|head|] == head;
    } else {
      MipStands(t, source, first + 1, mip, last);
      var at, n := t.TiledSize(first + 1, mip), t.Level(mip).Tiled();
      assert (head + tail)[|head| + at..|head| + at + n] == tail[at..at + n];
    }
  }

  // Every mip of a single-layer texture can be read back from the converted group.
  lemma MipRecovered(t: Texture, source: seq<Byte>, first: nat, mip: nat, last: nat)
    requires t.format < FORMATS && t.arrays == 1 && first <= mip < last && t.SourceSize(first, last) <= |source|
    ensures t.TiledSize(first, mip) + t.Level(mip).Tiled() <= t.TiledSize(first, last)
    ensures t.SourceSize(mip + 1, last) + t.Level(mip).Linear() <= |source|
    ensures var at := t.TiledSize(first, mip);
            var from := t.SourceSize(mip + 1, last);
            Unswizzled(t.Level(mip), Converted(t, source, first, last)[at..at + t.Level(mip).Tiled()]) ==
            source[from..from + t.Level(mip).Linear()]
  {
    hide Unswizzled, Swizzled, Converted;
    MipStands(t, source, first, mip, last);
    var m, from := t.Level(mip), t.SourceSize(mip + 1, last);
    Unswizzles(m, source[from..]);
    assert source[from..][..m.Linear()] == source[from..from + m.Linear()];
  }

  method ConvertMipGroup(source: seq<Byte>, t: Texture, firstMip: nat, mipCount: nat)
    returns (ok: bool, output: seq<Byte>, consumed: nat)
    requires t.width < 65536 && t.height < 65536
    ensures ok <==> t.format < FORMATS && t.SourceSize(firstMip, firstMip + mipCount) <= |source|
    ensures ok ==> consumed == t.SourceSize(firstMip, firstMip + mipCount)
    ensures ok ==> output == Converted(t, source, firstMip, firstMip + mipCount)
  {
    output, consumed := [], 0;
    if t.format >= FORMATS {
      return false, [], 0;
    }
    hide Texture.SourceSize, Joined, Converted, PartDone;
    var last := firstMip + mipCount;
    var converted: seq<seq<Byte>> := seq(mipCount, _ => []);
    PartStarts(t, source, firstMip, last, converted);
    var reverse := 0;
    while reverse < mipCount
      invariant 0 <= reverse <= mipCount
      invariant PartDone(t, source, firstMip, last, last - reverse, converted, consumed)
    {
      ok, converted, consumed := ConvertNext(source, t, firstMip, last - 1 - reverse, last, converted, consumed);
      if !ok {
        SourceGrows(t, firstMip, last - 1 - reverse, last);
        return false, [], consumed;
      }
      reverse := reverse + 1;
    }
    PartEnds(t, source, firstMip, last, converted, consumed);
    output := Concat(converted);
    ok := true;
  }

  // The mips from `mip` on are converted, each in its own place.
  ghost predicate PartDone(t: Texture, source: seq<Byte>, first: nat, last: nat, mip: int, converted: seq<seq<Byte>>,
                           consumed: nat)
    requires t.format < FORMATS && first <= last
  {
    && first <= mip <= last && |converted| == last - first
    && consumed == t.SourceSize(mip, last) <= |source|
    && Joined(converted, mip - first) == Converted(t, source, mip, last)
  }

  lemma PartStarts(t: Texture, source: seq<Byte>, first: nat, last: nat, converted: seq<seq<Byte>>)
    requires t.format < FORMATS && first <= last && |converted| == last - first
    ensures PartDone(t, source, first, last, last, converted, 0)
  {
    JoinedNone(converted);
    EmptyGroup(t, source, last);
  }

  lemma PartEnds(t: Texture, source: seq<Byte>, first: nat, last: nat, converted: seq<seq<Byte>>, consumed: nat)
    requires t.format < FORMATS && first <= last && PartDone(t, source, first, last, first, converted, consumed)
    ensures consumed == t.SourceSize(first, last) <= |source|
    ensures Joined(converted, 0) == Converted(t, source, first, last)
  {
    hide Joined, Converted;
  }

  method ConvertNext(source: seq<Byte>, t: Texture, firstMip: nat, mip: nat, ghost last: nat,
                     converted: seq<seq<Byte>>, consumed: nat)
    returns (ok: bool, more: seq<seq<Byte>>, end: nat)
    requires t.Valid() && firstMip <= mip < last && PartDone(t, source, firstMip, last, mip + 1, converted, consumed)
    ensures ok <==> t.SourceSize(mip, last) <= |source|
    ensures ok ==> PartDone(t, source, firstMip, last, mip, more, end)
  {
    hide MipLayers, Texture.MipSource, Texture.SourceSize, Joined, Converted;
    GroupStep(t, mip, last);
    more := converted;
    var layers;
    ok, layers, end := ConvertMip(source, t, mip, consumed);
    if ok {
      JoinedUpdate(converted, mip - firstMip, layers);
      ConvertedStep(t, source, mip, last);
      more := converted[mip - firstMip := layers];
    }
  }

  method Concat(parts: seq<seq<Byte>>) returns (output: seq<Byte>)
    ensures output == Joined(parts, 0)
  {
    output := [];
    for i := 0 to |parts|
      invariant output + Joined(parts, i) == Joined(parts, 0)
    {
      assert output + (parts[i] + Joined(parts, i + 1)) == (output + parts[i]) + Joined(parts, i + 1);
      output := output + parts[i];
    }
    assert output + [] == output;
  }

  // The parts from i on, one after the other.
  function Joined(parts: seq<seq<Byte>>, i: nat): seq<Byte>
    requires i <= |parts|
    decreases |parts| - i
  {
    if i == |parts| then [] else parts[i] + Joined(parts, i + 1)
  }

  lemma {:induction false} JoinedTail(a: seq<seq<Byte>>, b: seq<seq<Byte>>, i: nat)
    requires |a| == |b| && i <= |a| && a[i..] == b[i..]
    ensures Joined(a, i) == Joined(b, i)
    decreases |a| - i
  {
    if i < |a| {
      assert a[i] == a[i..][0] && b[i] == b[i..][0] && a[i + 1..] == a[i..][1..] && b[i + 1..] == b[i..][1..];
      JoinedTail(a, b, i + 1);
    }
  }

  lemma EmptyGroup(t: Texture, source: seq<Byte>, last: nat)
    requires t.format < FORMATS
    ensures t.SourceSize(last, last) == 0 && Converted(t, source, last, last) == []
  {
  }

  lemma GroupStep(t: Texture, mip: nat, last: nat)
    requires t.format < FORMATS && mip < last
    ensures t.SourceSize(mip, last) == t.SourceSize(mip + 1, last) + t.MipSource(mip)
  {
  }

  lemma ConvertedStep(t: Texture, source: seq<Byte>, mip: nat, last: nat)
    requires t.format < FORMATS && mip < last && t.SourceSize(mip, last) <= |source|
    ensures t.SourceSize(mip, last) == t.SourceSize(mip + 1, last) + t.MipSource(mip)
    ensures Converted(t, source, mip, last) ==
            MipLayers(t, source, mip, t.SourceSize(mip + 1, last)) + Converted(t, source, mip + 1, last)
  {
    hide MipLayers, Texture.MipSource;
  }

  lemma JoinedNone(parts: seq<seq<Byte>>)
    ensures Joined(parts, |parts|) == []
  {
  }

  lemma JoinedUpdate(parts: seq<seq<Byte>>, i: nat, x: seq<Byte>)
    requires i < |parts|
    ensures Joined(parts[i := x], i) == x + Joined(parts, i + 1)
  {
    JoinedTail(parts, parts[i := x], i + 1);
  }

  lemma {:induction false} SourceGrows(t: Texture, first: nat, mip: nat, last: nat)
    requires t.format < FORMATS && first <= mip <= last
    ensures t.SourceSize(mip, last) <= t.SourceSize(first, last)
    decreases mip - first
  {
    if first < mip {
      SourceGrows(t, first + 1, mip, last);
    }
  }

  // The layers of one mip, from position `at` of the source.
  method ConvertMip(source: seq<Byte>, t: Texture, mip: nat, at: nat) returns (ok: bool, layers: seq<Byte>, end: nat)
    requires t.Valid() && at <= |source|
    ensures ok <==> at + t.MipSource(mip) <= |source|
    ensures ok ==> end == at + t.MipSource(mip)
    ensures ok ==> layers == MipLayers(t, source, mip, at)
  {
    hide Swizzled;
    var m := t.Level(mip);
    LevelBounded(t, mip);
    LinearPositive(m);
    layers, end := [], at;
    var layer := 0;
    while layer < t.arrays
      invariant 0 <= layer <= t.arrays
      invariant end == at + layer * t.Aligned(mip) <= |source|
      invariant layers == Layers(t, source, mip, at, layer)
    {
      MulStep(layer, t.Aligned(mip));
      if Guarded(m.Linear()) == 0 || t.Aligned(mip) > |source| - end {
        MulMonotone(layer + 1, t.Aligned(mip), t.arrays, t.Aligned(mip));
        return false, [], end;
      }
      var bytes;
      ok, bytes := SwizzleMip(source[end..], m);
      layers := layers + bytes;
      end := end + t.Aligned(mip);
      layer := layer + 1;
    }
    ok := true;
  }

  lemma {:induction false} ShiftRightShrinks(a: nat, k: nat)
    ensures ShiftRight(a, k) <= a
    decreases k
  {
    if k > 0 {
      ShiftRightShrinks(a / 2, k - 1);
    }
  }

  lemma CeilDivBound(n: nat, d: nat)
    requires d >= 1
    ensures CeilDiv(n, d) <= n
  {
    var x := n + d - 1;
    var q := x / d;
    assert x == d * q + x % d;
    if q > n {
      MulMonotone(d, n + 1, d, q);
      assert d * (n + 1) == d * n + d;
      MulMonotone(1, n, d, n);
    }
  }

  // No mip of a texture with 16-bit sides can overflow the size guards.
  lemma LevelBounded(t: Texture, mip: nat)
    requires t.Valid()
    ensures t.Level(mip).Linear() <= SIZE_MAX && 1 <= t.Level(mip).Tiled() <= TILED_MAX
  {
    var m := t.Level(mip);
    ShiftRightShrinks(t.width, mip);
    ShiftRightShrinks(t.height, mip);
    CeilDivBound(m.width, m.side);
    CeilDivBound(m.height, m.side);
    TiledBound(m);
    LinearPositive(m);
  }

  lemma TiledBound(m: Mip)
    requires m.Valid() && m.BlocksX() < 65536 && m.BlocksY() < 65536 && m.bytes <= 16
    ensures m.Tiled() <= TILED_MAX
  {
    var tw, th := m.TilesX(), m.TilesY();
    assert tw <= 8192 && th <= 8192;
    MulMonotone(tw, th, 8192, 8192);
    MulMonotone(tw * th * 64, m.bytes, 8192 * 8192 * 64, 16);
  }
}
