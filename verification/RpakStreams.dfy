// The streamed mips: blocks of STARPak files that are tiled where they stand.
module RpakStreams {
  import opened Options
  import opened Bits
  import opened RpakBytes
  import opened RpakTextures
  import opened RpakMips
  import opened RpakSpecs

  const NO_STREAM: nat := 0xffff_ffff_ffff_ffff

  // What is to be written at an offset of one of the files.
  datatype Request = Request(index: nat, offset: nat, data: seq<Byte>) {
    predicate Precedes(r: Request) {
      index < r.index || (index == r.index && offset < r.offset)
    }

    predicate SameBlock(r: Request) {
      index == r.index && offset == r.offset
    }
  }

  // One more request, in order; two for the same block must agree.
  function Added(rs: seq<Request>, r: Request): Option<seq<Request>>
    decreases |rs|
  {
    if rs == [] || r.Precedes(rs[0]) then Some([r] + rs)
    else if r.SameBlock(rs[0]) then if r.data == rs[0].data then Some(rs) else None
    else
      match Added(rs[1..], r)
      case None => None
      case Some(rest) => Some([rs[0]] + rest)
  }

  // The low 12 bits of a packed stream address name the file, the rest the offset.
  function RequestOf(starpaks: seq<seq<Byte>>, c: Conversion): Option<Request>
    requires c.head.texture.format < FORMATS
  {
    var index, offset := c.stream % 4096, c.stream / 4096 * 4096;
    if c.stream == NO_STREAM || index >= |starpaks| || offset >= |starpaks[index]| then None
    else if c.head.texture.SourceSize(0, c.head.streamed) > |starpaks[index]| - offset then None
    else Some(Request(index, offset, Converted(c.head.texture, starpaks[index][offset..], 0, c.head.streamed)))
  }

  ghost predicate Formatted(cs: seq<Conversion>) {
    forall i :: 0 <= i < |cs| ==> cs[i].head.texture.width < 65536 && cs[i].head.texture.height < 65536
                                  && cs[i].head.texture.format < FORMATS
  }

  function Requested(starpaks: seq<seq<Byte>>, cs: seq<Conversion>, n: nat): Option<seq<Request>>
    requires n <= |cs| && Formatted(cs)
    decreases n, |cs|
  {
    if n == 0 then Some([]) else
      match Requested(starpaks, cs, n - 1)
      case None => None
      case Some(rs) =>
        if cs[n - 1].head.streamed == 0 then Some(rs) else
          match RequestOf(starpaks, cs[n - 1])
          case None => None
          case Some(r) => Added(rs, r)
  }

  // ---------- The directory at the end of a STARPak ----------

  predicate Sound(s: seq<Byte>) {
    |s| >= 16 && s[..4] == [83, 82, 80, 107] && U32(s, 4) == 1 && U64(s, |s| - 8) <= (|s| - 8) / 16
  }

  function Table(s: seq<Byte>): (t: nat)
    requires |s| >= 16 && U64(s, |s| - 8) <= (|s| - 8) / 16
    ensures t <= |s| - 8
  {
    |s| - 8 - 16 * U64(s, |s| - 8)
  }

  // The size of the first block listed from `at` on that starts at offset, or 0.
  function Allocation(s: seq<Byte>, at: nat, entries: nat, offset: nat): nat
    requires at + 16 * entries <= |s|
    decreases entries, |s|
  {
    if entries == 0 then 0
    else if U64(s, at) == offset then U64(s, at + 8)
    else Allocation(s, at + 16, entries - 1, offset)
  }

  function AllocationOf(s: seq<Byte>, offset: nat): nat
    requires |s| >= 16 && U64(s, |s| - 8) <= (|s| - 8) / 16
  {
    Allocation(s, Table(s), U64(s, |s| - 8), offset)
  }

  predicate Accepts(s: seq<Byte>, r: Request) {
    && Sound(s) && AllocationOf(s, r.offset) > 0
    && r.offset + AllocationOf(s, r.offset) <= Table(s) && |r.data| <= AllocationOf(s, r.offset)
  }

  // The whole block is cleared and the data put at its start.
  function Block(r: Request, allocation: nat): (b: seq<Byte>)
    requires |r.data| <= allocation
    ensures |b| == allocation
  {
    r.data + Zeros(allocation - |r.data|)
  }

  function Rewritten(s: seq<Byte>, r: Request): (t: seq<Byte>)
    requires Accepts(s, r)
    ensures |t| == |s|
  {
    var allocation := AllocationOf(s, r.offset);
    s[..r.offset] + Block(r, allocation) + s[r.offset + allocation..]
  }

  ghost predicate Indexed(starpaks: seq<seq<Byte>>, rs: seq<Request>) {
    forall i :: 0 <= i < |rs| ==> rs[i].index < |starpaks|
  }

  function AllRewritten(starpaks: seq<seq<Byte>>, rs: seq<Request>, n: nat): (out: Option<seq<seq<Byte>>>)
    requires n <= |rs| && Indexed(starpaks, rs)
    ensures out.Some? ==> |out.value| == |starpaks|
    ensures out.Some? ==> forall i :: 0 <= i < |starpaks| ==> |out.value[i]| == |starpaks[i]|
    decreases n, |rs|
  {
    if n == 0 then Some(starpaks) else
      match AllRewritten(starpaks, rs, n - 1)
      case None => None
      case Some(before) =>
        var r := rs[n - 1];
        if !Accepts(before[r.index], r) then None
        else Some(before[r.index := Rewritten(before[r.index], r)])
  }

  // ---------- What rewriting keeps ----------

  // The same directory in two files of one size.
  ghost predicate SameDirectory(s: seq<Byte>, t: seq<Byte>) {
    && |s| == |t| && |s| >= 16 && U64(s, |s| - 8) <= (|s| - 8) / 16
    && s[Table(s)..] == t[Table(s)..]
  }

  lemma SuffixWord(s: seq<Byte>, t: seq<Byte>, from: nat, at: nat)
    requires from <= |s| == |t| && s[from..] == t[from..] && from <= at && at + 8 <= |s|
    ensures U64(s, at) == U64(t, at)
  {
    SliceAfter(s, from, at);
    SliceAfter(t, from, at);
    LeSame(s, at, t, at, 8);
  }

  lemma SliceAfter(s: seq<Byte>, from: nat, at: nat)
    requires from <= at && at + 8 <= |s|
    ensures s[at..at + 8] == s[from..][at - from..at - from + 8]
  {
  }

  lemma {:induction false} SameAllocation(s: seq<Byte>, t: seq<Byte>, from: nat, at: nat, entries: nat, offset: nat)
    requires from <= |s| == |t| && s[from..] == t[from..] && from <= at && at + 16 * entries <= |s|
    ensures Allocation(s, at, entries, offset) == Allocation(t, at, entries, offset)
    decreases entries
  {
    hide U64;
    if entries > 0 {
      SuffixWord(s, t, from, at);
      SuffixWord(s, t, from, at + 8);
      SameAllocation(s, t, from, at + 16, entries - 1, offset);
    }
  }

  lemma SameLookup(s: seq<Byte>, t: seq<Byte>, offset: nat)
    requires SameDirectory(s, t)
    ensures U64(t, |t| - 8) == U64(s, |s| - 8) && Table(t) == Table(s)
    ensures AllocationOf(t, offset) == AllocationOf(s, offset)
  {
    hide U64;
    SuffixWord(s, t, Table(s), |s| - 8);
    SameAllocation(s, t, Table(s), Table(s), U64(s, |s| - 8), offset);
  }

  lemma RewrittenTail(s: seq<Byte>, r: Request)
    requires Accepts(s, r)
    ensures SameDirectory(s, Rewritten(s, r))
  {
    hide U64, AllocationOf, Block, Zeros;
    var allocation := AllocationOf(s, r.offset);
    var head := s[..r.offset] + Block(r, allocation);
    assert s[Table(s)..] == s[r.offset + allocation..][Table(s) - |head|..];
    TailOf(head, s[r.offset + allocation..], Table(s));
  }

  lemma TailOf(a: seq<Byte>, b: seq<Byte>, k: nat)
    requires |a| <= k <= |a + b|
    ensures (a + b)[k..] == b[k - |a|..]
  {
  }

  lemma SameDirectoryTrans(s: seq<Byte>, t: seq<Byte>, u: seq<Byte>)
    requires SameDirectory(s, t) && SameDirectory(t, u)
    ensures SameDirectory(s, u)
  {
    SameLookup(s, t, 0);
  }

  // A file that is rewritten keeps its directory, so where a block is never changes.
  lemma {:induction false} DirectoryKept(starpaks: seq<seq<Byte>>, rs: seq<Request>, n: nat, p: nat)
    requires n <= |rs| && Indexed(starpaks, rs) && AllRewritten(starpaks, rs, n).Some? && p < |starpaks|
    ensures var out := AllRewritten(starpaks, rs, n).value;
            out[p] == starpaks[p] || SameDirectory(starpaks[p], out[p])
    decreases n
  {
    hide Rewritten, SameDirectory, Accepts;
    if n > 0 {
      DirectoryKept(starpaks, rs, n - 1, p);
      var before, r := AllRewritten(starpaks, rs, n - 1).value, rs[n - 1];
      if r.index == p {
        RewrittenTail(before[p], r);
        if before[p] != starpaks[p] {
          SameDirectoryTrans(starpaks[p], before[p], Rewritten(before[p], r));
        }
      }
    }
  }

  lemma RewriteStep(starpaks: seq<seq<Byte>>, rs: seq<Request>, n: nat)
    requires 0 < n <= |rs| && Indexed(starpaks, rs) && AllRewritten(starpaks, rs, n).Some?
    ensures AllRewritten(starpaks, rs, n - 1).Some?
    ensures var before, r := AllRewritten(starpaks, rs, n - 1).value, rs[n - 1];
            && |before| == |starpaks| && r.index < |before| && Accepts(before[r.index], r)
            && AllRewritten(starpaks, rs, n).value == before[r.index := Rewritten(before[r.index], r)]
  {
    hide Accepts, Rewritten;
  }

  // A request that is carried out is one its file accepts as it was at first, but for the header.
  lemma LookupKept(starpaks: seq<seq<Byte>>, rs: seq<Request>, n: nat, k: nat)
    requires n <= k < |rs| && Indexed(starpaks, rs) && AllRewritten(starpaks, rs, n).Some?
    requires Accepts(AllRewritten(starpaks, rs, n).value[rs[k].index], rs[k])
    ensures var s, t := starpaks[rs[k].index], AllRewritten(starpaks, rs, n).value[rs[k].index];
            && |s| >= 16 && U64(s, |s| - 8) <= (|s| - 8) / 16
            && AllocationOf(s, rs[k].offset) == AllocationOf(t, rs[k].offset)
  {
    var s, t := starpaks[rs[k].index], AllRewritten(starpaks, rs, n).value[rs[k].index];
    DirectoryKept(starpaks, rs, n, rs[k].index);
    if s != t {
      SameLookup(s, t, rs[k].offset);
    }
  }

  // The block of request k as the first directory gives it.
  ghost predicate Listed(starpaks: seq<seq<Byte>>, r: Request, allocation: nat) {
    && r.index < |starpaks|
    && var s := starpaks[r.index];
       |s| >= 16 && U64(s, |s| - 8) <= (|s| - 8) / 16 && AllocationOf(s, r.offset) == allocation
       && r.offset + allocation <= Table(s) && |r.data| <= allocation
  }

  lemma LastListed(starpaks: seq<seq<Byte>>, rs: seq<Request>, k: nat) returns (allocation: nat)
    requires k < |rs| && Indexed(starpaks, rs) && AllRewritten(starpaks, rs, k).Some?
    requires Accepts(AllRewritten(starpaks, rs, k).value[rs[k].index], rs[k])
    ensures Listed(starpaks, rs[k], allocation)
  {
    hide AllocationOf, Allocation, U64, U32, AllRewritten;
    var t := AllRewritten(starpaks, rs, k).value[rs[k].index];
    LookupKept(starpaks, rs, k, k);
    allocation := AllocationOf(t, rs[k].offset);
    DirectoryKept(starpaks, rs, k, rs[k].index);
    if t != starpaks[rs[k].index] {
      SameLookup(starpaks[rs[k].index], t, rs[k].offset);
    }
  }

  lemma {:induction false} AllListed(starpaks: seq<seq<Byte>>, rs: seq<Request>, n: nat, k: nat) returns (allocation: nat)
    requires k < n <= |rs| && Indexed(starpaks, rs) && AllRewritten(starpaks, rs, n).Some?
    ensures Listed(starpaks, rs[k], allocation)
    decreases n
  {
    hide Accepts, AllRewritten, Rewritten, Listed;
    RewriteStep(starpaks, rs, n);
    if k < n - 1 {
      allocation := AllListed(starpaks, rs, n - 1, k);
    } else {
      allocation := LastListed(starpaks, rs, k);
    }
  }

  // Bytes that no rewritten block covers stay as they are.
  lemma {:induction false} OutsideKept(starpaks: seq<seq<Byte>>, rs: seq<Request>, n: nat, p: nat, at: nat, m: nat)
    requires n <= |rs| && Indexed(starpaks, rs) && AllRewritten(starpaks, rs, n).Some?
    requires p < |starpaks| && at + m <= |starpaks[p]|
    requires forall k, a: nat :: 0 <= k < n && rs[k].index == p && Listed(starpaks, rs[k], a) ==> at + m <= rs[k].offset || rs[k].offset + a <= at
    ensures AllRewritten(starpaks, rs, n).value[p][at..at + m] == starpaks[p][at..at + m]
    decreases n
  {
    hide Listed, Rewritten, Accepts, AllocationOf;
    if n > 0 {
      RewriteStep(starpaks, rs, n);
      OutsideKept(starpaks, rs, n - 1, p, at, m);
      var before, r := AllRewritten(starpaks, rs, n - 1).value, rs[n - 1];
      if r.index == p {
        var a := LastListed(starpaks, rs, n - 1);
        ListedSame(starpaks, rs, n - 1, a);
        hide AllRewritten;
        RewrittenOutside(before[p], r, a, at, m);
      }
    }
  }

  lemma ListedSame(starpaks: seq<seq<Byte>>, rs: seq<Request>, k: nat, allocation: nat)
    requires k < |rs| && Indexed(starpaks, rs) && AllRewritten(starpaks, rs, k).Some?
    requires Accepts(AllRewritten(starpaks, rs, k).value[rs[k].index], rs[k]) && Listed(starpaks, rs[k], allocation)
    ensures AllocationOf(AllRewritten(starpaks, rs, k).value[rs[k].index], rs[k].offset) == allocation
  {
    hide AllocationOf;
    LookupKept(starpaks, rs, k, k);
  }

  lemma HeadOf(s: seq<Byte>, k: nat, at: nat, m: nat)
    requires at + m <= k <= |s|
    ensures s[..k][at..at + m] == s[at..at + m]
  {
  }

  lemma RewrittenOutside(s: seq<Byte>, r: Request, allocation: nat, at: nat, m: nat)
    requires Accepts(s, r) && AllocationOf(s, r.offset) == allocation && at + m <= |s|
    requires at + m <= r.offset || r.offset + allocation <= at
    ensures Rewritten(s, r)[at..at + m] == s[at..at + m]
  {
    hide AllocationOf, Block, Sound;
    var head, tail := s[..r.offset] + Block(r, allocation), s[r.offset + allocation..];
    if at + m <= r.offset {
      assert (head + tail)[at..at + m] == head[at..at + m] == s[..r.offset][at..at + m];
      HeadOf(s, r.offset, at, m);
    } else {
      assert (head + tail)[at..at + m] == tail[at - |head|..at + m - |head|];
    }
  }

  // No later request's block touches request k's.
  ghost predicate Separate(starpaks: seq<seq<Byte>>, rs: seq<Request>, k: nat, allocation: nat)
    requires k < |rs|
  {
    forall j, a: nat :: k < j < |rs| && rs[j].index == rs[k].index && Listed(starpaks, rs[j], a) ==>
      rs[k].offset + allocation <= rs[j].offset || rs[j].offset + a <= rs[k].offset
  }

  lemma ListedFits(starpaks: seq<seq<Byte>>, r: Request, allocation: nat)
    requires Listed(starpaks, r, allocation)
    ensures r.index < |starpaks| && r.offset + allocation <= |starpaks[r.index]| && |r.data| <= allocation
  {
  }

  // Every requested block holds its data, then zeros to the end of its allocation.
  lemma {:induction false} BlockStands(starpaks: seq<seq<Byte>>, rs: seq<Request>, n: nat, k: nat, allocation: nat)
    requires k < n <= |rs| && Indexed(starpaks, rs) && AllRewritten(starpaks, rs, n).Some?
    requires Listed(starpaks, rs[k], allocation) && Separate(starpaks, rs, k, allocation)
    ensures rs[k].offset + allocation <= |starpaks[rs[k].index]|
    ensures AllRewritten(starpaks, rs, n).value[rs[k].index][rs[k].offset..rs[k].offset + allocation] == Block(rs[k], allocation)
    decreases n
  {
    hide Rewritten, Accepts, Block, AllocationOf, Allocation, U64, AllRewritten;
    ListedFits(starpaks, rs[k], allocation);
    hide Listed;
    RewriteStep(starpaks, rs, n);
    var before, r := AllRewritten(starpaks, rs, n - 1).value, rs[n - 1];
    if k == n - 1 {
      ListedSame(starpaks, rs, k, allocation);
      RewrittenInside(before[r.index], r, allocation);
    } else {
      BlockStands(starpaks, rs, n - 1, k, allocation);
      if r.index == rs[k].index {
        var a := LastListed(starpaks, rs, n - 1);
        ListedSame(starpaks, rs, n - 1, a);
        RewrittenOutside(before[r.index], r, a, rs[k].offset, allocation);
      }
    }
  }

  lemma RewrittenInside(s: seq<Byte>, r: Request, allocation: nat)
    requires Accepts(s, r) && AllocationOf(s, r.offset) == allocation
    ensures Rewritten(s, r)[r.offset..r.offset + allocation] == Block(r, allocation)
  {
    hide AllocationOf, Block, Sound;
  }

  // ---------- The code ----------

  method FindAllocation(s: seq<Byte>, offset: nat) returns (allocation: nat)
    requires |s| >= 16 && U64(s, |s| - 8) <= (|s| - 8) / 16
    ensures allocation == AllocationOf(s, offset)
  {
    hide U64;
    var entryCount := U64(s, |s| - 8);
    var table := |s| - 8 - entryCount * 16;
    allocation := 0;
    for i := 0 to entryCount
      invariant Allocation(s, table + 16 * i, entryCount - i, offset) == AllocationOf(s, offset)
    {
      var entry := table + i * 16;
      if U64(s, entry) == offset {
        allocation := U64(s, entry + 8);
        return;
      }
    }
  }

  method RewriteBlock(s: seq<Byte>, r: Request) returns (ok: bool, t: seq<Byte>)
    ensures ok <==> Accepts(s, r)
    ensures ok ==> t == Rewritten(s, r)
  {
    hide U64, U32, AllocationOf;
    t := s;
    if |s| < 16 || s[..4] != [83, 82, 80, 107] || U32(s, 4) != 1 {
      return false, s;
    }
    if U64(s, |s| - 8) > (|s| - 8) / 16 {
      return false, s;
    }
    var table := |s| - 8 - U64(s, |s| - 8) * 16;
    var allocation := FindAllocation(s, r.offset);
    if allocation == 0 || r.offset > table || allocation > table - r.offset || |r.data| > allocation {
      return false, s;
    }
    ok := true;
    t := s[..r.offset] + (r.data + Zeros(allocation - |r.data|)) + s[r.offset + allocation..];
  }

  method CollectRequests(starpaks: seq<seq<Byte>>, cs: seq<Conversion>) returns (r: Option<seq<Request>>)
    requires Formatted(cs)
    ensures r == Requested(starpaks, cs, |cs|)
  {
    hide Added, RequestOf;
    var requests: seq<Request> := [];
    for i := 0 to |cs|
      invariant Requested(starpaks, cs, i) == Some(requests)
    {
      if cs[i].head.streamed != 0 {
        var request := MakeRequest(starpaks, cs[i]);
        if request.None? || Added(requests, request.value).None? {
          StaysNone(starpaks, cs, i + 1, |cs|);
          return None;
        }
        requests := Added(requests, request.value).value;
      }
    }
    r := Some(requests);
  }

  lemma {:induction false} StaysNone(starpaks: seq<seq<Byte>>, cs: seq<Conversion>, n: nat, m: nat)
    requires n <= m <= |cs| && Formatted(cs) && Requested(starpaks, cs, n).None?
    ensures Requested(starpaks, cs, m).None?
    decreases m
  {
    hide Added, RequestOf;
    if n < m {
      StaysNone(starpaks, cs, n, m - 1);
    }
  }

  method MakeRequest(starpaks: seq<seq<Byte>>, c: Conversion) returns (r: Option<Request>)
    requires c.head.texture.width < 65536 && c.head.texture.height < 65536 && c.head.texture.format < FORMATS
    ensures r == RequestOf(starpaks, c)
  {
    hide Converted, Texture.SourceSize;
    if c.stream == NO_STREAM {
      return None;
    }
    var streamIndex, streamOffset := c.stream % 4096, c.stream / 4096 * 4096;
    if streamIndex >= |starpaks| || streamOffset >= |starpaks[streamIndex]| {
      return None;
    }
    var ok, converted, consumed := ConvertMipGroup(starpaks[streamIndex][streamOffset..], c.head.texture, 0, c.head.streamed);
    if !ok {
      return None;
    }
    r := Some(Request(streamIndex, streamOffset, converted));
  }

  lemma {:induction false} AddedFrom(rs: seq<Request>, r: Request, limit: nat)
    requires Added(rs, r).Some? && r.index < limit && forall x :: x in rs ==> x.index < limit
    ensures forall x :: x in Added(rs, r).value ==> x.index < limit
    decreases |rs|
  {
    if !(rs == [] || r.Precedes(rs[0])) && !r.SameBlock(rs[0]) {
      AddedFrom(rs[1..], r, limit);
    }
  }

  lemma {:induction false} RequestedIndexed(starpaks: seq<seq<Byte>>, cs: seq<Conversion>, n: nat)
    requires n <= |cs| && Formatted(cs) && Requested(starpaks, cs, n).Some?
    ensures forall x :: x in Requested(starpaks, cs, n).value ==> x.index < |starpaks|
    decreases n
  {
    hide Added, Converted, Texture.SourceSize;
    if n > 0 {
      RequestedIndexed(starpaks, cs, n - 1);
      if cs[n - 1].head.streamed != 0 {
        AddedFrom(Requested(starpaks, cs, n - 1).value, RequestOf(starpaks, cs[n - 1]).value, |starpaks|);
      }
    }
  }

  // The files after every conversion's streamed mips are tiled.
  function Restreamed(starpaks: seq<seq<Byte>>, cs: seq<Conversion>): Option<seq<seq<Byte>>>
    requires Formatted(cs)
  {
    match Requested(starpaks, cs, |cs|)
    case None => None
    case Some(rs) => RequestedIndexed(starpaks, cs, |cs|); AllRewritten(starpaks, rs, |rs|)
  }

  method Restream(starpaks: seq<seq<Byte>>, cs: seq<Conversion>) returns (r: Option<seq<seq<Byte>>>)
    requires Formatted(cs)
    ensures r == Restreamed(starpaks, cs)
  {
    hide Requested, Accepts, Rewritten;
    var requests := CollectRequests(starpaks, cs);
    if requests.None? {
      return None;
    }
    var rs := requests.value;
    RequestedIndexed(starpaks, cs, |cs|);
    r := Some(starpaks);
    for i := 0 to |rs|
      invariant r == AllRewritten(starpaks, rs, i) && r.Some?
    {
      var request := rs[i];
      var ok, t := RewriteBlock(r.value[request.index], request);
      if !ok {
        RewriteStaysNone(starpaks, rs, i + 1, |rs|);
        return None;
      }
      r := Some(r.value[request.index := t]);
    }
  }

  lemma {:induction false} RewriteStaysNone(starpaks: seq<seq<Byte>>, rs: seq<Request>, n: nat, m: nat)
    requires n <= m <= |rs| && Indexed(starpaks, rs) && AllRewritten(starpaks, rs, n).None?
    ensures AllRewritten(starpaks, rs, m).None?
    decreases m
  {
    hide Accepts, Rewritten;
    if n < m {
      RewriteStaysNone(starpaks, rs, n, m - 1);
    }
  }

  // ---------- The requests of the conversions ----------

  // In order of file and offset, no block asked for twice.
  ghost predicate InOrder(rs: seq<Request>) {
    forall i, j :: 0 <= i < j < |rs| ==> rs[i].Precedes(rs[j])
  }

  // One more request comes in its place, and the others stay.
  lemma {:induction false} AddedKeeps(rs: seq<Request>, r: Request)
    requires InOrder(rs) && Added(rs, r).Some?
    ensures InOrder(Added(rs, r).value) && r in Added(rs, r).value
    ensures forall x :: x in rs ==> x in Added(rs, r).value
    ensures forall x :: x in Added(rs, r).value ==> x == r || x in rs
    decreases |rs|
  {
    if rs != [] && !r.Precedes(rs[0]) {
      if r.SameBlock(rs[0]) {
        assert r == rs[0];
      } else {
        AddedKeeps(rs[1..], r);
        var rest := Added(rs[1..], r).value;
        forall i | 0 <= i < |rest| ensures rs[0].Precedes(rest[i]) {
          assert rest[i] in rest;
          assert rest[i] == r || rest[i] in rs[1..];
        }
        assert rs == [rs[0]] + rs[1..];
      }
    }
  }

  lemma {:induction false} RequestedInOrder(starpaks: seq<seq<Byte>>, cs: seq<Conversion>, n: nat)
    requires n <= |cs| && Formatted(cs) && Requested(starpaks, cs, n).Some?
    ensures InOrder(Requested(starpaks, cs, n).value)
    decreases n
  {
    hide Added, RequestOf, InOrder;
    if n == 0 {
      NoneInOrder();
    } else {
      RequestedInOrder(starpaks, cs, n - 1);
      if cs[n - 1].head.streamed != 0 {
        AddedKeeps(Requested(starpaks, cs, n - 1).value, RequestOf(starpaks, cs[n - 1]).value);
      }
    }
  }

  lemma NoneInOrder()
    ensures InOrder([])
  {
  }

  // Every conversion with streamed mips has its block among the requests.
  lemma {:induction false} EachRequested(starpaks: seq<seq<Byte>>, cs: seq<Conversion>, n: nat, j: nat)
    requires j < n <= |cs| && Formatted(cs) && Requested(starpaks, cs, n).Some? && cs[j].head.streamed != 0
    ensures RequestOf(starpaks, cs[j]).Some? && RequestOf(starpaks, cs[j]).value in Requested(starpaks, cs, n).value
    decreases n
  {
    hide Added, RequestOf, InOrder;
    RequestedInOrder(starpaks, cs, n - 1);
    if cs[n - 1].head.streamed != 0 {
      AddedKeeps(Requested(starpaks, cs, n - 1).value, RequestOf(starpaks, cs[n - 1]).value);
    }
    if j < n - 1 {
      EachRequested(starpaks, cs, n - 1, j);
    }
  }

  // No other requested block starts inside the one r asks for.
  ghost predicate BlockApart(starpaks: seq<seq<Byte>>, rs: seq<Request>, r: Request) {
    && r.index < |starpaks|
    && var s := starpaks[r.index];
       && |s| >= 16 && U64(s, |s| - 8) <= (|s| - 8) / 16
       && forall x :: x in rs && x.index == r.index && r.offset < x.offset ==> r.offset + AllocationOf(s, r.offset) <= x.offset
  }

  lemma LaterSeparate(starpaks: seq<seq<Byte>>, rs: seq<Request>, k: nat, allocation: nat)
    requires InOrder(rs) && k < |rs| && BlockApart(starpaks, rs, rs[k]) && Listed(starpaks, rs[k], allocation)
    ensures Separate(starpaks, rs, k, allocation)
  {
    hide AllocationOf, Listed, U64;
    AllocationIs(starpaks, rs[k], allocation);
    forall j | k < j < |rs| && rs[j].index == rs[k].index ensures rs[k].offset + allocation <= rs[j].offset {
      assert rs[k].Precedes(rs[j]) && rs[j] in rs;
    }
  }

  lemma AllocationIs(starpaks: seq<seq<Byte>>, r: Request, allocation: nat)
    requires Listed(starpaks, r, allocation)
    ensures r.index < |starpaks|
    ensures var s := starpaks[r.index];
            |s| >= 16 && U64(s, |s| - 8) <= (|s| - 8) / 16 && AllocationOf(s, r.offset) == allocation
  {
    hide AllocationOf, U64;
  }
}
