// The engine's LZSS streams: an encoder's output, and the decoder that refuses references outside the output.
module Lzss {
  import opened Bits
  import opened RpakBytes
  import opened Deflate

  // The header's identifier, "LZSS".
  const ID: nat := 0x5353_5a4c
  const HEADER: nat := 8

  datatype Item = Plain(value: Byte) | Reference(distance: nat, count: nat) | End {
    predicate Valid() {
      Reference? ==> 1 <= distance <= 4096 && 2 <= count <= 16
    }
  }

  // ---------- Encoding ----------

  // A reference takes 12 bits of distance and 4 of count, both less one; a count of one is the end.
  function ItemBytes(t: Item): (s: seq<Byte>)
    requires t.Valid()
  {
    match t
    case Plain(b) => [b]
    case Reference(distance, count) => [(distance - 1) / 16, (distance - 1) % 16 * 16 + (count - 1)]
    case End => [0, 0]
  }

  ghost predicate AllValid(ts: seq<Item>) {
    forall i :: 0 <= i < |ts| ==> ts[i].Valid()
  }

  function AllBytes(ts: seq<Item>): seq<Byte>
    requires AllValid(ts)
    decreases |ts|
  {
    if ts == [] then [] else ItemBytes(ts[0]) + AllBytes(ts[1..])
  }

  function Doubled(n: nat): (m: nat)
    ensures m >= 1
  {
    if n == 0 then 1 else 2 * Doubled(n - 1)
  }

  // The command byte of a group: a bit for each item, the first item's lowest.
  function Command(ts: seq<Item>): (c: nat)
    ensures c < Doubled(|ts|)
    decreases |ts|
  {
    if ts == [] then 0 else (if ts[0].Plain? then 0 else 1) + 2 * Command(ts[1..])
  }

  // Eight items to a command byte.
  function Groups(ts: seq<Item>): seq<Byte>
    requires AllValid(ts)
    decreases |ts|
  {
    if ts == [] then [] else
      var n := if |ts| < 8 then |ts| else 8;
      CommandFits(ts[..n]);
      [Command(ts[..n])] + AllBytes(ts[..n]) + Groups(ts[n..])
  }

  lemma CommandFits(ts: seq<Item>)
    requires |ts| <= 8
    ensures Command(ts) < 256
  {
    DoublingGrows(|ts|, 8);
    assert Doubled(8) == 256;
  }

  lemma {:induction false} DoublingGrows(a: nat, b: nat)
    requires a <= b
    ensures Doubled(a) <= Doubled(b)
    decreases b
  {
    if a < b {
      DoublingGrows(a, b - 1);
    }
  }

  // A whole stream: the header, then the tokens and an end marker.
  function Stream(id: nat, size: nat, ts: seq<Item>): seq<Byte>
    requires AllValid(ts)
  {
    LeBytes(id, 4) + LeBytes(size, 4) + Groups(ts + [End])
  }

  // ---------- What a token list stands for ----------

  // Every reference lies within what precedes it.
  ghost predicate Within(out: seq<Byte>, ts: seq<Item>)
    decreases |ts|
  {
    ts == [] || match ts[0]
                case Plain(b) => Within(out + [b], ts[1..])
                case Reference(distance, count) =>
                  1 <= distance <= |out| && Within(CopyBytes(out, distance, count), ts[1..])
                case End => false
  }

  ghost function Expansion(out: seq<Byte>, ts: seq<Item>): (r: seq<Byte>)
    requires Within(out, ts)
    ensures |r| >= |out|
    decreases |ts|
  {
    if ts == [] then out else
      match ts[0]
      case Plain(b) => Expansion(out + [b], ts[1..])
      case Reference(distance, count) => Expansion(CopyBytes(out, distance, count), ts[1..])
  }

  // ---------- Decoding ----------

  // Overran reads past the end of the stream, Overflowed writes past the end of the buffer.
  datatype Outcome = Ended(out: seq<Byte>) | Refused | Overran | Overflowed

  // The running total, an unsigned 32-bit sum.
  function Total(total: nat, count: nat): nat {
    (total + count) % WORD32
  }

  // From position p with `command` bits left to use: g of the group's eight items are done.
  function ItemAt(s: seq<Byte>, p: nat, g: nat, command: nat, out: seq<Byte>, limit: nat): Outcome
    requires g < 8 && p <= |s|
    decreases |s| - p, 0
  {
    if command % 2 == 1 then
      if p + 2 > |s| then Overran else
        var distance, count := s[p] as nat * 16 + s[p + 1] as nat / 16 + 1, s[p + 1] as nat % 16 + 1;
        if count == 1 then Ended(out)
        else if distance > |out| || Total(|out|, count) > limit then Refused
        else if |out| + count > limit then Overflowed
        else Next(s, p + 2, (g + 1) % 8, command / 2, CopyBytes(out, distance, count), limit)
    else if Total(|out|, 1) > limit then Refused
    else if |out| + 1 > limit then Overflowed
    else if p + 1 > |s| then Overran
    else Next(s, p + 1, (g + 1) % 8, command / 2, out + [s[p]], limit)
  }

  function Next(s: seq<Byte>, p: nat, g: nat, command: nat, out: seq<Byte>, limit: nat): Outcome
    requires g < 8 && p <= |s|
    decreases |s| - p, 1
  {
    if g > 0 then ItemAt(s, p, g, command, out, limit)
    else if p == |s| then Overran
    else ItemAt(s, p + 1, 0, s[p] as nat, out, limit)
  }

  // What the items should give: the output, or a refusal at the first that is out of bounds, unless the total hides it.
  ghost function Meaning(ts: seq<Item>, out: seq<Byte>, limit: nat): Outcome
    decreases |ts|
  {
    if ts == [] then Overran else
      match ts[0]
      case End => Ended(out)
      case Plain(b) =>
        if Total(|out|, 1) > limit then Refused
        else if |out| + 1 > limit then Overflowed
        else Meaning(ts[1..], out + [b], limit)
      case Reference(distance, count) =>
        if distance < 1 || distance > |out| || Total(|out|, count) > limit then Refused
        else if |out| + count > limit then Overflowed
        else Meaning(ts[1..], CopyBytes(out, distance, count), limit)
  }

  // ---------- Decoding what was encoded ----------

  // The items up to an end marker, and nothing after it.
  ghost predicate Closed(ts: seq<Item>) {
    AllValid(ts) && ts != [] && forall i :: 0 <= i < |ts| ==> (ts[i].End? <==> i == |ts| - 1)
  }

  ghost predicate HasAt(s: seq<Byte>, p: nat, t: seq<Byte>) {
    p + |t| <= |s| && s[p..p + |t|] == t
  }

  lemma HasAtSplit(s: seq<Byte>, p: nat, a: seq<Byte>, b: seq<Byte>)
    requires HasAt(s, p, a + b)
    ensures HasAt(s, p, a) && HasAt(s, p + |a|, b)
  {
    var t := a + b;
    assert s[p..p + |a|] == s[p..p + |t|][..|a|] == a;
    assert s[p + |a|..p + |t|] == s[p..p + |t|][|a|..] == b;
  }

  lemma AtHead(s: seq<Byte>, p: nat, a: seq<Byte>)
    requires HasAt(s, p, a)
    ensures forall i :: 0 <= i < |a| ==> s[p + i] == a[i]
  {
    forall i | 0 <= i < |a| ensures s[p + i] == a[i] {
      assert s[p..p + |a|][i] == a[i];
    }
  }

  // A reference's bytes read as it.
  lemma ReadsItem(t: Item)
    requires t.Valid() && !t.Plain?
    ensures |ItemBytes(t)| == 2
    ensures var a, b := ItemBytes(t)[0] as nat, ItemBytes(t)[1] as nat;
            if t.End? then b % 16 + 1 == 1 else a * 16 + b / 16 + 1 == t.distance && b % 16 + 1 == t.count
  {
  }

  // The rest of a group, then the groups after it.
  lemma {:induction false} GroupDecodes(s: seq<Byte>, p: nat, g: nat, ts: seq<Item>, n: nat, out: seq<Byte>, limit: nat)
    requires Closed(ts) && 1 <= n <= |ts| && g + n <= 8 && (g + n == 8 || n == |ts|)
    requires HasAt(s, p, AllBytes(ts[..n]) + Groups(ts[n..]))
    ensures ItemAt(s, p, g, Command(ts[..n]), out, limit) == Meaning(ts, out, limit)
    decreases |ts|, 0
  {
    hide Groups, AllBytes, Next, Meaning, ItemAt, Command, ItemBytes, HasAt;
    var t := ts[0];
    CommandSplit(ts, n);
    BytesSplit(ts, n);
    var rest := AllBytes(ts[1..n]) + Groups(ts[n..]);
    assert AllBytes(ts[..n]) + Groups(ts[n..]) == ItemBytes(t) + rest;
    HasAtSplit(s, p, ItemBytes(t), rest);
    if t.End? {
      EndDecodes(s, p, g, ts, n, out, limit);
    } else {
      var more := After(t, out, limit);
      if more.Ended? {
        RestDecodes(s, p + |ItemBytes(t)|, g, ts, n, more.out, limit);
      }
      ItemDecodes(s, p, g, ts, n, out, limit);
    }
  }

  // The output after one item that is not the end.
  ghost function After(t: Item, out: seq<Byte>, limit: nat): Outcome
    requires t.Valid() && !t.End?
  {
    match t
    case Plain(b) =>
      if Total(|out|, 1) > limit then Refused else if |out| + 1 > limit then Overflowed else Ended(out + [b])
    case Reference(distance, count) =>
      if distance > |out| || Total(|out|, count) > limit then Refused
      else if |out| + count > limit then Overflowed
      else Ended(CopyBytes(out, distance, count))
  }

  lemma CommandSplit(ts: seq<Item>, n: nat)
    requires 1 <= n <= |ts|
    ensures Command(ts[..n]) % 2 == (if ts[0].Plain? then 0 else 1) && Command(ts[..n]) / 2 == Command(ts[1..n])
  {
    assert ts[..n][1..] == ts[1..n];
  }

  lemma BytesSplit(ts: seq<Item>, n: nat)
    requires 1 <= n <= |ts| && AllValid(ts)
    ensures AllBytes(ts[..n]) == ItemBytes(ts[0]) + AllBytes(ts[1..n])
  {
    assert ts[..n][1..] == ts[1..n];
  }

  lemma EndDecodes(s: seq<Byte>, p: nat, g: nat, ts: seq<Item>, n: nat, out: seq<Byte>, limit: nat)
    requires Closed(ts) && ts[0].End? && 1 <= n <= |ts| && g < 8 && HasAt(s, p, ItemBytes(ts[0]))
    requires Command(ts[..n]) % 2 == 1
    ensures ItemAt(s, p, g, Command(ts[..n]), out, limit) == Meaning(ts, out, limit)
  {
    hide Command, Next;
    AtHead(s, p, ItemBytes(ts[0]));
    ReadsItem(ts[0]);
  }

  // One item, given what follows it.
  lemma ItemDecodes(s: seq<Byte>, p: nat, g: nat, ts: seq<Item>, n: nat, out: seq<Byte>, limit: nat)
    requires Closed(ts) && !ts[0].End? && 1 <= n <= |ts| && g < 8 && HasAt(s, p, ItemBytes(ts[0]))
    requires Command(ts[..n]) % 2 == if ts[0].Plain? then 0 else 1
    requires After(ts[0], out, limit).Ended? ==>
               Next(s, p + |ItemBytes(ts[0])|, (g + 1) % 8, Command(ts[..n]) / 2, After(ts[0], out, limit).out, limit) ==
               Meaning(ts[1..], After(ts[0], out, limit).out, limit)
    ensures ItemAt(s, p, g, Command(ts[..n]), out, limit) == Meaning(ts, out, limit)
  {
    hide Command, Next, CopyBytes;
    AtHead(s, p, ItemBytes(ts[0]));
    if ts[0].Reference? {
      ReadsItem(ts[0]);
      hide ItemBytes;
    }
  }

  lemma RestDecodes(s: seq<Byte>, p: nat, g: nat, ts: seq<Item>, n: nat, out: seq<Byte>, limit: nat)
    requires Closed(ts) && !ts[0].End? && 1 <= n <= |ts| && g + n <= 8 && (g + n == 8 || n == |ts|)
    requires HasAt(s, p, AllBytes(ts[1..n]) + Groups(ts[n..]))
    ensures p <= |s| && Next(s, p, (g + 1) % 8, Command(ts[1..n]), out, limit) == Meaning(ts[1..], out, limit)
    decreases |ts| - 1, 2
  {
    hide Groups, Meaning, ItemAt, Command;
    var rest := ts[1..];
    assert rest[..n - 1] == ts[1..n] && rest[n - 1..] == ts[n..];
    if n > 1 {
      GroupDecodes(s, p, g + 1, rest, n - 1, out, limit);
    } else {
      assert AllBytes(ts[1..1]) + Groups(ts[1..]) == Groups(rest);
      GroupStarts(s, p, rest, out, limit, Command(ts[1..n]));
    }
  }

  // A new group: its command byte comes first.
  lemma GroupStarts(s: seq<Byte>, p: nat, ts: seq<Item>, out: seq<Byte>, limit: nat, left: nat)
    requires Closed(ts) && HasAt(s, p, Groups(ts))
    ensures p < |s| && Next(s, p, 0, left, out, limit) == Meaning(ts, out, limit)
    decreases |ts|, 1
  {
    hide Meaning, ItemAt, AllBytes;
    var n := if |ts| < 8 then |ts| else 8;
    CommandFits(ts[..n]);
    var rest := AllBytes(ts[..n]) + Groups(ts[n..]);
    assert Groups(ts) == [Command(ts[..n])] + rest;
    hide Groups, Command;
    HasAtSplit(s, p, [Command(ts[..n])], rest);
    AtHead(s, p, [Command(ts[..n])]);
    GroupDecodes(s, p + 1, 0, ts, n, out, limit);
  }

  // A total within the buffer is exact; one that hides an overflow needs a buffer within sixteen bytes of 2^32.
  lemma TotalIs(total: nat, count: nat, limit: nat)
    requires total <= limit < WORD32 && 1 <= count <= 16
    ensures total + count <= limit ==> Total(total, count) == total + count
    ensures Total(total, count) <= limit < total + count ==> limit + 16 >= WORD32
  {
  }

  // What the items give, in terms of the expansion alone.
  lemma {:induction false} MeaningIs(ts: seq<Item>, out: seq<Byte>, limit: nat)
    requires AllValid(ts) && forall i :: 0 <= i < |ts| ==> !ts[i].End?
    requires |out| <= limit < WORD32
    ensures var r := Meaning(ts + [End], out, limit);
            && (r.Ended? <==> Within(out, ts) && |Expansion(out, ts)| <= limit)
            && (r.Ended? ==> r.out == Expansion(out, ts))
            && (!r.Ended? ==> r.Refused? || (r.Overflowed? && limit + 16 >= WORD32))
    decreases |ts|
  {
    if ts != [] {
      assert (ts + [End])[1..] == ts[1..] + [End] && (ts + [End])[0] == ts[0];
      hide CopyBytes, Total;
      match ts[0]
      case Plain(b) =>
        TotalIs(|out|, 1, limit);
        if |out| + 1 <= limit {
          MeaningIs(ts[1..], out + [b], limit);
        }
      case Reference(distance, count) =>
        TotalIs(|out|, count, limit);
        if distance <= |out| && |out| + count <= limit {
          MeaningIs(ts[1..], CopyBytes(out, distance, count), limit);
        }
    }
  }

  // ---------- The whole decoder ----------

  // The size it returns; nothing is said of streams that run past their end.
  ghost function Uncompressed(s: seq<Byte>, limit: nat): (r: Outcome)
    requires |s| >= HEADER
  {
    var size := U32(s, 4);
    if size == 0 || U32(s, 0) != ID || size > limit then Refused else
      match Next(s, HEADER, 0, 0, [], limit)
      case Ended(out) => if |out| == size then Ended(out) else Refused
      case o => o
  }

  // An encoded token list gives its expansion exactly when every reference is within the output, the header names
  // the format and the expansion's size, and that is not zero and fits the buffer. Otherwise it is refused, but for a
  // buffer so large that the running total can hide an overflow.
  lemma DecodesExactly(id: nat, size: nat, ts: seq<Item>, trailing: seq<Byte>, limit: nat)
    requires AllValid(ts) && (forall i :: 0 <= i < |ts| ==> !ts[i].End?) && id < WORD32 && size < WORD32
    requires limit < WORD32
    ensures |Stream(id, size, ts) + trailing| >= HEADER
    ensures var r := Uncompressed(Stream(id, size, ts) + trailing, limit);
            && (r.Ended? <==> id == ID && 0 < size <= limit && Within([], ts) && |Expansion([], ts)| == size)
            && (r.Ended? ==> r.out == Expansion([], ts))
            && (!r.Ended? ==> r.Refused? || (r.Overflowed? && limit + 16 >= WORD32))
  {
    hide Groups, Next, Expansion, Within, LeBytes;
    StreamMeans(id, size, ts, trailing, limit);
    MeaningIs(ts, [], limit);
  }

  lemma StreamMeans(id: nat, size: nat, ts: seq<Item>, trailing: seq<Byte>, limit: nat)
    requires AllValid(ts) && (forall i :: 0 <= i < |ts| ==> !ts[i].End?) && id < WORD32 && size < WORD32
    ensures var s := Stream(id, size, ts) + trailing;
            && |s| >= HEADER && U32(s, 0) == id && U32(s, 4) == size
            && Next(s, HEADER, 0, 0, [], limit) == Meaning(ts + [End], [], limit)
  {
    var s := Stream(id, size, ts) + trailing;
    HeaderReads(id, size, Groups(ts + [End]) + trailing);
    assert s == LeBytes(id, 4) + LeBytes(size, 4) + (Groups(ts + [End]) + trailing);
    hide Groups, Next, Meaning, LeBytes;
    assert HasAt(s, HEADER, Groups(ts + [End]));
    GroupStarts(s, HEADER, ts + [End], [], limit, 0);
  }

  lemma HeaderReads(id: nat, size: nat, rest: seq<Byte>)
    requires id < WORD32 && size < WORD32
    ensures var s := LeBytes(id, 4) + LeBytes(size, 4) + rest; |s| >= HEADER && U32(s, 0) == id && U32(s, 4) == size
  {
    var a, b := LeBytes(id, 4), LeBytes(size, 4);
    var s := a + b + rest;
    Limit4();
    LeOfBytes(id, 4);
    LeOfBytes(size, 4);
    hide LeBytes;
    assert s[0..4] == a[0..4] && s[4..8] == b[0..4];
    LeSame(s, 0, a, 0, 4);
    LeSame(s, 4, b, 0, 4);
  }

  // ---------- Which buffers are safe ----------

  // No item of any stream is written past the end of the buffer when that leaves room for one more item below 2^32.
  lemma {:induction false} NeverOverflows(s: seq<Byte>, p: nat, g: nat, command: nat, out: seq<Byte>, limit: nat)
    requires g < 8 && p <= |s| && |out| <= limit && limit + 16 < WORD32
    ensures !ItemAt(s, p, g, command, out, limit).Overflowed?
    decreases |s| - p, 0
  {
    hide CopyBytes, Total, Next;
    if command % 2 == 1 {
      if p + 2 <= |s| {
        var distance, count := s[p] as nat * 16 + s[p + 1] as nat / 16 + 1, s[p + 1] as nat % 16 + 1;
        TotalIs(|out|, count, limit);
        if distance <= |out| && |out| + count <= limit {
          NextNeverOverflows(s, p + 2, (g + 1) % 8, command / 2, CopyBytes(out, distance, count), limit);
        }
      }
    } else {
      TotalIs(|out|, 1, limit);
      if p + 1 <= |s| && |out| + 1 <= limit {
        NextNeverOverflows(s, p + 1, (g + 1) % 8, command / 2, out + [s[p]], limit);
      }
    }
  }

  lemma {:induction false} NextNeverOverflows(s: seq<Byte>, p: nat, g: nat, command: nat, out: seq<Byte>, limit: nat)
    requires g < 8 && p <= |s| && |out| <= limit && limit + 16 < WORD32
    ensures !Next(s, p, g, command, out, limit).Overflowed?
    decreases |s| - p, 1
  {
    hide ItemAt;
    if g > 0 {
      NeverOverflows(s, p, g, command, out, limit);
    } else if p < |s| {
      NeverOverflows(s, p + 1, 0, s[p] as nat, out, limit);
    }
  }

  function Literals(b: Byte, n: nat): (ts: seq<Item>)
    ensures |ts| == n && forall i :: 0 <= i < n ==> ts[i] == Plain(b)
  {
    seq(n, _ => Plain(b))
  }

  // Literals that fill the buffer, then a reference whose sixteen bytes take the total past 2^32.
  lemma {:induction false} LiteralsMean(b: Byte, n: nat, rest: seq<Item>, out: seq<Byte>, limit: nat)
    requires |out| + n <= limit < WORD32
    ensures Meaning(Literals(b, n) + rest, out, limit) == Meaning(rest, out + seq(n, _ => b), limit)
    decreases n
  {
    hide CopyBytes;
    if n == 0 {
      assert Literals(b, 0) + rest == rest && out + seq(0, _ => b) == out;
    } else {
      var ts := Literals(b, n) + rest;
      TotalIs(|out|, 1, limit);
      assert ts[0] == Plain(b) && ts[1..] == Literals(b, n - 1) + rest;
      LiteralsMean(b, n - 1, rest, out + [b], limit);
      assert out + [b] + seq(n - 1, _ => b) == out + seq(n, _ => b);
    }
  }

  // The stream of that many literals and one reference is taken past the end of the buffer.
  lemma FullBufferOverflows(b: Byte, size: nat, trailing: seq<Byte>, limit: nat)
    requires 0 < size <= limit < WORD32 <= limit + 16
    ensures |Stream(ID, size, Literals(b, limit) + [Reference(1, 16)]) + trailing| >= HEADER
    ensures Uncompressed(Stream(ID, size, Literals(b, limit) + [Reference(1, 16)]) + trailing, limit).Overflowed?
  {
    var last := Reference(1, 16);
    var ts := Literals(b, limit) + [last];
    StreamMeans(ID, size, ts, trailing, limit);
    hide Stream, Next, CopyBytes;
    LiteralsMean(b, limit, [last, End], [], limit);
    assert ts + [End] == Literals(b, limit) + [last, End];
  }

  // No stream is written past the end of the buffer exactly when the buffer's size is below 2^32 - 16.
  lemma SafeExactly(limit: nat)
    requires limit < WORD32
    ensures (forall s: seq<Byte> :: |s| >= HEADER ==> !Uncompressed(s, limit).Overflowed?) <==> limit + 16 < WORD32
  {
    hide Next, Stream, Meaning;
    if limit + 16 < WORD32 {
      forall s: seq<Byte> | |s| >= HEADER ensures !Uncompressed(s, limit).Overflowed? {
        NextNeverOverflows(s, HEADER, 0, 0, [], limit);
      }
    } else {
      FullBufferOverflows(0, 1, [], limit);
    }
  }

  // ---------- The code ----------

  // What the loop has done: `out` is written, and going on from here gives the whole answer.
  ghost predicate Decoding(s: seq<Byte>, p: nat, g: nat, command: nat, out: seq<Byte>, bufferSize: nat) {
    && HEADER <= |s| && p <= |s| && g < 8 && |out| <= bufferSize
    && Next(s, p, g, command, out, bufferSize) == Next(s, HEADER, 0, 0, [], bufferSize)
  }

  method SafeUncompress(input: seq<Byte>, output: array<Byte>, bufferSize: nat) returns (n: nat)
    requires |input| >= HEADER && bufferSize <= output.Length && bufferSize < WORD32
    requires !Uncompressed(input, bufferSize).Overran? && !Uncompressed(input, bufferSize).Overflowed?
    modifies output
    ensures match Uncompressed(input, bufferSize)
            case Ended(out) => n == |out| <= bufferSize && output[..n] == out
            case _ => n == 0
    ensures output[bufferSize..] == old(output[bufferSize..])
  {
    hide CopyBytes, Next, ItemAt;
    var actualSize := U32(input, 4);
    if actualSize == 0 || U32(input, 0) != ID || actualSize > bufferSize {
      return 0;
    }
    var p: nat, getCmdByte: nat, cmdByte: nat := HEADER, 0, 0;
    var totalBytes: nat := 0;
    var ended := false;
    while !ended
      invariant totalBytes <= bufferSize && output[bufferSize..] == old(output[bufferSize..])
      invariant p <= |input|
      invariant !ended ==> Decoding(input, p, getCmdByte, cmdByte, output[..totalBytes], bufferSize)
      invariant ended ==> Next(input, HEADER, 0, 0, [], bufferSize) == Ended(output[..totalBytes])
      decreases if ended then 0 else |input| - p + 1
    {
      var o := StepAt(input, p, getCmdByte, cmdByte, output, totalBytes, bufferSize);
      match o {
        case Stop => ended := true;
        case Fail => return 0;
        case Go(p', c', total') =>
          p, cmdByte, totalBytes := p', c', total';
          getCmdByte := (getCmdByte + 1) % 8;
      }
    }
    n := if totalBytes == actualSize then totalBytes else 0;
  }

  datatype Progress = Go(p: nat, command: nat, total: nat) | Stop | Fail

  lemma Fetches(s: seq<Byte>, p: nat, g: nat, command: nat, out: seq<Byte>, limit: nat)
    requires p <= |s| && g < 8 && !Next(s, p, g, command, out, limit).Overran?
    ensures g == 0 ==> p < |s| && Next(s, p, g, command, out, limit) == ItemAt(s, p + 1, 0, s[p] as nat, out, limit)
    ensures g > 0 ==> Next(s, p, g, command, out, limit) == ItemAt(s, p, g, command, out, limit)
  {
  }

  lemma Reads(s: seq<Byte>, p: nat, g: nat, command: nat, out: seq<Byte>, limit: nat)
    requires p <= |s| && g < 8 && !ItemAt(s, p, g, command, out, limit).Overran? && !ItemAt(s, p, g, command, out, limit).Overflowed?
    ensures var o := ItemAt(s, p, g, command, out, limit);
            if command % 2 == 1 then
              && p + 2 <= |s|
              && var distance, count := s[p] as nat * 16 + s[p + 1] as nat / 16 + 1, s[p + 1] as nat % 16 + 1;
                 if count == 1 then o == Ended(out)
                 else if distance > |out| || Total(|out|, count) > limit then o == Refused
                 else |out| + count <= limit && o == Next(s, p + 2, (g + 1) % 8, command / 2, CopyBytes(out, distance, count), limit)
            else if Total(|out|, 1) > limit then o == Refused
            else p < |s| && |out| + 1 <= limit && o == Next(s, p + 1, (g + 1) % 8, command / 2, out + [s[p]], limit)
  {
    hide Next, CopyBytes;
  }

  method StepAt(input: seq<Byte>, p: nat, g: nat, command: nat, output: array<Byte>, totalBytes: nat, bufferSize: nat)
    returns (o: Progress)
    requires HEADER <= |input| && bufferSize <= output.Length && bufferSize < WORD32 && totalBytes <= bufferSize
    requires Decoding(input, p, g, command, output[..totalBytes], bufferSize)
    requires !Next(input, HEADER, 0, 0, [], bufferSize).Overran? && !Next(input, HEADER, 0, 0, [], bufferSize).Overflowed?
    modifies output
    ensures output[bufferSize..] == old(output[bufferSize..])
    ensures match o
            case Go(p', c', total') =>
              p < p' && total' <= bufferSize && Decoding(input, p', (g + 1) % 8, c', output[..total'], bufferSize)
            case Stop => output[..totalBytes] == old(output[..totalBytes]) && Next(input, HEADER, 0, 0, [], bufferSize) == Ended(output[..totalBytes])
            case Fail => Next(input, HEADER, 0, 0, [], bufferSize) == Refused
  {
    hide CopyBytes, Next, ItemAt;
    var at, c := p, command;
    Fetches(input, p, g, command, output[..totalBytes], bufferSize);
    if g == 0 {
      c := input[at] as nat;
      at := at + 1;
    }
    ghost var whole := Next(input, HEADER, 0, 0, [], bufferSize);
    Reads(input, at, g, c, output[..totalBytes], bufferSize);
    if c % 2 == 1 {
      o := ReferenceAt(input, at, g, c / 2, output, totalBytes, bufferSize, whole);
    } else {
      o := LiteralAt(input, at, g, c / 2, output, totalBytes, bufferSize, whole);
    }
  }

  // Where the step leads, given what the whole stream decodes to.
  ghost predicate Leads(o: Progress, input: seq<Byte>, g: nat, out: seq<Byte>, bufferSize: nat, whole: Outcome)
    requires g < 8
  {
    match o
    case Go(p, command, total) =>
      p <= |input| && total == |out| <= bufferSize && whole == Next(input, p, (g + 1) % 8, command, out, bufferSize)
    case Stop => whole == Ended(out)
    case Fail => whole == Refused
  }

  method ReferenceAt(input: seq<Byte>, at: nat, g: nat, command: nat, output: array<Byte>, totalBytes: nat,
                     bufferSize: nat, ghost whole: Outcome) returns (o: Progress)
    requires at + 2 <= |input| && g < 8 && totalBytes <= bufferSize <= output.Length && bufferSize < WORD32
    requires var distance, count := input[at] as nat * 16 + input[at + 1] as nat / 16 + 1, input[at + 1] as nat % 16 + 1;
             if count == 1 then whole == Ended(output[..totalBytes])
             else if distance > totalBytes || Total(totalBytes, count) > bufferSize then whole == Refused
             else totalBytes + count <= bufferSize && whole ==
                    Next(input, at + 2, (g + 1) % 8, command, CopyBytes(output[..totalBytes], distance, count), bufferSize)
    modifies output
    ensures output[bufferSize..] == old(output[bufferSize..])
    ensures o.Go? ==> o.total <= bufferSize && o.p == at + 2 && Leads(o, input, g, output[..o.total], bufferSize, whole)
    ensures !o.Go? ==> output[..totalBytes] == old(output[..totalBytes]) && Leads(o, input, g, output[..totalBytes], bufferSize, whole)
  {
    hide CopyBytes, Next;
    var position := input[at] as nat * 16 + input[at + 1] as nat / 16 + 1;
    var count := input[at + 1] as nat % 16 + 1;
    if count == 1 {
      return Stop;
    }
    if position > totalBytes {
      return Fail;
    }
    var total := Total(totalBytes, count);
    if total > bufferSize {
      return Fail;
    }
    CopyWithin(output, totalBytes, position, count, bufferSize);
    o := Go(at + 2, command, total);
  }

  method LiteralAt(input: seq<Byte>, at: nat, g: nat, command: nat, output: array<Byte>, totalBytes: nat,
                   bufferSize: nat, ghost whole: Outcome) returns (o: Progress)
    requires at <= |input| && g < 8 && totalBytes <= bufferSize <= output.Length && bufferSize < WORD32
    requires Total(totalBytes, 1) > bufferSize ==> whole == Refused
    requires Total(totalBytes, 1) <= bufferSize ==>
               at < |input| && totalBytes + 1 <= bufferSize && whole == Next(input, at + 1, (g + 1) % 8, command, output[..totalBytes] + [input[at]], bufferSize)
    modifies output
    ensures output[bufferSize..] == old(output[bufferSize..])
    ensures o.Go? ==> o.total <= bufferSize && o.p == at + 1 && Leads(o, input, g, output[..o.total], bufferSize, whole)
    ensures !o.Go? ==> o.Fail? && output[..totalBytes] == old(output[..totalBytes]) && Leads(o, input, g, output[..totalBytes], bufferSize, whole)
  {
    hide Next;
    var total := Total(totalBytes, 1);
    if total > bufferSize {
      return Fail;
    }
    ghost var before := output[..totalBytes];
    output[totalBytes] := input[at];
    assert output[..total] == before + [input[at]];
    o := Go(at + 1, command, total);
  }

  // Copies byte by byte, so that a copy may run into what it writes.
  method CopyWithin(output: array<Byte>, at: nat, distance: nat, count: nat, bufferSize: nat)
    requires 1 <= distance <= at && at + count <= bufferSize <= output.Length
    modifies output
    ensures output[..at + count] == CopyBytes(old(output[..at]), distance, count)
    ensures output[bufferSize..] == old(output[bufferSize..])
  {
    for i := 0 to count
      invariant output[..at + i] == CopyBytes(old(output[..at]), distance, i)
      invariant output[bufferSize..] == old(output[bufferSize..])
    {
      ghost var done := output[..at + i];
      output[at + i] := output[at + i - distance];
      assert output[..at + i + 1] == done + [done[|done| - distance]];
    }
  }
}
