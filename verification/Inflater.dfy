// The streaming decoder: a bit reader over a source, Huffman tables, a ring window and a chunked sink.
module Inflater {
  import opened Options
  import opened Bits
  import opened Canonical
  import opened Crc32
  import opened Deflate
  import opened DeflateExact

  const CHUNK: nat := 65536

  // Where compressed bytes come from: `bytes` is all the source will ever yield.
  class Source {
    const bytes: seq<Byte>
    var next: nat

    constructor (bytes: seq<Byte>)
      ensures this.bytes == bytes && next == 0
    {
      this.bytes := bytes;
      next := 0;
    }

    // The next byte, or -1 at the end.
    method Next() returns (b: int)
      requires next <= |bytes|
      modifies this
      ensures next <= |bytes|
      ensures if old(next) == |bytes| then b == -1 && next == old(next)
              else next == old(next) + 1 && b == bytes[old(next)]
    {
      if next == |bytes| {
        return -1;
      }
      b := bytes[next];
      next := next + 1;
    }
  }

  // Where output goes: the i-th write is accepted when accepts(i).
  class Sink {
    const accepts: nat -> bool
    var writes: nat
    var data: seq<Byte>
    ghost var refused: bool

    constructor (accepts: nat -> bool)
      ensures this.accepts == accepts && writes == 0 && data == [] && !refused
    {
      this.accepts := accepts;
      writes, data, refused := 0, [], false;
    }

    // All writes were accepted, but for the last if it was refused.
    ghost predicate Tallied()
      reads this
    {
      && (refused ==> writes > 0 && !accepts(writes - 1))
      && forall i: nat :: i < (if refused then writes - 1 else writes) ==> accepts(i)
    }

    method Write(chunk: seq<Byte>) returns (ok: bool)
      modifies this
      ensures ok == accepts(old(writes)) && writes == old(writes) + 1
      ensures data == if ok then old(data) + chunk else old(data)
      ensures refused == (old(refused) || !ok)
      ensures old(Tallied()) && !old(refused) ==> Tallied()
    {
      ok := accepts(writes);
      writes := writes + 1;
      if ok {
        data := data + chunk;
      } else {
        refused := true;
      }
    }
  }

  // A slot of the ring holds the latest output byte whose position falls on it.
  ghost predicate RingHolds(window: seq<Byte>, out: seq<Byte>) {
    && |window| == WINDOW
    && forall k :: 0 <= k < |out| && |out| - WINDOW <= k ==> window[k % WINDOW] == out[k]
  }

  lemma RingPut(window: seq<Byte>, out: seq<Byte>, b: Byte)
    requires RingHolds(window, out)
    ensures RingHolds(window[|out| % WINDOW := b], out + [b])
  {
    var n := |out|;
    forall k | 0 <= k < n && n + 1 - WINDOW <= k
      ensures k % WINDOW != n % WINDOW
    {
    }
  }

  lemma AndWindow(x: nat)
    ensures And(x, WINDOW - 1) == x % WINDOW
  {
    hide And;
    Pow2Constants();
    AndMaskMod(x, 15);
  }

  // The byte `distance` back, as the code finds it with wrapping 32-bit arithmetic.
  lemma RingBack(window: seq<Byte>, out: seq<Byte>, distance: nat)
    requires RingHolds(window, out) && 1 <= distance <= |out| && distance <= WINDOW
    ensures var wrapped := (|out| % WINDOW - distance) % 0x1_0000_0000;
            And(wrapped, WINDOW - 1) < WINDOW && window[And(wrapped, WINDOW - 1)] == out[|out| - distance]
  {
    hide And;
    var pos := |out| % WINDOW;
    var wrapped := (pos - distance) % 0x1_0000_0000;
    AndWindow(wrapped);
    assert wrapped == if pos >= distance then pos - distance else pos - distance + 0x1_0000_0000;
    assert wrapped % WINDOW == (|out| - distance) % WINDOW;
  }

  // Loading byte n behind the bits from p on.
  lemma AppendByte(bytes: seq<Byte>, p: nat, n: nat)
    requires p <= 8 * n && n < |bytes|
    ensures Or(LsbVal(ToBits(bytes)[p..8 * n]), ShiftLeft(bytes[n], 8 * n - p)) == LsbVal(ToBits(bytes)[p..8 * n + 8])
  {
    hide LsbVal, Or, ShiftLeft, ToBits;
    var bits := ToBits(bytes);
    var low, high := bits[p..8 * n], bits[8 * n..8 * n + 8];
    assert bits[p..8 * n + 8] == low + high;
    LsbValConcat(low, high);
    ToBitsAt(bytes, n);
    OrDisjoint(LsbVal(low), bytes[n], 8 * n - p);
  }

  // Masking and shifting a buffer of the bits from p to e.
  lemma TakeLow(bits: seq<bool>, p: nat, e: nat, n: nat)
    requires p + n <= e <= |bits|
    ensures LowBits(LsbVal(bits[p..e]), n) == LsbVal(bits[p..p + n])
    ensures ShiftRight(LsbVal(bits[p..e]), n) == LsbVal(bits[p + n..e])
  {
    hide LsbVal, LowBits, ShiftRight;
    var low, high := bits[p..p + n], bits[p + n..e];
    assert bits[p..e] == low + high;
    LsbValConcat(low, high);
    CutAt(LsbVal(low), LsbVal(high), n);
  }

  // Reading one more bit of a code.
  lemma BitJoins(bits: seq<bool>, p: nat, n: nat)
    requires p + n < |bits|
    ensures Or(2 * Prefix(bits, p, n), LsbVal(bits[p + n..p + n + 1])) == Prefix(bits, p, n + 1)
    ensures Prefix(bits, p, n + 1) >= 2 * Prefix(bits, p, n)
  {
    PrefixPush(bits, p, n);
    var v, b := Prefix(bits, p, n), LsbVal(bits[p + n..p + n + 1]);
    assert b == Bit(bits[p + n]);
    OrZero(v);
    assert 2 * v / 2 == v && b / 2 == 0;
  }

  lemma FirstLength(ls: seq<nat>, bits: seq<bool>, p: nat)
    requires p <= |bits|
    ensures First(ls, 1) == 0 && Offset(ls, 1) == 0 && Prefix(bits, p, 0) == 0 && NoneUpTo(ls, bits, p, 0)
  {
  }

  lemma NextLength(ls: seq<nat>, bits: seq<bool>, p: nat, l: nat)
    requires l >= 1 && p + l <= |bits| && NoneUpTo(ls, bits, p, l - 1)
    requires Prefix(bits, p, l) >= First(ls, l) + Count(ls, l)
    ensures First(ls, l + 1) == 2 * (First(ls, l) + Count(ls, l)) && Offset(ls, l + 1) == Offset(ls, l) + Count(ls, l)
    ensures NoneUpTo(ls, bits, p, l)
  {
    hide Prefix, Count;
  }

  // Extra-bit counts stay within what one read may ask for, and no distance reaches past the window.
  lemma TableEntries(s: nat)
    requires s < 29
    ensures |LENGTH_EXTRA| == |LENGTH_BASE| == 29 && LENGTH_EXTRA[s] <= 5
  {
  }

  lemma DistEntries(d: nat)
    requires d < 30
    ensures |DIST_EXTRA| == |DIST_BASE| == 30
    ensures DIST_EXTRA[d] <= 13 && DIST_BASE[d] >= 1 && DIST_BASE[d] + Pow2(DIST_EXTRA[d]) <= WINDOW + 1
  {
    Pow2Constants();
    assert Pow2(6) == 64 && Pow2(9) == 512 && Pow2(10) == 1024 && Pow2(11) == 2048 && Pow2(12) == 4096;
  }

  lemma OrderInverse()
    ensures |ORDER| == |ORDER_INDEX| == 19
    ensures forall i :: 0 <= i < 19 ==> ORDER[i] < 19 && ORDER_INDEX[ORDER[i]] == i
    ensures forall s :: 0 <= s < 19 ==> ORDER_INDEX[s] < 19 && ORDER[ORDER_INDEX[s]] == s
  {
  }

  lemma OneBit(bits: seq<bool>, p: int)
    ensures 0 <= p < |bits| ==> LsbVal(bits[p..p + 1]) == Bit(bits[p])
  {
  }

  lemma {:induction false} CopyPrefix(out: seq<Byte>, distance: nat, m: nat, n: nat)
    requires 1 <= distance <= |out| && m <= n
    ensures CopyBytes(out, distance, m) <= CopyBytes(out, distance, n)
    decreases n
  {
    if m < n {
      CopyPrefix(out, distance, m, n - 1);
    }
  }

  class Inflater {
    const source: Source
    const sink: Sink
    var bitBuffer: nat
    var bitCount: nat
    var failed: bool
    var fixedReady: bool
    const fixedLiterals: Huffman
    const fixedDistances: Huffman
    const window: array<Byte>
    var windowPos: nat
    const chunk: array<Byte>
    var chunkUsed: nat
    var total: nat
    var crc: Word
    const table: Table
    // All output so far, sent or not.
    ghost var out: seq<Byte>

    ghost function AllBits(): seq<bool> {
      ToBits(source.bytes)
    }

    // The position of the first unread bit.
    ghost function Pos(): int
      reads this`bitCount, source
    {
      8 * source.next - bitCount
    }

    // The buffer holds the bits read from the source but not yet used.
    ghost predicate InputValid()
      reads this`bitBuffer, this`bitCount, this`failed, source
    {
      && source.next <= |source.bytes|
      && (!failed ==>
            && bitCount < 8 && bitCount <= 8 * source.next
            && bitBuffer == LsbVal(AllBits()[Pos()..8 * source.next]))
    }

    ghost predicate OutputValid()
      reads this`windowPos, this`chunkUsed, this`total, this`crc, this`out, sink, window, chunk, table, table.entries
    {
      && table.Valid()
      && window.Length == WINDOW && chunk.Length == CHUNK && window != chunk
      && total == |out| && windowPos == |out| % WINDOW && RingHolds(window[..], out)
      && chunkUsed <= CHUNK
      && sink.Tallied()
      && sink.data <= out
      && (!sink.refused ==> sink.data + chunk[..chunkUsed] == out && crc == Crc(0, sink.data))
      && (sink.refused ==> |sink.data| == CHUNK * (sink.writes - 1) < |out|)
    }

    // Between operations every write was of a whole chunk and the next has room for another byte.
    ghost predicate CanPut()
      reads this`windowPos, this`chunkUsed, this`total, this`crc, this`out, sink, window, chunk, table, table.entries
    {
      OutputValid() && chunkUsed < CHUNK && !sink.refused && |sink.data| == CHUNK * sink.writes
    }

    // A whole chunk was refused.
    ghost predicate Refused()
      reads this`windowPos, this`chunkUsed, this`total, this`crc, this`out, sink, window, chunk, table, table.entries
    {
      OutputValid() && sink.refused && CHUNK * sink.writes <= |out|
    }

    ghost predicate FixedValid()
      reads this`fixedReady, fixedLiterals.counts, fixedLiterals.symbols, fixedDistances.counts, fixedDistances.symbols
    {
      && fixedLiterals.Shape() && fixedDistances.Shape()
      && fixedLiterals.counts != fixedDistances.counts && fixedLiterals.counts != fixedDistances.symbols
      && fixedLiterals.symbols != fixedDistances.counts && fixedLiterals.symbols != fixedDistances.symbols
      && (fixedReady ==> fixedLiterals.Holds(FixedLiterals()) && fixedDistances.Holds(FixedDistances()))
    }

    constructor (source: Source, sink: Sink, table: Table)
      requires source.next == 0 && sink.data == [] && sink.writes == 0 && !sink.refused && table.Valid()
      ensures this.source == source && this.sink == sink && this.table == table
      ensures InputValid() && CanPut() && FixedValid()
      ensures Pos() == 0 && !failed && out == []
      ensures fresh(window) && fresh(chunk) && fresh(fixedLiterals.counts) && fresh(fixedLiterals.symbols)
      ensures fresh(fixedDistances.counts) && fresh(fixedDistances.symbols)
    {
      hide Crc, FixedLiterals, FixedDistances, ToBits, LsbVal, Steps, Huffman.Holds, Register, Not;
      this.source, this.sink, this.table := source, sink, table;
      bitBuffer, bitCount, failed, fixedReady := 0, 0, false, false;
      var literals := new Huffman();
      var distances := new Huffman();
      fixedLiterals, fixedDistances := literals, distances;
      window := new Byte[WINDOW](_ => 0);
      chunk := new Byte[CHUNK](_ => 0);
      windowPos, chunkUsed, total, crc := 0, 0, 0, 0;
      out := [];
      new;
      CrcEmpty();
      LsbValEmpty();
      assert AllBits()[0..0] == [];
    }

    // The next `need` bits as a number; a source that ends first sets `failed`, for good.
    method Bits(need: nat) returns (value: nat)
      requires InputValid() && need <= 13
      modifies this`bitBuffer, this`bitCount, this`failed, source
      ensures InputValid() && value < Pow2(need)
      ensures old(failed) ==> failed
      ensures !old(failed) ==>
        match ReadBits(AllBits(), old(Pos()), need)
        case None => failed
        case Some(v) => !failed && value == v && Pos() == old(Pos()) + need
    {
      hide ToBits, LsbVal, Or, And, ShiftLeft, ShiftRight, Pow2;
      ghost var p := Pos();
      var word := bitBuffer;
      while bitCount < need
        invariant source.next <= |source.bytes| && failed == old(failed)
        invariant !failed ==>
          && bitCount < need + 8 && 0 <= p == Pos() <= 8 * source.next
          && word == LsbVal(AllBits()[p..8 * source.next])
        decreases |source.bytes| - source.next
      {
        var next := source.Next();
        if next < 0 {
          failed := true;
          return 0;
        }
        if !failed {
          AppendByte(source.bytes, p, source.next - 1);
        }
        word := Or(word, ShiftLeft(next, bitCount));
        bitCount := bitCount + 8;
      }
      AndMask(word, need);
      JoinAt(word, need);
      if !failed {
        TakeLow(AllBits(), p, 8 * source.next, need);
      }
      bitBuffer := ShiftRight(word, need);
      bitCount := bitCount - need;
      value := And(word, Pow2(need) - 1);
    }

    // One symbol of the canonical code of ls: -1 at the end of input, -2 for bits no symbol has.
    method Decode(h: Huffman, ghost ls: Lengths) returns (r: int)
      requires InputValid() && h.Holds(ls)
      modifies this`bitBuffer, this`bitCount, this`failed, source
      ensures InputValid()
      ensures old(failed) ==> failed
      ensures !old(failed) ==>
        match ReadSymbol(ls, AllBits(), old(Pos()))
        case Symbol(s, q) => !failed && r == s && Pos() == q
        case Ended => failed && r == -1
        case Unassigned => !failed && r == -2
    {
      hide ToBits, Prefix, LsbVal, Or, First, Offset, Count, Slot, ReadSymbol, NoneUpTo, Pow2;
      ghost var p := Pos();
      ghost var bits := AllBits();
      var code: nat, first: nat, index: nat := 0, 0, 0;
      if !failed {
        FirstLength(ls, bits, p);
      }
      var len := 1;
      while len < 16
        invariant 1 <= len <= 16 && InputValid() && failed == old(failed)
        invariant failed ==> len == 1
        invariant !failed ==>
          && p + len - 1 == Pos() <= |bits|
          && code == 2 * Prefix(bits, p, len - 1) && first == First(ls, len) && index == Offset(ls, len)
          && code >= first && NoneUpTo(ls, bits, p, len - 1)
      {
        var bit := Bits(1);
        code := Or(code, bit);
        if failed {
          if !old(failed) {
            NoSymbol(ls, bits, p, len - 1);
          }
          return -1;
        }
        BitJoins(bits, p, len - 1);
        var count := h.counts[len];
        if code - count < first {
          ghost var s := SymbolFound(ls, bits, p, len);
          return h.symbols[index + (code - first)];
        }
        NextLength(ls, bits, p, len);
        index := index + count;
        first := first + count;
        first := 2 * first;
        code := 2 * code;
        len := len + 1;
      }
      NoSymbol(ls, bits, p, 15);
      return -2;
    }

    method Flush() returns (ok: bool)
      requires OutputValid() && !sink.refused && |sink.data| == CHUNK * sink.writes
      modifies this`chunkUsed, this`crc, sink, table`ready, table.entries
      ensures OutputValid() && chunkUsed == 0
      ensures ok == !sink.refused
      ensures ok ==> sink.data == out
      ensures sink.writes == old(sink.writes) + if old(chunkUsed) == 0 then 0 else 1
      ensures !ok ==> old(chunkUsed) > 0
    {
      hide Crc, RingHolds;
      if chunkUsed == 0 {
        assert chunk[..chunkUsed] == [];
        return true;
      }
      CrcConcat(0, sink.data, chunk[..chunkUsed]);
      crc := table.Update(crc, chunk[..chunkUsed]);
      ok := sink.Write(chunk[..chunkUsed]);
      chunkUsed := 0;
      assert chunk[..chunkUsed] == [];
    }

    // The byte enters the ring.
    method Remember(byte: Byte)
      requires window.Length == WINDOW && windowPos == |out| % WINDOW && RingHolds(window[..], out)
      modifies this`windowPos, window
      ensures windowPos == |out + [byte]| % WINDOW && RingHolds(window[..], out + [byte])
    {
      hide RingHolds, And;
      RingPut(window[..], out, byte);
      window[windowPos] := byte;
      assert window[..] == old(window[..])[windowPos := byte];
      AndWindow(windowPos + 1);
      windowPos := And(windowPos + 1, WINDOW - 1);
    }

    // The byte enters the ring and the chunk.
    method Store(byte: Byte)
      requires CanPut()
      modifies this`windowPos, this`chunkUsed, this`total, this`out, window, chunk
      ensures OutputValid() && chunkUsed == old(chunkUsed) + 1
      ensures out == old(out) + [byte]
    {
      hide Crc, RingHolds, And, Sink.Tallied, Table.Valid;
      Remember(byte);
      chunk[chunkUsed] := byte;
      chunkUsed := chunkUsed + 1;
      assert chunk[..chunkUsed] == old(chunk[..chunkUsed]) + [byte];
      total := total + 1;
      out := out + [byte];
    }

    method Put(byte: Byte) returns (ok: bool)
      requires CanPut()
      modifies this`windowPos, this`chunkUsed, this`total, this`crc, this`out, window, chunk, sink, table`ready, table.entries
      ensures if ok then CanPut() else Refused()
      ensures out == old(out) + [byte]
    {
      hide Crc, RingHolds;
      Store(byte);
      if chunkUsed < CHUNK {
        return true;
      }
      ok := Flush();
    }

    // A read that was to give `expected` has ended with `status`. A refused write stops it early, with
    // a prefix of the expected output.
    ghost predicate EndsAs(status: Status, expected: Outcome)
      reads this`bitCount, this`failed, this`out, this`windowPos, this`chunkUsed, this`total, this`crc,
            source, sink, window, chunk, table, table.entries
    {
      if status == OutputFailed then Refused() && out <= expected.out
      else
        && CanPut() && out == expected.out
        && match expected
           case Done(pos, _) => status == Ok && !failed && Pos() == pos
           case Failed(why, _) => status == why
    }

    // At a byte boundary with nothing buffered.
    ghost predicate AtByte()
      reads this`bitBuffer, this`bitCount, this`failed, source
    {
      source.next <= |source.bytes| && bitCount == 0 && bitBuffer == 0 && !failed
    }

    lemma AtByteValid()
      requires AtByte()
      ensures InputValid()
    {
      hide LsbVal, ToBits;
      LsbValEmpty();
      assert AllBits()[8 * source.next..8 * source.next] == [];
    }

    // The two lengths before a stored block's bytes: the length, unless they do not match or input ends.
    method StoredLength() returns (status: Status, length: nat)
      requires AtByte()
      modifies source
      ensures AtByte()
      ensures var q, bytes := old(source.next), source.bytes;
              if q + 4 > |bytes| then status == InputEnded
              else
                && source.next == q + 4 && length == Word16(bytes[q], bytes[q + 1])
                && status == if length + Word16(bytes[q + 2], bytes[q + 3]) == 65535 then Ok else BadData
    {
      ghost var q, bytes := source.next, source.bytes;
      length := 0;
      var header := new int[4];
      var i := 0;
      while i < 4
        invariant 0 <= i <= 4 && source.next == q + i <= |bytes|
        invariant forall j :: 0 <= j < i ==> header[j] == bytes[q + j]
        modifies header, source
      {
        var b := source.Next();
        if b < 0 {
          return InputEnded, 0;
        }
        header[i] := b;
        i := i + 1;
      }
      length := header[0] + 256 * header[1];
      var complement := header[2] + 256 * header[3];
      return if length != 65535 - complement then BadData else Ok, length;
    }

    method StoredBytes(length: nat) returns (status: Status)
      requires AtByte() && CanPut()
      modifies source
      modifies this`windowPos, this`chunkUsed, this`total, this`crc, this`out, window, chunk, sink, table`ready, table.entries
      ensures AtByte()
      ensures var q, bytes := old(source.next), source.bytes;
              EndsAs(status, if q + length > |bytes| then Failed(InputEnded, old(out) + bytes[q..])
                             else Done(8 * (q + length), old(out) + bytes[q..q + length]))
    {
      hide RingHolds, Crc, OutputValid, ToBits;
      ghost var q, bytes, out0 := source.next, source.bytes, out;
      var i := 0;
      while i < length
        invariant 0 <= i <= length && AtByte() && source.next == q + i && CanPut()
        invariant out == out0 + bytes[q..q + i]
      {
        var b := source.Next();
        if b < 0 {
          return InputEnded;
        }
        assert out0 + bytes[q..q + i + 1] == out + [b];
        var ok := Put(b);
        if !ok {
          return OutputFailed;
        }
        i := i + 1;
      }
      return Ok;
    }

    method Stored() returns (status: Status)
      requires InputValid() && CanPut() && !failed
      modifies this`bitBuffer, this`bitCount, source
      modifies this`windowPos, this`chunkUsed, this`total, this`crc, this`out, window, chunk, sink, table`ready, table.entries
      ensures InputValid()
      ensures EndsAs(status, ReadStored(source.bytes, old(Pos()), old(out)))
    {
      hide ToBits, LsbVal, RingHolds, Crc, Word16;
      assert source.next == (Pos() + 7) / 8;
      bitBuffer := 0;
      bitCount := 0;
      var length;
      status, length := StoredLength();
      if status == Ok {
        status := StoredBytes(length);
      }
      AtByteValid();
    }

    // Puts the byte `distance` back, read through the ring.
    method CopyByte(distance: nat) returns (ok: bool)
      requires CanPut() && 1 <= distance <= |out| && distance <= WINDOW
      modifies this`windowPos, this`chunkUsed, this`total, this`crc, this`out, window, chunk, sink, table`ready, table.entries
      ensures if ok then CanPut() else Refused()
      ensures out == old(out) + [old(out)[|old(out)| - distance]]
    {
      hide RingHolds, Crc, And;
      RingBack(window[..], out, distance);
      ok := Put(window[And((windowPos - distance) % 0x1_0000_0000, WINDOW - 1)]);
    }

    method CopyBack(distance: nat, length: nat) returns (ok: bool)
      requires CanPut() && 1 <= distance <= |out| && distance <= WINDOW
      modifies this`windowPos, this`chunkUsed, this`total, this`crc, this`out, window, chunk, sink, table`ready, table.entries
      ensures if ok then CanPut() else Refused()
      ensures ok ==> out == CopyBytes(old(out), distance, length)
      ensures out <= CopyBytes(old(out), distance, length)
    {
      hide OutputValid;
      ghost var out0 := out;
      var i := 0;
      while i < length
        invariant 0 <= i <= length && CanPut() && out == CopyBytes(out0, distance, i)
      {
        CopyPrefix(out0, distance, i + 1, length);
        ok := CopyByte(distance);
        if !ok {
          return false;
        }
        i := i + 1;
      }
      return true;
    }

    lemma TotalIsLength()
      requires CanPut()
      ensures total == |out|
    {
    }

    // The fields of a copy after its length symbol `symbol`; false when they cannot be read, with the status.
    method CopyFields(symbol: nat, distances: Huffman, ghost ll: Lengths, ghost dl: Lengths)
      returns (ok: bool, status: Status, length: nat, distance: nat)
      requires InputValid() && !failed && distances.Holds(dl) && symbol < 29
      modifies this`bitBuffer, this`bitCount, this`failed, source
      ensures InputValid()
      ensures var expected := ReadCopy(ll, dl, AllBits(), symbol, old(Pos()), out);
              if ok then
                && !failed && old(Pos()) < Pos() <= |AllBits()| && 1 <= distance <= WINDOW
                && expected == if distance > |out| then Failed(BadData, out)
                               else ReadCodes(ll, dl, AllBits(), Pos(), CopyBytes(out, distance, length))
              else status != OutputFailed && expected == Failed(status, out)
    {
      hide ToBits, LsbVal, ReadSymbol, CopyBytes, ReadCodes, Pow2, Huffman.Holds,
        LENGTH_BASE, LENGTH_EXTRA, DIST_BASE, DIST_EXTRA;
      length, distance := 0, 0;
      TableEntries(symbol);
      var lengthExtra := Bits(LENGTH_EXTRA[symbol]);
      length := LENGTH_BASE[symbol] + lengthExtra;
      var distSymbol := Decode(distances, dl);
      if failed {
        return false, InputEnded, length, distance;
      }
      if distSymbol < 0 || distSymbol >= 30 {
        return false, BadData, length, distance;
      }
      DistEntries(distSymbol);
      var distExtra := Bits(DIST_EXTRA[distSymbol]);
      distance := DIST_BASE[distSymbol] + distExtra;
      return !failed, InputEnded, length, distance;
    }

    // One copy, after its length symbol; false when reading has ended, with the status.
    method CopyToken(symbol: nat, distances: Huffman, ghost ll: Lengths, ghost dl: Lengths)
      returns (more: bool, status: Status)
      requires InputValid() && CanPut() && !failed && distances.Holds(dl) && symbol < 29
      modifies this`bitBuffer, this`bitCount, this`failed, source
      modifies this`windowPos, this`chunkUsed, this`total, this`crc, this`out, window, chunk, sink, table`ready, table.entries
      ensures InputValid()
      ensures var expected := ReadCopy(ll, dl, AllBits(), symbol, old(Pos()), old(out));
              if more then
                && CanPut() && !failed && old(Pos()) < Pos() <= |AllBits()|
                && expected == ReadCodes(ll, dl, AllBits(), Pos(), out)
              else EndsAs(status, expected)
    {
      hide ToBits, OutputValid, CopyBytes, ReadCodes, ReadCopy, Huffman.Holds;
      TotalIsLength();
      var ok, length, distance;
      ok, status, length, distance := CopyFields(symbol, distances, ll, dl);
      if !ok {
        return false, status;
      }
      if distance > total || distance > WINDOW {
        return false, BadData;
      }
      more := CopyBack(distance, length);
      status := OutputFailed;
    }

    // One token; false when reading has ended, with the status.
    method Token(lengths: Huffman, distances: Huffman, ghost ll: Lengths, ghost dl: Lengths)
      returns (more: bool, status: Status)
      requires InputValid() && CanPut() && !failed && lengths.Holds(ll) && distances.Holds(dl)
      modifies this`bitBuffer, this`bitCount, this`failed, source
      modifies this`windowPos, this`chunkUsed, this`total, this`crc, this`out, window, chunk, sink, table`ready, table.entries
      ensures InputValid()
      ensures var expected := ReadCodes(ll, dl, AllBits(), old(Pos()), old(out));
              if more then
                && CanPut() && !failed && old(Pos()) < Pos() <= |AllBits()|
                && expected == ReadCodes(ll, dl, AllBits(), Pos(), out)
              else EndsAs(status, expected)
    {
      hide ToBits, LsbVal, OutputValid, ReadSymbol, CopyBytes, ReadCopy, Huffman.Holds;
      var symbol := Decode(lengths, ll);
      if failed {
        return false, InputEnded;
      }
      if symbol < 0 {
        return false, BadData;
      }
      if symbol < 256 {
        more := Put(symbol);
        return more, OutputFailed;
      }
      if symbol == END_OF_BLOCK {
        return false, Ok;
      }
      symbol := symbol - 257;
      if symbol >= 29 {
        return false, BadData;
      }
      more, status := CopyToken(symbol, distances, ll, dl);
    }

    method Codes(lengths: Huffman, distances: Huffman, ghost ll: Lengths, ghost dl: Lengths) returns (status: Status)
      requires InputValid() && CanPut() && !failed && lengths.Holds(ll) && distances.Holds(dl)
      modifies this`bitBuffer, this`bitCount, this`failed, source
      modifies this`windowPos, this`chunkUsed, this`total, this`crc, this`out, window, chunk, sink, table`ready, table.entries
      ensures InputValid()
      ensures EndsAs(status, ReadCodes(ll, dl, AllBits(), old(Pos()), old(out)))
    {
      hide ToBits, OutputValid, ReadCodes, Huffman.Holds;
      ghost var expected := ReadCodes(ll, dl, AllBits(), Pos(), out);
      while true
        invariant InputValid() && CanPut() && !failed && Pos() <= |AllBits()|
        invariant ReadCodes(ll, dl, AllBits(), Pos(), out) == expected
        decreases |AllBits()| - Pos()
      {
        var more;
        more, status := Token(lengths, distances, ll, dl);
        if !more {
          return;
        }
      }
    }

    // The fixed tables, built on first use.
    method BuildFixed()
      requires FixedValid()
      modifies this`fixedReady, fixedLiterals.counts, fixedLiterals.symbols, fixedDistances.counts, fixedDistances.symbols
      ensures FixedValid() && fixedReady
    {
      hide Kraft, Huffman.Holds;
      FixedNotOverSubscribed();
      if fixedReady {
        return;
      }
      var lengths := new nat[318];
      for i := 0 to 144
        invariant forall j :: 0 <= j < i ==> lengths[j] == FixedLength(j)
      {
        lengths[i] := 8;
      }
      for i := 144 to 256
        invariant forall j :: 0 <= j < i ==> lengths[j] == FixedLength(j)
      {
        lengths[i] := 9;
      }
      for i := 256 to 280
        invariant forall j :: 0 <= j < i ==> lengths[j] == FixedLength(j)
      {
        lengths[i] := 7;
      }
      for i := 280 to 288
        invariant forall j :: 0 <= j < i ==> lengths[j] == FixedLength(j)
      {
        lengths[i] := 8;
      }
      for i := 288 to 318
        invariant forall j :: 0 <= j < 288 ==> lengths[j] == FixedLength(j)
        invariant forall j :: 288 <= j < i ==> lengths[j] == 5
      {
        lengths[i] := 5;
      }
      assert lengths[..288] == FixedLiterals();
      assert lengths[288..] == FixedDistances();
      var literalsOk := fixedLiterals.Build(lengths[..288]);
      var distancesOk := fixedDistances.Build(lengths[288..]);
      fixedReady := true;
    }

    method Fixed() returns (status: Status)
      requires InputValid() && CanPut() && FixedValid() && !failed
      modifies this`bitBuffer, this`bitCount, this`failed, source
      modifies this`windowPos, this`chunkUsed, this`total, this`crc, this`out, window, chunk, sink, table`ready, table.entries
      modifies this`fixedReady, fixedLiterals.counts, fixedLiterals.symbols, fixedDistances.counts, fixedDistances.symbols
      ensures InputValid() && FixedValid()
      ensures EndsAs(status, ReadCodes(FixedLiterals(), FixedDistances(), AllBits(), old(Pos()), old(out)))
    {
      hide Huffman.Holds, ReadCodes, OutputValid, ToBits;
      BuildFixed();
      status := Codes(fixedLiterals, fixedDistances, FixedLiterals(), FixedDistances());
    }

    // The n three-bit fields of the code-length code, scattered to their symbols.
    method ReadFields(n: nat, lengths: array<nat>)
      requires InputValid() && !failed && n <= 19
      requires lengths.Length == 316 && forall s :: 0 <= s < 316 ==> lengths[s] == 0
      modifies this`bitBuffer, this`bitCount, this`failed, source, lengths
      ensures InputValid()
      ensures failed <==> old(Pos()) + 3 * n > |AllBits()|
      ensures !failed ==> Pos() == old(Pos()) + 3 * n
      ensures !failed ==> lengths[..19] == CodeLengthLengths(RawFields(AllBits(), old(Pos()), n))
    {
      hide ToBits, LsbVal, Pow2, ORDER, ORDER_INDEX;
      ghost var p, bits := Pos(), AllBits();
      OrderInverse();
      var i := 0;
      while i < n
        invariant 0 <= i <= n && InputValid()
        invariant if failed then p + 3 * n > |bits| else p + 3 * i == Pos() <= |bits|
        invariant !failed ==> forall s :: 0 <= s < 19 ==>
          lengths[s] == if ORDER_INDEX[s] < i then RawField(bits, p + 3 * ORDER_INDEX[s]) else 0
      {
        var field := Bits(3);
        lengths[ORDER[i]] := field;
        i := i + 1;
      }
    }

    // How often the repeat symbol applies; its extra bits may run into the end of input.
    method ReadTimes(symbol: nat) returns (times: nat)
      requires InputValid() && !failed && 16 <= symbol < 19
      modifies this`bitBuffer, this`bitCount, this`failed, source
      ensures InputValid()
      ensures match ReadBits(AllBits(), old(Pos()), RepeatBits(symbol))
              case None => failed
              case Some(x) => !failed && times == RepeatBase(symbol) + x && Pos() == old(Pos()) + RepeatBits(symbol)
    {
      if symbol == 16 {
        times := Bits(2);
        times := 3 + times;
      } else if symbol == 17 {
        times := Bits(3);
        times := 3 + times;
      } else {
        times := Bits(7);
        times := 11 + times;
      }
    }

    static method FillRun(lengths: array<nat>, index: nat, times: nat, value: nat)
      requires index + times <= lengths.Length
      modifies lengths
      ensures lengths[..index + times] == old(lengths[..index]) + Repeat(value, times)
    {
      ghost var soFar := lengths[..index];
      var i := 0;
      while i < times
        invariant 0 <= i <= times && lengths[..index + i] == soFar + Repeat(value, i)
      {
        lengths[index + i] := value;
        i := i + 1;
        assert lengths[..index + i] == soFar + Repeat(value, i);
      }
    }

    // One symbol of the run-length code; false when reading has ended.
    method ReadRun(h: Huffman, ghost code: Lengths, count: nat, lengths: array<nat>, index: nat)
      returns (more: bool, status: Status, next: nat)
      requires InputValid() && !failed && h.Holds(code) && |code| == 19
      requires index < count <= lengths.Length && lengths != h.counts && lengths != h.symbols
      requires forall i :: 0 <= i < index ==> lengths[i] <= MAX_LENGTH
      modifies this`bitBuffer, this`bitCount, this`failed, source, lengths
      ensures InputValid()
      ensures var expected := ReadLengths(code, AllBits(), old(Pos()), count, old(lengths[..index]));
              if more then
                && !failed && index < next <= count && Pos() <= |AllBits()|
                && (forall i :: 0 <= i < next ==> lengths[i] <= MAX_LENGTH)
                && expected == ReadLengths(code, AllBits(), Pos(), count, lengths[..next])
              else expected == LengthsFailed(status)
    {
      hide ToBits, LsbVal, Pow2, ReadSymbol, Huffman.Holds;
      ghost var soFar := lengths[..index];
      var symbol := Decode(h, code);
      if failed {
        return false, InputEnded, index;
      }
      if symbol < 0 {
        return false, BadData, index;
      }
      if symbol < 16 {
        lengths[index] := symbol;
        assert lengths[..index + 1] == soFar + [symbol];
        return true, Ok, index + 1;
      }
      var repeat := 0;
      if symbol == 16 {
        if index == 0 {
          return false, BadData, index;
        }
        repeat := lengths[index - 1];
      }
      var times := ReadTimes(symbol);
      if failed {
        return false, InputEnded, index;
      }
      if index + times > count {
        return false, BadData, index;
      }
      FillRun(lengths, index, times, repeat);
      next := index + times;
      assert forall i :: 0 <= i < next ==> lengths[i] == (soFar + Repeat(repeat, times))[i];
      return true, Ok, next;
    }

    // The run-length coded code lengths.
    method ReadRuns(h: Huffman, ghost code: Lengths, count: nat, lengths: array<nat>) returns (status: Status)
      requires InputValid() && !failed && h.Holds(code) && |code| == 19
      requires count <= lengths.Length && lengths != h.counts && lengths != h.symbols
      modifies this`bitBuffer, this`bitCount, this`failed, source, lengths
      ensures InputValid()
      ensures match ReadLengths(code, AllBits(), old(Pos()), count, [])
              case LengthsDone(pos, ls) => status == Ok && !failed && Pos() == pos && lengths[..count] == ls
              case LengthsFailed(why) => status == why
    {
      hide ToBits, ReadSymbol, Huffman.Holds;
      ghost var expected := ReadLengths(code, AllBits(), Pos(), count, []);
      var index := 0;
      assert lengths[..index] == [];
      while index < count
        invariant 0 <= index <= count && InputValid() && !failed && Pos() <= |AllBits()| && h.Holds(code)
        invariant forall i :: 0 <= i < index ==> lengths[i] <= MAX_LENGTH
        invariant ReadLengths(code, AllBits(), Pos(), count, lengths[..index]) == expected
        decreases count - index
      {
        var more;
        more, status, index := ReadRun(h, code, count, lengths, index);
        if !more {
          return;
        }
      }
      return Ok;
    }

    // The literal/length and distance codes of a dynamic block, and their tables.
    method ReadTables(h: Huffman, ghost code: Lengths, literalCount: nat, distanceCount: nat, lengths: array<nat>)
      returns (status: Status, literals: Huffman, distances: Huffman, ghost ll: Lengths, ghost dl: Lengths)
      requires InputValid() && !failed && h.Holds(code) && |code| == 19
      requires 257 <= literalCount <= 286 && 1 <= distanceCount <= 30
      requires lengths.Length == 316 && lengths != h.counts && lengths != h.symbols
      modifies this`bitBuffer, this`bitCount, this`failed, source, lengths
      ensures InputValid()
      ensures match ReadCodeLengths(code, AllBits(), old(Pos()), literalCount, distanceCount)
              case HeaderFailed(why) => status == why
              case HeaderDone(pos, a, b) =>
                && status == Ok && !failed && Pos() == pos && ll == a && dl == b
                && literals.Holds(ll) && distances.Holds(dl)
    {
      hide ToBits, Huffman.Holds, ReadLengths, Kraft, Pow2;
      literals := new Huffman();
      distances := new Huffman();
      ll, dl := [], [];
      status := ReadRuns(h, code, literalCount + distanceCount, lengths);
      if status != Ok {
        return;
      }
      if lengths[END_OF_BLOCK] == 0 {
        status := BadData;
        return;
      }
      ghost var all := lengths[..literalCount + distanceCount];
      assert lengths[..literalCount] == all[..literalCount];
      assert lengths[literalCount..literalCount + distanceCount] == all[literalCount..];
      ll, dl := all[..literalCount], all[literalCount..];
      var ok := literals.Build(lengths[..literalCount]);
      if !ok {
        status := BadData;
        return;
      }
      ok := distances.Build(lengths[literalCount..literalCount + distanceCount]);
      if !ok {
        status := BadData;
      }
    }

    method ReadCounts() returns (literalCount: nat, distanceCount: nat, codeCount: nat)
      requires InputValid() && !failed
      modifies this`bitBuffer, this`bitCount, this`failed, source
      ensures InputValid()
      ensures failed <==> old(Pos()) + 14 > |AllBits()|
      ensures !failed ==> var p, bits := old(Pos()), AllBits();
        && Pos() == p + 14 && literalCount == LsbVal(bits[p..p + 5]) + 257
        && distanceCount == LsbVal(bits[p + 5..p + 10]) + 1 && codeCount == LsbVal(bits[p + 10..p + 14]) + 4
      ensures codeCount <= 19
    {
      hide ToBits, LsbVal, Pow2;
      Pow2Constants();
      literalCount := Bits(5);
      literalCount := literalCount + 257;
      distanceCount := Bits(5);
      distanceCount := distanceCount + 1;
      codeCount := Bits(4);
      codeCount := codeCount + 4;
    }

    method ReadDynamicHeader()
      returns (status: Status, literals: Huffman?, distances: Huffman?, ghost ll: Lengths, ghost dl: Lengths)
      requires InputValid() && !failed
      modifies this`bitBuffer, this`bitCount, this`failed, source
      ensures InputValid()
      ensures match ReadHeader(AllBits(), old(Pos()))
              case HeaderFailed(why) => status == why
              case HeaderDone(pos, a, b) =>
                && status == Ok && !failed && Pos() == pos && ll == a && dl == b
                && literals != null && distances != null && literals.Holds(ll) && distances.Holds(dl)
    {
      hide ToBits, LsbVal, Huffman.Holds, ReadCodeLengths, Kraft, CodeLengthLengths, RawFields, Pow2;
      ghost var p, bits := Pos(), AllBits();
      status, literals, distances := InputEnded, null, null;
      ll, dl := [], [];
      var literalCount, distanceCount, codeCount := ReadCounts();
      if failed {
        return;
      }
      if literalCount > 286 || distanceCount > 30 {
        status := BadData;
        return;
      }
      var lengths := new nat[316](_ => 0);
      ReadFields(codeCount, lengths);
      if failed {
        return;
      }
      var codeLengths := new Huffman();
      ghost var code := CodeLengthLengths(RawFields(bits, p + 14, codeCount));
      var ok := codeLengths.Build(lengths[..19]);
      if !ok {
        status := BadData;
        return;
      }
      ClearLengths(lengths);
      status, literals, distances, ll, dl := ReadTables(codeLengths, code, literalCount, distanceCount, lengths);
    }

    static method ClearLengths(lengths: array<nat>)
      modifies lengths
      ensures forall i :: 0 <= i < lengths.Length ==> lengths[i] == 0
    {
      for i := 0 to lengths.Length
        invariant forall j :: 0 <= j < i ==> lengths[j] == 0
      {
        lengths[i] := 0;
      }
    }

    method Dynamic() returns (status: Status)
      requires InputValid() && CanPut() && !failed
      modifies this`bitBuffer, this`bitCount, this`failed, source
      modifies this`windowPos, this`chunkUsed, this`total, this`crc, this`out, window, chunk, sink, table`ready, table.entries
      ensures InputValid()
      ensures EndsAs(status, ReadDynamic(AllBits(), old(Pos()), old(out)))
    {
      hide ToBits, Huffman.Holds, OutputValid, ReadHeader, ReadCodes;
      var literals, distances;
      ghost var ll, dl;
      status, literals, distances, ll, dl := ReadDynamicHeader();
      if status == Ok {
        status := Codes(literals, distances, ll, dl);
      }
    }

    // One block, after its two kind bits.
    method Block(kind: nat) returns (status: Status)
      requires InputValid() && CanPut() && FixedValid() && !failed
      requires Pos() >= 2 && kind == LsbVal(AllBits()[Pos() - 2..Pos()])
      modifies this`bitBuffer, this`bitCount, this`failed, source
      modifies this`windowPos, this`chunkUsed, this`total, this`crc, this`out, window, chunk, sink, table`ready, table.entries
      modifies this`fixedReady, fixedLiterals.counts, fixedLiterals.symbols, fixedDistances.counts, fixedDistances.symbols
      ensures InputValid() && FixedValid()
      ensures EndsAs(status, ReadBlock(source.bytes, old(Pos()) - 2, old(out)))
    {
      hide ToBits, LsbVal, OutputValid, ReadStored, ReadCodes, ReadDynamic, Huffman.Holds, FixedLiterals, FixedDistances;
      status := BadData;
      if kind == 0 {
        status := Stored();
      } else if kind == 1 {
        status := Fixed();
      } else if kind == 2 {
        status := Dynamic();
      }
    }

    method NextBlock() returns (status: Status, last: nat)
      requires InputValid() && CanPut() && FixedValid() && !failed
      modifies this`bitBuffer, this`bitCount, this`failed, source
      modifies this`windowPos, this`chunkUsed, this`total, this`crc, this`out, window, chunk, sink, table`ready, table.entries
      modifies this`fixedReady, fixedLiterals.counts, fixedLiterals.symbols, fixedDistances.counts, fixedDistances.symbols
      ensures InputValid() && FixedValid()
      ensures var expected := ReadBlocks(source.bytes, old(Pos()), old(out));
              if status == Ok then
                && CanPut() && !failed && old(Pos()) < Pos() <= 8 * |source.bytes|
                && expected == if last == 0 then ReadBlocks(source.bytes, Pos(), out) else Done(Pos(), out)
              else EndsAs(status, expected)
    {
      hide ToBits, OutputValid, ReadBlock, FixedValid, Pow2;
      last := Bits(1);
      OneBit(AllBits(), Pos() - 1);
      var kind := Bits(2);
      if failed {
        return InputEnded, last;
      }
      status := Block(kind);
    }

    method Run() returns (status: Status)
      requires InputValid() && CanPut() && FixedValid() && !failed
      modifies this`bitBuffer, this`bitCount, this`failed, source
      modifies this`windowPos, this`chunkUsed, this`total, this`crc, this`out, window, chunk, sink, table`ready, table.entries
      modifies this`fixedReady, fixedLiterals.counts, fixedLiterals.symbols, fixedDistances.counts, fixedDistances.symbols
      ensures RunsAs(status, ReadBlocks(source.bytes, old(Pos()), old(out)))
    {
      hide ToBits, OutputValid, ReadBlocks, FixedValid;
      ghost var expected := ReadBlocks(source.bytes, Pos(), out);
      var last := 0;
      while last == 0
        invariant InputValid() && CanPut() && FixedValid() && !failed && Pos() <= |AllBits()|
        invariant expected == if last == 0 then ReadBlocks(source.bytes, Pos(), out) else Done(Pos(), out)
        decreases last == 0, |AllBits()| - Pos()
      {
        status, last := NextBlock();
        if status != Ok {
          StopsAs(status, expected);
          return;
        }
      }
      status := LastFlush(expected);
    }

    lemma StopsAs(status: Status, expected: Outcome)
      requires EndsAs(status, expected) && status != Ok && (expected.Failed? ==> ReadFailure(expected.status))
      ensures RunsAs(status, expected)
    {
    }

    method LastFlush(ghost expected: Outcome) returns (status: Status)
      requires CanPut() && expected.Done? && expected.out == out
      modifies this`chunkUsed, this`crc, sink, table`ready, table.entries
      ensures RunsAs(status, expected)
    {
      hide Crc, RingHolds;
      var ok := Flush();
      status := if ok then Ok else OutputFailed;
    }

    // The status and the data handed over, for what the whole input reads as.
    ghost predicate RunsAs(status: Status, expected: Outcome)
      reads this`chunkUsed, this`total, this`crc, this`out, sink
    {
      && sink.Tallied() && sink.data <= expected.out
      && (status == OutputFailed ==>
            sink.refused && sink.writes <= Writes(expected) && |sink.data| == CHUNK * (sink.writes - 1))
      && (status != OutputFailed ==>
            && !sink.refused && sink.writes == Writes(expected) && crc == Crc(0, sink.data)
            && (expected.Done? ==> total == |sink.data|)
            && |sink.data| == (if expected.Done? then |expected.out| else |expected.out| / CHUNK * CHUNK)
            && status == if expected.Done? then Ok else expected.status)
    }
  }

  // The number of writes an outcome takes: whole chunks, and at the end what is left.
  function Writes(o: Outcome): nat {
    |o.out| / CHUNK + if o.Done? && |o.out| % CHUNK != 0 then 1 else 0
  }

  // What the decoder leaves behind for an input, given which writes the sink accepts.
  ghost predicate Leaves(o: Outcome, accepts: nat -> bool, status: Status, data: seq<Byte>) {
    && data <= o.out
    && (status == OutputFailed ==>
          exists i: nat :: i < Writes(o) && !accepts(i) && (forall j: nat :: j < i ==> accepts(j)) && |data| == CHUNK * i)
    && (status != OutputFailed ==>
          && status == (if o.Done? then Ok else o.status)
          && (forall i: nat :: i < Writes(o) ==> accepts(i))
          && if o.Done? then data == o.out else |data| == |o.out| / CHUNK * CHUNK)
  }

  lemma RefusedExactly(o: Outcome, accepts: nat -> bool, status: Status, data: seq<Byte>)
    requires Leaves(o, accepts, status, data)
    ensures status == OutputFailed <==> exists i: nat :: i < Writes(o) && !accepts(i)
  {
    hide Writes;
  }

  lemma RunLeaves(sink: Sink, status: Status, o: Outcome)
    requires sink.Tallied() && sink.data <= o.out
    requires status == OutputFailed ==>
               sink.refused && sink.writes <= Writes(o) && |sink.data| == CHUNK * (sink.writes - 1)
    requires status != OutputFailed ==>
               && !sink.refused && sink.writes == Writes(o) && status == (if o.Done? then Ok else o.status)
               && |sink.data| == if o.Done? then |o.out| else |o.out| / CHUNK * CHUNK
    ensures Leaves(o, sink.accepts, status, sink.data)
  {
    hide Writes;
    assert |sink.data| == |o.out| ==> sink.data == o.out;
    if status == OutputFailed {
      var last: nat := sink.writes - 1;
      assert !sink.accepts(last);
    }
  }

  // The whole decoder on one input. It fails to write exactly when the sink refuses a write that the outcome takes;
  // else its status is the outcome's, which is a success exactly on the inputs that start with a legal encoding.
  method Decompress(input: seq<Byte>, accepts: nat -> bool)
    returns (status: Status, data: seq<Byte>, written: nat, crc: Word)
    ensures Inflate(input).Done? <==> exists bs, end, out :: Spells(bs, input, end, out)
    ensures Leaves(Inflate(input), accepts, status, data)
    ensures status == OutputFailed <==> exists i: nat :: i < Writes(Inflate(input)) && !accepts(i)
    ensures status == Ok ==> (exists bs, end :: Spells(bs, input, end, data)) && written == |data| && crc == Crc(0, data)
  {
    hide Spells, ReadBlocks, ToBits, LsbVal, FixedLiterals, FixedDistances, Crc, RingHolds, Steps, Writes;
    SpelledOnce(input);
    DoneExactly(input);
    var source := new Source(input);
    var sink := new Sink(accepts);
    var table := new Table();
    var inflater := new Inflater(source, sink, table);
    status := inflater.Run();
    RunLeaves(sink, status, Inflate(input));
    RefusedExactly(Inflate(input), accepts, status, sink.data);
    return status, sink.data, inflater.total, inflater.crc;
  }
}
