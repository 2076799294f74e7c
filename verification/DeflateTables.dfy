// The constants of the format, from the rules that make them (RFC 1951, sections 3.2.5 to 3.2.7).
module DeflateTables {
  import opened Bits
  import opened Canonical
  import opened Deflate
  import opened DeflateExact

  // ---------- Lengths ----------

  // Symbol 257 + i has no extra bits up to 264, then one more every four symbols; 285 has none.
  lemma LengthBits(i: nat)
    requires i < 29
    ensures |LENGTH_EXTRA| == 29 && LENGTH_EXTRA[i] == if i < 4 || i == 28 then 0 else i / 4 - 1
  {
  }

  // Each symbol's range of lengths starts where the one before it ends. The last one stands for 258 alone, which the
  // range before it could spell as well.
  lemma LengthRanges(i: nat)
    requires i < 29
    ensures |LENGTH_BASE| == |LENGTH_EXTRA| == 29 && LENGTH_BASE[0] == 3 && LENGTH_BASE[28] == 258
    ensures i < 27 ==> LENGTH_BASE[i + 1] == LENGTH_BASE[i] + Pow2(LENGTH_EXTRA[i])
    ensures LENGTH_BASE[27] + Pow2(LENGTH_EXTRA[27]) == 259
  {
    SmallPowers();
    hide Pow2;
  }

  lemma SmallPowers()
    ensures Pow2(0) == 1 && Pow2(1) == 2 && Pow2(2) == 4 && Pow2(3) == 8 && Pow2(4) == 16 && Pow2(5) == 32
    ensures Pow2(6) == 64 && Pow2(7) == 128 && Pow2(8) == 256 && Pow2(9) == 512 && Pow2(10) == 1024
    ensures Pow2(11) == 2048 && Pow2(12) == 4096 && Pow2(13) == 8192
  {
    Pow2Constants();
    assert Pow2(6) == 2 * Pow2(5) && Pow2(9) == 2 * Pow2(8) && Pow2(12) == 2 * Pow2(11);
  }

  // Up to 284, a later symbol stands for greater lengths only.
  lemma {:induction false} LengthsApart(i: nat, j: nat)
    requires i < j < 28
    ensures |LENGTH_BASE| == |LENGTH_EXTRA| == 29 && LENGTH_BASE[i] + Pow2(LENGTH_EXTRA[i]) <= LENGTH_BASE[j]
    decreases j
  {
    hide Pow2, LENGTH_BASE, LENGTH_EXTRA;
    LengthRanges(j - 1);
    if i < j - 1 {
      LengthsApart(i, j - 1);
    }
  }

  // The symbol, less 257, whose range holds a length, among the first n.
  lemma {:induction false} FindLength(length: nat, n: nat) returns (i: nat)
    requires 0 < n <= 28 && |LENGTH_BASE| == |LENGTH_EXTRA| == 29
    requires 3 <= length < LENGTH_BASE[n - 1] + Pow2(LENGTH_EXTRA[n - 1])
    ensures i < n && LENGTH_BASE[i] <= length < LENGTH_BASE[i] + Pow2(LENGTH_EXTRA[i])
    decreases n
  {
    hide Pow2, LENGTH_EXTRA;
    i := n - 1;
    if length < LENGTH_BASE[i] {
      LengthRanges(i - 1);
      i := FindLength(length, i);
    }
  }

  // ---------- Distances ----------

  // Symbols 0 to 3 have no extra bits, then one more every two symbols.
  lemma DistanceBits(d: nat)
    requires d < 30
    ensures |DIST_EXTRA| == 30 && DIST_EXTRA[d] == if d < 2 then 0 else d / 2 - 1
  {
  }

  // The ranges of distances begin at 1, leave no gap and end at the window's size.
  lemma DistanceRanges(d: nat)
    requires d < 30
    ensures |DIST_BASE| == |DIST_EXTRA| == 30 && DIST_BASE[0] == 1
    ensures (if d < 29 then DIST_BASE[d + 1] else WINDOW + 1) == DIST_BASE[d] + Pow2(DIST_EXTRA[d])
  {
    SmallPowers();
    hide Pow2;
  }

  lemma {:induction false} DistancesApart(d: nat, e: nat)
    requires d < e < 30
    ensures |DIST_BASE| == |DIST_EXTRA| == 30 && DIST_BASE[d] + Pow2(DIST_EXTRA[d]) <= DIST_BASE[e]
    decreases e
  {
    hide Pow2, DIST_BASE, DIST_EXTRA;
    DistanceRanges(e - 1);
    if d < e - 1 {
      DistancesApart(d, e - 1);
    }
  }

  lemma {:induction false} FindDistance(distance: nat, n: nat) returns (d: nat)
    requires 0 < n <= 30 && |DIST_BASE| == |DIST_EXTRA| == 30
    requires 1 <= distance < DIST_BASE[n - 1] + Pow2(DIST_EXTRA[n - 1])
    ensures d < n && DIST_BASE[d] <= distance < DIST_BASE[d] + Pow2(DIST_EXTRA[d])
    decreases n
  {
    hide Pow2, DIST_EXTRA;
    d := n - 1;
    if distance < DIST_BASE[d] {
      DistanceRanges(d - 1);
      d := FindDistance(distance, d);
    }
  }

  // ---------- Copies ----------

  // Every length from 3 to 258 and every distance from 1 to 32768 has a copy token.
  lemma EveryCopy(length: nat, distance: nat) returns (t: Token)
    requires 3 <= length <= 258 && 1 <= distance <= WINDOW
    ensures t.Copy? && t.Valid() && t.len < 28 && t.Length() == length && t.Distance() == distance
  {
    LengthRanges(27);
    DistanceRanges(29);
    hide Pow2, LENGTH_BASE, LENGTH_EXTRA, DIST_BASE, DIST_EXTRA;
    var i := FindLength(length, 28);
    var d := FindDistance(distance, 30);
    t := Copy(i, length - LENGTH_BASE[i], d, distance - DIST_BASE[d]);
  }

  // Its symbols and extra bits follow the length and the distance in order, and 258 alone has a second spelling.
  lemma CopyOrder(t: Token, u: Token)
    requires t.Copy? && u.Copy? && t.Valid() && u.Valid()
    ensures 3 <= t.Length() <= 258 && 1 <= t.Distance() <= WINDOW
    ensures t.len < u.len < 28 ==> t.Length() < u.Length()
    ensures t.len == 28 ==> t.Length() == 258 && t.lenExtra == 0
    ensures t.Length() == u.Length() && t.len < 28 && u.len < 28 ==> t.len == u.len && t.lenExtra == u.lenExtra
    ensures t.dist < u.dist ==> t.Distance() < u.Distance()
    ensures t.Distance() == u.Distance() ==> t.dist == u.dist && t.distExtra == u.distExtra
  {
    LengthOrder(t, u);
    DistanceOrder(t, u);
    hide *;
  }

  lemma LengthOrder(t: Token, u: Token)
    requires t.Copy? && u.Copy? && t.Valid() && u.Valid()
    ensures 3 <= t.Length() <= 258
    ensures t.len < u.len < 28 ==> t.Length() < u.Length()
    ensures t.len == 28 ==> t.Length() == 258 && t.lenExtra == 0
    ensures t.Length() == u.Length() && t.len < 28 && u.len < 28 ==> t.len == u.len && t.lenExtra == u.lenExtra
  {
    LengthRanges(27);
    LengthBits(28);
    assert Pow2(0) == 1;
    hide Pow2, LENGTH_BASE, LENGTH_EXTRA, DIST_BASE, DIST_EXTRA;
    if 0 < t.len < 28 {
      LengthsApart(0, t.len);
    }
    if t.len < 27 {
      LengthsApart(t.len, 27);
    }
    if t.len < u.len < 28 {
      LengthsApart(t.len, u.len);
    } else if u.len < t.len < 28 {
      LengthsApart(u.len, t.len);
    }
  }

  lemma DistanceOrder(t: Token, u: Token)
    requires t.Copy? && u.Copy? && t.Valid() && u.Valid()
    ensures 1 <= t.Distance() <= WINDOW
    ensures t.dist < u.dist ==> t.Distance() < u.Distance()
    ensures t.Distance() == u.Distance() ==> t.dist == u.dist && t.distExtra == u.distExtra
  {
    DistanceRanges(29);
    hide Pow2, LENGTH_BASE, LENGTH_EXTRA, DIST_BASE, DIST_EXTRA;
    if t.dist < 29 {
      DistancesApart(t.dist, 29);
    }
    if t.dist < u.dist {
      DistancesApart(t.dist, u.dist);
    } else if u.dist < t.dist {
      DistancesApart(u.dist, t.dist);
    }
  }

  // ---------- Orders and fixed codes ----------

  // Code-length code lengths come as 16, 17, 18, 0, then alternately from 8 up and from 7 down.
  lemma OrderOf(i: nat)
    requires i < 19
    ensures |ORDER| == 19
    ensures ORDER[i] == if i < 3 then 16 + i else if i == 3 then 0 else if i % 2 == 0 then 6 + i / 2 else 9 - i / 2
  {
  }

  // How many of n numbers, from 0 on, lie from a to b - 1.
  function Between(n: nat, a: nat, b: nat): nat
    requires a <= b
  {
    if n < a then 0 else if n < b then n - a else b - a
  }

  lemma {:induction false} FixedCounts(n: nat)
    requires n <= 288
    ensures var ls := FixedLiterals()[..n];
            && Count(ls, 7) == Between(n, 256, 280) && Count(ls, 8) == Between(n, 0, 144) + Between(n, 280, 288)
            && Count(ls, 9) == Between(n, 144, 256)
    ensures forall l :: 0 <= l < 7 ==> Count(FixedLiterals()[..n], l) == 0
    decreases n
  {
    var ls := FixedLiterals()[..n];
    if n > 0 {
      FixedCounts(n - 1);
      assert ls[..n - 1] == FixedLiterals()[..n - 1] && ls[n - 1] == FixedLength(n - 1);
    }
  }

  lemma {:induction false} NoneBelow(ls: seq<nat>, l: nat)
    requires l >= 1 && forall k :: 0 <= k < l ==> Count(ls, k) == 0
    ensures First(ls, l) == 0
    decreases l
  {
    hide Count;
    if l > 1 {
      NoneBelow(ls, l - 1);
    }
  }

  // The fixed code is the one of section 3.2.6: 00110000 on, 110010000 on, 0000000 on and 11000000 on.
  lemma FixedCodes(s: nat)
    requires s < 288
    ensures FixedLiterals()[s] == if s < 144 then 8 else if s < 256 then 9 else if s < 280 then 7 else 8
    ensures CodeNumber(FixedLiterals(), s) ==
            if s < 144 then 0x30 + s else if s < 256 then 0x190 + (s - 144) else if s < 280 then s - 256 else 0xc0 + (s - 280)
  {
    var ls := FixedLiterals();
    assert ls[..288] == ls;
    FixedCounts(288);
    FixedCounts(s);
    NoneBelow(ls, 7);
    hide Count;
    assert First(ls, 8) == 2 * (First(ls, 7) + Count(ls, 7));
    assert First(ls, 9) == 2 * (First(ls, 8) + Count(ls, 8));
  }

  lemma {:induction false} FiveCounts(n: nat)
    requires n <= 30
    ensures Count(FixedDistances()[..n], 5) == n
    ensures forall l :: 0 <= l < 5 ==> Count(FixedDistances()[..n], l) == 0
    decreases n
  {
    var ls := FixedDistances()[..n];
    if n > 0 {
      FiveCounts(n - 1);
      assert ls[..n - 1] == FixedDistances()[..n - 1];
    }
  }

  // A fixed distance code is its symbol in five bits.
  lemma FixedDistanceCodes(d: nat)
    requires d < 30
    ensures FixedDistances()[d] == 5 && CodeNumber(FixedDistances(), d) == d
  {
    var ls := FixedDistances();
    assert ls[..30] == ls;
    FiveCounts(30);
    FiveCounts(d);
    NoneBelow(ls, 5);
    hide Count;
  }

  // ---------- One stream, bit by bit ----------

  lemma {:induction false} MsbZeros(n: nat)
    ensures MsbBits(0, n) == seq(n, _ => false)
    decreases n
  {
    if n > 0 {
      MsbZeros(n - 1);
    }
  }

  // The four bytes of twelve times the letter a: a fixed block of the letter, a copy of length 11 and distance 1, and
  // the end of the block.
  const TWELVE: seq<Byte> := [0x4b, 0x44, 0x02, 0x00]

  const TWELVE_0: seq<bool> := [true, true, false, true, false, false, true, false]
  const TWELVE_1: seq<bool> := [false, false, true, false, false, false, true, false]
  const TWELVE_2: seq<bool> := [false, true, false, false, false, false, false, false]
  const TWELVE_3: seq<bool> := [false, false, false, false, false, false, false, false]

  lemma TwelveBytes()
    ensures ByteBits(0x4b) == TWELVE_0 && ByteBits(0x44) == TWELVE_1 && ByteBits(0x02) == TWELVE_2 && ByteBits(0) == TWELVE_3
  {
    hide LsbVal, ByteBits;
    Eight(TWELVE_0);
    Eight(TWELVE_1);
    Eight(TWELVE_2);
    Eight(TWELVE_3);
    ByteIs(0x4b, TWELVE_0);
    ByteIs(0x44, TWELVE_1);
    ByteIs(0x02, TWELVE_2);
    ByteIs(0x00, TWELVE_3);
  }

  lemma FourBytes(s: seq<Byte>)
    requires |s| == 4
    ensures ToBits(s) == ByteBits(s[0]) + ByteBits(s[1]) + ByteBits(s[2]) + ByteBits(s[3])
  {
    hide ByteBits;
  }

  lemma ByteIs(b: Byte, bits: seq<bool>)
    requires |bits| == 8 && LsbVal(bits) == b
    ensures ByteBits(b) == bits
  {
    LsbValBits(bits);
  }

  lemma Eight(bits: seq<bool>)
    requires |bits| == 8
    ensures LsbVal(bits) == Bit(bits[0]) + 2 * Bit(bits[1]) + 4 * Bit(bits[2]) + 8 * Bit(bits[3]) + 16 * Bit(bits[4]) +
                            32 * Bit(bits[5]) + 64 * Bit(bits[6]) + 128 * Bit(bits[7])
  {
    forall k | 0 <= k < 8 ensures LsbVal(bits[k..]) == Bit(bits[k]) + 2 * LsbVal(bits[k + 1..]) {
      assert bits[k..][1..] == bits[k + 1..];
    }
    hide LsbVal;
    LsbValEmpty();
    assert bits[8..] == [] && bits[0..] == bits;
  }

  lemma {:induction false} MsbStep(v: nat, n: nat)
    ensures MsbBits(v, n + 1) == MsbBits(v / 2, n) + [v % 2 == 1]
  {
  }

  lemma CodeIs(ls: Lengths, s: nat)
    requires s < |ls| && ls[s] >= 1
    ensures Code(ls, s) == MsbBits(CodeNumber(ls, s), ls[s])
  {
  }

  // The codes of the letter, of length symbol 265, of distance symbol 0 and of the end.
  lemma TwelveCodes()
    ensures |FixedLiterals()| == 288 && |FixedDistances()| == 30
    ensures FixedLiterals()[97] == 8 && Code(FixedLiterals(), 97) == [true, false, false, true, false, false, false, true]
    ensures FixedLiterals()[265] == 7 && Code(FixedLiterals(), 265) == [false, false, false, true, false, false, true]
    ensures FixedLiterals()[256] == 7 && Code(FixedLiterals(), 256) == seq(7, _ => false)
    ensures FixedDistances()[0] == 5 && Code(FixedDistances(), 0) == seq(5, _ => false)
  {
    hide CodeNumber, FixedLiterals, FixedDistances, Code, MsbBits;
    FixedCodes(97);
    FixedCodes(265);
    FixedCodes(256);
    FixedDistanceCodes(0);
    MsbZeros(7);
    MsbZeros(5);
    CodeIs(FixedLiterals(), 97);
    CodeIs(FixedLiterals(), 265);
    CodeIs(FixedLiterals(), 256);
    CodeIs(FixedDistances(), 0);
    NumberBits();
  }

  lemma NumberBits()
    ensures MsbBits(0x91, 8) == [true, false, false, true, false, false, false, true]
    ensures MsbBits(9, 7) == [false, false, false, true, false, false, true]
  {
    hide MsbBits;
    MsbZeros(0);
    MsbZeros(3);
    MsbStep(0x91, 7);
    MsbStep(0x48, 6);
    MsbStep(0x24, 5);
    MsbStep(0x12, 4);
    MsbStep(0x9, 3);
    MsbStep(0x4, 2);
    MsbStep(0x2, 1);
    MsbStep(0x1, 0);
    MsbStep(9, 6);
    MsbStep(4, 5);
    MsbStep(2, 4);
    MsbStep(1, 3);
  }

  lemma {:induction false} LettersCopied(n: nat)
    ensures CopyBytes([97], 1, n) == seq(n + 1, _ => 97)
    decreases n
  {
    if n > 0 {
      LettersCopied(n - 1);
    }
  }

  const TWELVE_TOKENS: seq<Token> := [Literal(97), Copy(8, 0, 0, 0)]

  lemma OneMore(out: seq<Byte>, t: Token, ts: seq<Token>)
    requires CanExpand(out, t) && CanExpandAll(ExpandToken(out, t), ts)
    ensures CanExpandAll(out, [t] + ts) && Expand(out, [t] + ts) == Expand(ExpandToken(out, t), ts)
  {
    assert ([t] + ts)[1..] == ts;
  }

  lemma NoMore(out: seq<Byte>)
    ensures CanExpandAll(out, []) && Expand(out, []) == out
  {
  }

  lemma TwelveValid()
    ensures Literal(97).Valid()
    ensures var copy := Copy(8, 0, 0, 0); copy.Valid() && copy.Length() == 11 && copy.Distance() == 1
  {
    SmallPowers();
    hide Pow2;
  }

  lemma TwelveExpands()
    ensures CanExpandAll([], TWELVE_TOKENS) && Expand([], TWELVE_TOKENS) == seq(12, _ => 97)
  {
    TwelveValid();
    LettersCopied(11);
    hide CopyBytes, Token.Valid, Token.Length, Token.Distance, CanExpandAll, Expand;
    var copy := Copy(8, 0, 0, 0);
    NoMore(CopyBytes([97], 1, 11));
    OneMore([97], copy, []);
    assert [copy] + [] == [copy] && [] + [97] == [97];
    OneMore([], Literal(97), [copy]);
    assert [Literal(97)] + [copy] == TWELVE_TOKENS;
  }

  lemma TwelveEncodable()
    ensures Encodable(FixedLiterals(), FixedDistances(), TWELVE_TOKENS)
  {
    TwelveCodes();
    TwelveValid();
    hide Token.Valid, FixedLiterals, FixedDistances, Code;
    assert forall i :: 0 <= i < 2 ==> HasCodes(FixedLiterals(), FixedDistances(), TWELVE_TOKENS[i]);
  }

  lemma TokenFirst(ll: Lengths, dl: Lengths, ts: seq<Token>)
    requires Encodable(ll, dl, ts)
    ensures ts == [] ==> EncodeTokens(ll, dl, ts) == Code(ll, END_OF_BLOCK)
    ensures ts != [] ==> EncodeTokens(ll, dl, ts) == EncodeToken(ll, dl, ts[0]) + EncodeTokens(ll, dl, ts[1..])
  {
    hide Code, EncodeToken;
  }

  lemma TwelveTails()
    ensures Encodable(FixedLiterals(), FixedDistances(), TWELVE_TOKENS[1..])
    ensures Encodable(FixedLiterals(), FixedDistances(), TWELVE_TOKENS[1..][1..])
  {
    TwelveEncodable();
    hide FixedLiterals, FixedDistances, HasCodes;
    assert TWELVE_TOKENS[1..][0] == TWELVE_TOKENS[1];
  }

  lemma LetterEncoded()
    requires HasCodes(FixedLiterals(), FixedDistances(), Literal(97))
    ensures EncodeToken(FixedLiterals(), FixedDistances(), Literal(97)) == Code(FixedLiterals(), 97)
  {
    hide Code, FixedLiterals, FixedDistances;
  }

  lemma CopyEncoded()
    requires HasCodes(FixedLiterals(), FixedDistances(), Copy(8, 0, 0, 0))
    ensures EncodeToken(FixedLiterals(), FixedDistances(), Copy(8, 0, 0, 0)) ==
            Code(FixedLiterals(), 265) + [false] + Code(FixedDistances(), 0)
  {
    LengthBits(8);
    DistanceBits(0);
    SmallBits();
    hide Code, FixedLiterals, FixedDistances, LsbBits, LENGTH_EXTRA, DIST_EXTRA;
  }

  // What the tokens' codes and extra bits are.
  lemma TwelveEncoded()
    ensures Encodable(FixedLiterals(), FixedDistances(), TWELVE_TOKENS)
    ensures EncodeTokens(FixedLiterals(), FixedDistances(), TWELVE_TOKENS) ==
            Code(FixedLiterals(), 97) + (Code(FixedLiterals(), 265) + [false] + Code(FixedDistances(), 0) + Code(FixedLiterals(), 256))
  {
    hide Code, FixedLiterals, FixedDistances, EncodeToken, EncodeTokens, HasCodes;
    TwelveEncodable();
    TwelveTails();
    var ll, dl, copy := FixedLiterals(), FixedDistances(), Copy(8, 0, 0, 0);
    TokenFirst(ll, dl, TWELVE_TOKENS);
    TokenFirst(ll, dl, TWELVE_TOKENS[1..]);
    TokenFirst(ll, dl, TWELVE_TOKENS[1..][1..]);
    assert TWELVE_TOKENS[1..][0] == copy;
    assert HasCodes(ll, dl, TWELVE_TOKENS[0]) && HasCodes(ll, dl, TWELVE_TOKENS[1]);
    LetterEncoded();
    CopyEncoded();
    assert TWELVE_TOKENS[1..][1..] == [];
  }

  lemma SmallBits()
    ensures LsbBits(1, 2) == [true, false] && LsbBits(0, 1) == [false] && LsbBits(0, 0) == []
  {
    assert LsbBits(0, 0) == [] && LsbBits(0, 1) == [false];
  }

  lemma TwelveSpelled()
    ensures Encodable(FixedLiterals(), FixedDistances(), TWELVE_TOKENS)
    ensures [true] + (LsbBits(1, 2) + EncodeTokens(FixedLiterals(), FixedDistances(), TWELVE_TOKENS)) == ToBits(TWELVE)[..31]
  {
    hide Code, FixedLiterals, FixedDistances, EncodeTokens, LsbBits, ToBits, Encodable, ByteBits;
    TwelveEncoded();
    TwelveCodes();
    SmallBits();
    FourBytes(TWELVE);
    TwelveBytes();
  }

  // The source's decoder makes twelve letters of the four bytes.
  lemma TwelveLetters()
    ensures Inflate(TWELVE) == Done(31, seq(12, _ => 97))
  {
    var b := Fixed(TWELVE_TOKENS);
    TwelveExpands();
    TwelveSpelled();
    hide LsbBits, EncodeTokens, Expand, CanExpandAll, Encodable, FixedLiterals, FixedDistances, ToBits, ReadBlocks, Inflate;
    assert [b][1..] == [];
    assert ValidBlocks([b], 0, []);
    assert EncodeBlocks([b], 0, []) == [true] + EncodeBlock(b, 0, []) + [];
    assert Spells([b], TWELVE, 31, seq(12, _ => 97));
    InflateExact(TWELVE, 31, seq(12, _ => 97));
  }
}
