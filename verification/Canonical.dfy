// Canonical Huffman codes (section 3.2.2 of RFC 1951) and the decoding table built for them.
module Canonical {
  import opened Bits

  const MAX_LENGTH: nat := 15
  const MAX_SYMBOLS: nat := 288

  // The code length of every symbol of an alphabet; 0 marks an unused symbol.
  type Lengths = ls: seq<nat> | |ls| <= MAX_SYMBOLS && forall i :: 0 <= i < |ls| ==> ls[i] <= MAX_LENGTH

  // How many symbols have length l.
  function Count(ls: seq<nat>, l: nat): (n: nat)
    ensures n <= |ls|
  {
    if ls == [] then 0
    else Count(ls[..|ls| - 1], l) + (if ls[|ls| - 1] == l then 1 else 0)
  }

  // The position of symbol s among the symbols of its own length.
  function Rank(ls: seq<nat>, s: nat): nat
    requires s < |ls|
  {
    Count(ls[..s], ls[s])
  }

  // The numerically smallest code of length l.
  function First(ls: seq<nat>, l: nat): nat
    requires l >= 1
    decreases l, |ls|
  {
    if l == 1 then 0 else 2 * (First(ls, l - 1) + Count(ls, l - 1))
  }

  // How many used symbols have a length below l.
  function Offset(ls: seq<nat>, l: nat): nat
    requires l >= 1
    decreases l, |ls|
  {
    if l == 1 then 0 else Offset(ls, l - 1) + Count(ls, l - 1)
  }

  // Where the table keeps symbol s: symbols sorted by length, then by number.
  function Slot(ls: seq<nat>, s: nat): nat
    requires s < |ls| && ls[s] >= 1
  {
    Offset(ls, ls[s]) + Rank(ls, s)
  }

  function CodeNumber(ls: seq<nat>, s: nat): nat
    requires s < |ls| && ls[s] >= 1
  {
    First(ls, ls[s]) + Rank(ls, s)
  }

  // The code of a used symbol, packed most significant bit first.
  function Code(ls: seq<nat>, s: nat): (bits: seq<bool>)
    requires s < |ls| && ls[s] >= 1
    ensures |bits| == ls[s]
  {
    MsbBits(CodeNumber(ls, s), ls[s])
  }

  // The Kraft sum of the lengths, in units of 2^-15.
  function Kraft(ls: seq<nat>): nat
    requires forall i :: 0 <= i < |ls| ==> ls[i] <= MAX_LENGTH
  {
    if ls == [] then 0
    else
      var l := ls[|ls| - 1];
      Kraft(ls[..|ls| - 1]) + (if l == 0 then 0 else Pow2(MAX_LENGTH - l))
  }

  // Codes of length l still free after the shorter ones are handed out; negative when over-subscribed.
  function Left(ls: seq<nat>, l: nat): int
    decreases l, |ls|
  {
    if l == 0 then 1 else 2 * Left(ls, l - 1) - Count(ls, l)
  }

  // ---------- Counting ----------

  lemma {:induction false} CountPrefix(ls: seq<nat>, i: nat, j: nat, l: nat)
    requires i <= j <= |ls|
    ensures Count(ls[..i], l) <= Count(ls[..j], l)
  {
    if i < j {
      CountPrefix(ls, i, j - 1, l);
      assert ls[..j][..j - 1] == ls[..j - 1];
    }
  }

  lemma CountStep(ls: seq<nat>, i: nat, l: nat)
    requires i < |ls|
    ensures Count(ls[..i + 1], l) == Count(ls[..i], l) + (if ls[i] == l then 1 else 0)
  {
    assert ls[..i + 1][..i] == ls[..i];
  }

  lemma RankStrict(ls: seq<nat>, s: nat, t: nat)
    requires s < t < |ls| && ls[s] == ls[t]
    ensures Rank(ls, s) < Rank(ls, t)
  {
    CountStep(ls, s, ls[s]);
    CountPrefix(ls, s + 1, t, ls[s]);
  }

  lemma RankBelowCount(ls: seq<nat>, s: nat)
    requires s < |ls|
    ensures Rank(ls, s) < Count(ls, ls[s])
  {
    CountStep(ls, s, ls[s]);
    CountPrefix(ls, s + 1, |ls|, ls[s]);
    assert ls[..|ls|] == ls;
  }

  // Every rank below the count belongs to some symbol.
  lemma {:induction false} SymbolOfRank(ls: seq<nat>, l: nat, r: nat) returns (s: nat)
    requires r < Count(ls, l)
    ensures s < |ls| && ls[s] == l && Rank(ls, s) == r
  {
    var n := |ls| - 1;
    var init := ls[..n];
    if r < Count(init, l) {
      s := SymbolOfRank(init, l, r);
      assert init[..s] == ls[..s];
    } else {
      s := n;
    }
  }

  lemma {:induction false} OffsetMonotone(ls: seq<nat>, l: nat, m: nat)
    requires 1 <= l <= m
    ensures Offset(ls, l) <= Offset(ls, m)
  {
    if l < m {
      OffsetMonotone(ls, l, m - 1);
    }
  }

  lemma {:induction false} OffsetPush(ls: seq<nat>, x: nat, l: nat)
    requires l >= 1
    ensures Offset(ls + [x], l) == Offset(ls, l) + (if 1 <= x < l then 1 else 0)
  {
    if l > 1 {
      OffsetPush(ls, x, l - 1);
      assert (ls + [x])[..|ls|] == ls;
    }
  }

  lemma {:induction false} OffsetBound(ls: seq<nat>, l: nat)
    requires l >= 1
    ensures Offset(ls, l) <= |ls|
  {
    if ls == [] {
      OffsetEmpty(l);
    } else {
      var n := |ls| - 1;
      OffsetBound(ls[..n], l);
      OffsetPush(ls[..n], ls[n], l);
      assert ls[..n] + [ls[n]] == ls;
    }
  }

  lemma {:induction false} OffsetEmpty(l: nat)
    requires l >= 1
    ensures Offset([], l) == 0
  {
    if l > 1 {
      OffsetEmpty(l - 1);
    }
  }

  lemma SlotBound(ls: Lengths, s: nat)
    requires s < |ls| && ls[s] >= 1
    ensures Slot(ls, s) < Offset(ls, ls[s] + 1) <= |ls|
  {
    RankBelowCount(ls, s);
    OffsetBound(ls, ls[s] + 1);
  }

  // No two used symbols share a table slot.
  lemma SlotsDiffer(ls: Lengths, s: nat, t: nat)
    requires s < t < |ls| && ls[s] >= 1 && ls[t] >= 1
    ensures Slot(ls, s) != Slot(ls, t)
  {
    SlotBound(ls, s);
    SlotBound(ls, t);
    if ls[s] == ls[t] {
      RankStrict(ls, s, t);
    } else if ls[s] < ls[t] {
      OffsetMonotone(ls, ls[s] + 1, ls[t]);
    } else {
      OffsetMonotone(ls, ls[t] + 1, ls[s]);
    }
  }

  // ---------- The Kraft sum ----------

  lemma {:induction false} LeftPush(ls: seq<nat>, x: nat, l: nat)
    ensures Left(ls + [x], l) == Left(ls, l) - (if 1 <= x <= l then Pow2(l - x) else 0)
  {
    if l > 0 {
      LeftPush(ls, x, l - 1);
      assert (ls + [x])[..|ls|] == ls;
    }
  }

  lemma {:induction false} LeftEmpty(l: nat)
    ensures Left([], l) == Pow2(l)
  {
    if l > 0 {
      LeftEmpty(l - 1);
    }
  }

  // The running count of free codes ends at one minus the Kraft sum.
  lemma {:induction false} LeftIsKraft(ls: Lengths)
    ensures Left(ls, MAX_LENGTH) == Pow2(MAX_LENGTH) - Kraft(ls)
  {
    if ls == [] {
      LeftEmpty(MAX_LENGTH);
    } else {
      var n := |ls| - 1;
      LeftIsKraft(ls[..n]);
      LeftPush(ls[..n], ls[n], MAX_LENGTH);
      assert ls[..n] + [ls[n]] == ls;
    }
  }

  lemma {:induction false} LeftStaysNegative(ls: seq<nat>, l: nat, m: nat)
    requires l <= m && Left(ls, l) < 0
    ensures Left(ls, m) < 0
  {
    if l < m {
      LeftStaysNegative(ls, l, m - 1);
    }
  }

  lemma {:induction false} FirstPlusLeft(ls: seq<nat>, l: nat)
    requires l >= 1
    ensures First(ls, l) + Count(ls, l) + Left(ls, l) == Pow2(l)
  {
    if l == 1 {
      assert Left(ls, 0) == 1;
    } else {
      FirstPlusLeft(ls, l - 1);
    }
  }

  // Under a Kraft sum of at most one every code number fits its length.
  lemma CodeFits(ls: Lengths, s: nat)
    requires Kraft(ls) <= Pow2(MAX_LENGTH)
    requires s < |ls| && ls[s] >= 1
    ensures CodeNumber(ls, s) < Pow2(ls[s])
    ensures MsbVal(Code(ls, s)) == CodeNumber(ls, s)
  {
    LeftIsKraft(ls);
    if Left(ls, ls[s]) < 0 {
      LeftStaysNegative(ls, ls[s], MAX_LENGTH);
    }
    FirstPlusLeft(ls, ls[s]);
    RankBelowCount(ls, s);
    MsbBitsVal(CodeNumber(ls, s), ls[s]);
  }

  // ---------- Reading a code ----------

  // The number spelled by the n bits from p, most significant first.
  function Prefix(bits: seq<bool>, p: nat, n: nat): nat
    requires p + n <= |bits|
  {
    MsbVal(bits[p..p + n])
  }

  // The bits at p are the code of symbol s.
  ghost predicate CodeAt(ls: seq<nat>, s: nat, bits: seq<bool>, p: nat) {
    && s < |ls| && ls[s] >= 1 && p + ls[s] <= |bits|
    && Prefix(bits, p, ls[s]) == CodeNumber(ls, s)
  }

  lemma PrefixPush(bits: seq<bool>, p: nat, n: nat)
    requires p + n < |bits|
    ensures Prefix(bits, p, n + 1) == 2 * Prefix(bits, p, n) + Bit(bits[p + n])
  {
    assert bits[p..p + n + 1][..n] == bits[p..p + n];
  }

  // The first bits of a longer code lie past every code of their own length.
  lemma {:induction false} PastShorterCodes(ls: seq<nat>, bits: seq<bool>, p: nat, l: nat, m: nat)
    requires 1 <= l < m && p + m <= |bits|
    requires Prefix(bits, p, m) >= First(ls, m)
    ensures Prefix(bits, p, l) >= First(ls, l) + Count(ls, l)
    decreases m
  {
    PrefixPush(bits, p, m - 1);
    if l < m - 1 {
      PastShorterCodes(ls, bits, p, l, m - 1);
    }
  }

  // The code is prefix-free: the bits at p start with at most one symbol's code.
  lemma CodeAtUnique(ls: seq<nat>, s: nat, t: nat, bits: seq<bool>, p: nat)
    requires CodeAt(ls, s, bits, p) && CodeAt(ls, t, bits, p)
    ensures s == t
  {
    RankBelowCount(ls, s);
    RankBelowCount(ls, t);
    if ls[s] < ls[t] {
      PastShorterCodes(ls, bits, p, ls[s], ls[t]);
    } else if ls[t] < ls[s] {
      PastShorterCodes(ls, bits, p, ls[t], ls[s]);
    } else if s < t {
      RankStrict(ls, s, t);
    } else if t < s {
      RankStrict(ls, t, s);
    }
  }

  lemma CodeAtIsCode(ls: Lengths, s: nat, bits: seq<bool>, p: nat)
    requires Kraft(ls) <= Pow2(MAX_LENGTH)
    ensures CodeAt(ls, s, bits, p) <==>
            s < |ls| && ls[s] >= 1 && p + ls[s] <= |bits| && bits[p..p + ls[s]] == Code(ls, s)
  {
    if s < |ls| && ls[s] >= 1 && p + ls[s] <= |bits| {
      CodeFits(ls, s);
      MsbValBits(bits[p..p + ls[s]]);
    }
  }

  datatype Reading = Symbol(sym: nat, end: nat) | Ended | Unassigned

  // What reading one symbol at p yields: the symbol whose code is there, if any; otherwise the bits
  // either run out within the longest length or belong to no symbol.
  ghost function ReadSymbol(ls: seq<nat>, bits: seq<bool>, p: nat): (r: Reading)
    requires p <= |bits|
    ensures r.Symbol? ==> CodeAt(ls, r.sym, bits, p) && p < r.end == p + ls[r.sym] <= |bits|
  {
    if exists s: nat :: CodeAt(ls, s, bits, p) then
      var s: nat :| CodeAt(ls, s, bits, p);
      Symbol(s, p + ls[s])
    else if |bits| < p + MAX_LENGTH then Ended
    else Unassigned
  }

  // No symbol of a length up to m has its code at p.
  ghost predicate NoneUpTo(ls: seq<nat>, bits: seq<bool>, p: nat, m: nat)
    requires p + m <= |bits|
  {
    forall l {:trigger Prefix(bits, p, l)} :: 1 <= l <= m ==> Prefix(bits, p, l) >= First(ls, l) + Count(ls, l)
  }

  lemma NoSymbol(ls: Lengths, bits: seq<bool>, p: nat, m: nat)
    requires p + m <= |bits| && m <= MAX_LENGTH && NoneUpTo(ls, bits, p, m)
    requires m == MAX_LENGTH || p + m == |bits|
    ensures ReadSymbol(ls, bits, p) == (if m == MAX_LENGTH then Unassigned else Ended)
  {
    forall s | CodeAt(ls, s, bits, p)
      ensures false
    {
      RankBelowCount(ls, s);
    }
  }

  // Reading resolved at length l: the code number says which symbol, and the table holds it.
  lemma SymbolFound(ls: Lengths, bits: seq<bool>, p: nat, l: nat) returns (s: nat)
    requires 1 <= l <= MAX_LENGTH && p + l <= |bits|
    requires First(ls, l) <= Prefix(bits, p, l) < First(ls, l) + Count(ls, l)
    ensures s < |ls| && ls[s] == l && ReadSymbol(ls, bits, p) == Symbol(s, p + l)
    ensures Slot(ls, s) == Offset(ls, l) + Prefix(bits, p, l) - First(ls, l)
  {
    s := SymbolOfRank(ls, l, Prefix(bits, p, l) - First(ls, l));
    ReadSymbolIs(ls, s, bits, p);
  }

  lemma ReadSymbolIs(ls: seq<nat>, s: nat, bits: seq<bool>, p: nat)
    requires p <= |bits| && CodeAt(ls, s, bits, p)
    ensures ReadSymbol(ls, bits, p) == Symbol(s, p + ls[s])
  {
    CodeAtUnique(ls, s, ReadSymbol(ls, bits, p).sym, bits, p);
  }

  // ---------- The decoding table ----------

  class Huffman {
    const counts: array<nat>
    const symbols: array<nat>

    ghost predicate Shape() {
      counts.Length == 16 && symbols.Length == MAX_SYMBOLS && counts != symbols
    }

    // The table decodes the canonical code of ls. Slots of no symbol are left unset.
    ghost predicate Holds(ls: Lengths)
      reads counts, symbols
    {
      && Shape()
      && (forall l :: 0 <= l <= MAX_LENGTH ==> counts[l] == Count(ls, l))
      && SymbolsPlaced(ls, |ls|)
    }

    // The used symbols below n are in their slots.
    ghost predicate SymbolsPlaced(ls: Lengths, n: nat)
      requires n <= |ls| && Shape()
      reads symbols
    {
      forall s :: 0 <= s < n && ls[s] >= 1 ==>
        Slot(ls, s) < MAX_SYMBOLS && symbols[Slot(ls, s)] == s
    }

    constructor ()
      ensures Shape() && fresh(this) && fresh(counts) && fresh(symbols)
    {
      counts := new nat[16];
      symbols := new nat[MAX_SYMBOLS];
    }

    // Fills the table from code lengths; refuses exactly the over-subscribed ones.
    method Build(lengths: Lengths) returns (ok: bool)
      requires Shape()
      modifies counts, symbols
      ensures ok <==> Kraft(lengths) <= Pow2(MAX_LENGTH)
      ensures ok ==> Holds(lengths)
    {
      CountLengths(lengths);
      if counts[0] == |lengths| {
        AllUnused(lengths);
        return true;
      }
      LeftIsKraft(lengths);
      var left: int := 1;
      var len := 1;
      while len < 16
        invariant 1 <= len <= 16
        invariant left == Left(lengths, len - 1) >= 0
      {
        left := left * 2;
        left := left - counts[len];
        if left < 0 {
          LeftStaysNegative(lengths, len, MAX_LENGTH);
          return false;
        }
        len := len + 1;
      }
      PlaceSymbols(lengths);
      return true;
    }

    method CountLengths(lengths: Lengths)
      requires Shape()
      modifies counts
      ensures forall l :: 0 <= l <= MAX_LENGTH ==> counts[l] == Count(lengths, l)
    {
      forall l | 0 <= l < 16 {
        counts[l] := 0;
      }
      var i := 0;
      while i < |lengths|
        invariant 0 <= i <= |lengths|
        invariant forall l :: 0 <= l <= MAX_LENGTH ==> counts[l] == Count(lengths[..i], l)
      {
        forall l | 0 <= l <= MAX_LENGTH
          ensures Count(lengths[..i + 1], l) == Count(lengths[..i], l) + (if lengths[i] == l then 1 else 0)
        {
          CountStep(lengths, i, l);
        }
        counts[lengths[i]] := counts[lengths[i]] + 1;
        i := i + 1;
      }
      assert lengths[..i] == lengths;
    }

    // offsets[l] is the next free slot among the symbols of length l, once those below i are placed.
    ghost predicate Cursor(offsets: seq<nat>, lengths: Lengths, i: nat)
      requires i <= |lengths|
    {
      && |offsets| == 16
      && forall l :: 1 <= l <= MAX_LENGTH ==> offsets[l] == Offset(lengths, l) + Count(lengths[..i], l)
    }

    method FirstOffsets(lengths: Lengths) returns (offsets: array<nat>)
      requires Shape()
      requires forall l :: 0 <= l <= MAX_LENGTH ==> counts[l] == Count(lengths, l)
      ensures fresh(offsets) && Cursor(offsets[..], lengths, 0)
    {
      offsets := new nat[16];
      offsets[1] := 0;
      var len := 1;
      while len < 15
        invariant 1 <= len <= 15
        invariant forall l :: 1 <= l <= len ==> offsets[l] == Offset(lengths, l)
        modifies offsets
      {
        offsets[len + 1] := offsets[len] + counts[len];
        len := len + 1;
      }
    }

    method PlaceSymbol(lengths: Lengths, i: nat, offsets: array<nat>)
      requires Shape() && offsets != symbols
      requires i < |lengths| && lengths[i] != 0
      requires Cursor(offsets[..], lengths, i) && SymbolsPlaced(lengths, i)
      modifies offsets, symbols
      ensures Cursor(offsets[..], lengths, i + 1) && SymbolsPlaced(lengths, i + 1)
    {
      SlotBound(lengths, i);
      forall s | 0 <= s < i && lengths[s] >= 1
        ensures Slot(lengths, s) != Slot(lengths, i)
      {
        SlotsDiffer(lengths, s, i);
      }
      forall l | 1 <= l <= MAX_LENGTH
        ensures Count(lengths[..i + 1], l) == Count(lengths[..i], l) + (if lengths[i] == l then 1 else 0)
      {
        CountStep(lengths, i, l);
      }
      symbols[offsets[lengths[i]]] := i;
      offsets[lengths[i]] := offsets[lengths[i]] + 1;
    }

    method PlaceSymbols(lengths: Lengths)
      requires Shape()
      requires forall l :: 0 <= l <= MAX_LENGTH ==> counts[l] == Count(lengths, l)
      modifies symbols
      ensures Holds(lengths)
    {
      var offsets := FirstOffsets(lengths);
      var i := 0;
      while i < |lengths|
        invariant 0 <= i <= |lengths|
        invariant Cursor(offsets[..], lengths, i) && SymbolsPlaced(lengths, i)
        modifies offsets, symbols
      {
        if lengths[i] != 0 {
          PlaceSymbol(lengths, i, offsets);
        } else {
          forall l | 1 <= l <= MAX_LENGTH
            ensures Count(lengths[..i + 1], l) == Count(lengths[..i], l)
          {
            CountStep(lengths, i, l);
          }
        }
        i := i + 1;
      }
    }
  }

  lemma {:induction false} AllUnused(ls: Lengths)
    requires Count(ls, 0) == |ls|
    ensures Kraft(ls) == 0
    ensures forall s :: 0 <= s < |ls| ==> ls[s] == 0
  {
    if ls != [] {
      AllUnused(ls[..|ls| - 1]);
      assert forall s :: 0 <= s < |ls| - 1 ==> ls[s] == ls[..|ls| - 1][s];
    }
  }
}
