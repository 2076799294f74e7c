// CRC-32 over byte strings: the table-driven form and the bitwise form it refines.
module Crc32 {
  import opened Bits

  const POLYNOMIAL := 0xedb88320
  const ALL_ONES := 0xffff_ffff

  type Word = w: int | 0 <= w < 0x1_0000_0000

  function XorWord(a: Word, b: Word): Word {
    Pow2Constants();
    XorBound(a, b, 32);
    Xor(a, b)
  }

  function Not(a: Word): Word {
    XorWord(a, ALL_ONES)
  }

  // One step of the bitwise algorithm (reflected polynomial).
  function Step(c: Word): Word {
    if c % 2 == 1 then XorWord(POLYNOMIAL, c / 2) else c / 2
  }

  function Steps(c: Word, k: nat): Word
    decreases k, c
  {
    if k == 0 then c else Steps(Step(c), k - 1)
  }

  // The register after a byte string, eight shifts for each byte.
  function Register(c: Word, data: seq<Byte>): Word {
    if data == [] then c
    else Steps(XorWord(Register(c, data[..|data| - 1]), data[|data| - 1]), BYTE_SIZE)
  }

  // Continuing the CRC `crc` of earlier bytes over `data`.
  function Crc(crc: Word, data: seq<Byte>): Word {
    Not(Register(Not(crc), data))
  }

  lemma NotNot(a: Word)
    ensures Not(Not(a)) == a
  {
    XorAssociates(a, ALL_ONES, ALL_ONES);
    XorSelf(ALL_ONES);
    XorZero(a);
  }

  lemma CrcEmpty()
    ensures Crc(0, []) == 0
  {
    NotNot(0);
  }

  lemma StepLinear(a: Word, b: Word)
    ensures Step(XorWord(a, b)) == XorWord(Step(a), Step(b))
  {
    var p := POLYNOMIAL;
    var x, y := a / 2, b / 2;
    XorSplit(a, b);
    if a % 2 == 1 && b % 2 == 1 {
      XorRegroup(p, x, p, y);
      XorSelf(p);
      XorZero(Xor(x, y));
    } else if a % 2 == 1 {
      XorAssociates(p, x, y);
    } else if b % 2 == 1 {
      XorAssociates(x, p, y);
      XorCommutes(x, p);
      XorAssociates(p, x, y);
    }
  }

  lemma {:induction false} StepsLinear(a: Word, b: Word, k: nat)
    ensures Steps(XorWord(a, b), k) == XorWord(Steps(a, k), Steps(b, k))
    decreases k
  {
    if k > 0 {
      StepLinear(a, b);
      StepsLinear(Step(a), Step(b), k - 1);
    }
  }

  // A register whose k low bits are clear is only shifted by k steps.
  lemma {:induction false} StepsShift(h: nat, k: nat)
    requires ShiftLeft(h, k) < 0x1_0000_0000
    ensures h < 0x1_0000_0000 && Steps(ShiftLeft(h, k), k) == h
    decreases k
  {
    if k > 0 {
      StepsShift(h, k - 1);
    }
  }

  // k bitwise steps depend on the k low bits alone, up to a shift.
  lemma ManySteps(low: Word, h: Word, k: nat)
    requires low < Pow2(k) && low + ShiftLeft(h, k) < 0x1_0000_0000
    ensures Steps(low + ShiftLeft(h, k), k) == XorWord(Steps(low, k), h)
  {
    XorDisjoint(low, h, k);
    StepsLinear(low, ShiftLeft(h, k), k);
    StepsShift(h, k);
  }

  // The step behind the lookup table.
  lemma EightSteps(x: Word)
    ensures Steps(x, BYTE_SIZE) == XorWord(Steps(x % 256, BYTE_SIZE), x / 256)
  {
    Pow2Constants();
    ShiftLeftMul(x / 256, BYTE_SIZE);
    ManySteps(x % 256, x / 256, BYTE_SIZE);
  }

  lemma {:induction false} RegisterConcat(c: Word, a: seq<Byte>, b: seq<Byte>)
    ensures Register(c, a + b) == Register(Register(c, a), b)
    decreases |b|
  {
    if b == [] {
      assert a + b == a;
    } else {
      var n := |b| - 1;
      RegisterConcat(c, a, b[..n]);
      var ab := a + b;
      assert ab[..|ab| - 1] == a + b[..n] && ab[|ab| - 1] == b[n];
    }
  }

  // Chunk by chunk gives the CRC of the whole.
  lemma CrcConcat(crc: Word, a: seq<Byte>, b: seq<Byte>)
    ensures Crc(Crc(crc, a), b) == Crc(crc, a + b)
  {
    RegisterConcat(Not(crc), a, b);
    NotNot(Register(Not(crc), a));
  }

  // The word operations the table lookup uses, on a register XOR-ed with a byte.
  lemma LowByte(c: Word)
    ensures And(c, 255) == c % 256 && ShiftRight(c, BYTE_SIZE) == c / 256
  {
    Pow2Constants();
    ShiftLeftMul(c / 256, BYTE_SIZE);
    AndMask(c, BYTE_SIZE);
    CutAt(c % 256, c / 256, BYTE_SIZE);
  }

  lemma XorByte(c: Word, b: Byte)
    ensures XorWord(c, b) / 256 == c / 256
  {
    var low, h := c % 256, c / 256;
    Pow2Constants();
    ShiftLeftMul(h, BYTE_SIZE);
    XorDisjoint(low, h, BYTE_SIZE);
    XorAssociates(b, low, ShiftLeft(h, BYTE_SIZE));
    XorBound(b, low, BYTE_SIZE);
    XorDisjoint(Xor(b, low), h, BYTE_SIZE);
    XorCommutes(c, b);
  }

  // The lookup table, filled on first use.
  class Table {
    const entries: array<Word>
    var ready: bool

    ghost predicate Valid()
      reads this, entries
    {
      && entries.Length == 256
      && (ready ==> forall i :: 0 <= i < 256 ==> entries[i] == Steps(i, BYTE_SIZE))
    }

    constructor ()
      ensures Valid() && fresh(entries) && !ready
    {
      entries := new Word[256];
      ready := false;
    }

    static method Entry(i: Byte) returns (c: Word)
      ensures c == Steps(i, BYTE_SIZE)
    {
      c := i;
      var k := 0;
      while k < BYTE_SIZE
        invariant 0 <= k <= BYTE_SIZE
        invariant Steps(c, BYTE_SIZE - k) == Steps(i, BYTE_SIZE)
      {
        c := if c % 2 == 1 then XorWord(POLYNOMIAL, c / 2) else c / 2;
        k := k + 1;
      }
    }

    method Fill()
      requires Valid()
      modifies this`ready, entries
      ensures Valid() && ready
    {
      ready := false;
      var i := 0;
      while i < 256
        invariant 0 <= i <= 256 && !ready
        invariant forall j :: 0 <= j < i ==> entries[j] == Steps(j, BYTE_SIZE)
      {
        var c := Entry(i);
        entries[i] := c;
        i := i + 1;
      }
      ready := true;
    }

    method Update(crc: Word, data: seq<Byte>) returns (r: Word)
      requires Valid()
      modifies this`ready, entries
      ensures Valid()
      ensures r == Crc(crc, data)
    {
      if !ready {
        Fill();
      }
      var c := Not(crc);
      var i := 0;
      while i < |data|
        invariant 0 <= i <= |data|
        invariant ready && Valid()
        invariant c == Register(Not(crc), data[..i])
      {
        XorByte(c, data[i]);
        LowByte(c);
        LowByte(XorWord(c, data[i]));
        EightSteps(XorWord(c, data[i]));
        assert data[..i + 1][..i] == data[..i];
        c := XorWord(entries[And(XorWord(c, data[i]), 255)], ShiftRight(c, BYTE_SIZE));
        i := i + 1;
      }
      assert data[..i] == data;
      r := Not(c);
    }
  }
}
