// Bytes, powers of two, machine-word operations and bit strings.
module Bits {
  import opened Arithmetic

  type Byte = b: int | 0 <= b < 256

  function Pow2(n: nat): (r: nat)
    ensures r > 0
  {
    if n == 0 then 1 else 2 * Pow2(n - 1)
  }

  lemma {:induction false} Pow2Monotone(a: nat, b: nat)
    requires a <= b
    ensures Pow2(a) <= Pow2(b)
  {
    if a < b {
      Pow2Monotone(a, b - 1);
    }
  }

  lemma Pow2Constants()
    ensures Pow2(0) == 1 && Pow2(1) == 2 && Pow2(2) == 4 && Pow2(3) == 8 && Pow2(4) == 16 && Pow2(5) == 32
    ensures Pow2(7) == 128 && Pow2(8) == 256 && Pow2(13) == 8192
    ensures Pow2(15) == 32768 && Pow2(16) == 65536 && Pow2(32) == 0x1_0000_0000
  {
    assert Pow2(16) == 65536;
    assert Pow2(24) == 0x100_0000;
  }

  // ---------- Unsigned word operations, bit by bit ----------

  // a shifted left by k places, without a word's upper limit.
  function ShiftLeft(a: nat, k: nat): nat {
    if k == 0 then a else 2 * ShiftLeft(a, k - 1)
  }

  function ShiftRight(a: nat, k: nat): nat {
    if k == 0 then a else ShiftRight(a / 2, k - 1)
  }

  // The k low bits of a.
  function LowBits(a: nat, k: nat): nat {
    if k == 0 then 0 else a % 2 + 2 * LowBits(a / 2, k - 1)
  }

  function Or(a: nat, b: nat): nat {
    if a == 0 && b == 0 then 0
    else (if a % 2 == 1 || b % 2 == 1 then 1 else 0) + 2 * Or(a / 2, b / 2)
  }

  function And(a: nat, b: nat): nat {
    if a == 0 || b == 0 then 0
    else (if a % 2 == 1 && b % 2 == 1 then 1 else 0) + 2 * And(a / 2, b / 2)
  }

  function Xor(a: nat, b: nat): nat {
    if a == 0 && b == 0 then 0
    else (if a % 2 != b % 2 then 1 else 0) + 2 * Xor(a / 2, b / 2)
  }

  lemma {:induction false} ShiftLeftMul(a: nat, k: nat)
    ensures ShiftLeft(a, k) == Pow2(k) * a
  {
    if k > 0 {
      ShiftLeftMul(a, k - 1);
      assert Pow2(k) * a == 2 * (Pow2(k - 1) * a);
    }
  }

  lemma {:induction false} ShiftLeftBound(a: nat, j: nat, k: nat)
    requires a < Pow2(j)
    ensures ShiftLeft(a, k) < Pow2(j + k)
  {
    if k > 0 {
      ShiftLeftBound(a, j, k - 1);
    }
  }

  // A number cut at a bit position: the parts are what masking and shifting give.
  lemma {:induction false} CutAt(lo: nat, hi: nat, k: nat)
    requires lo < Pow2(k)
    ensures ShiftRight(lo + ShiftLeft(hi, k), k) == hi
    ensures LowBits(lo + ShiftLeft(hi, k), k) == lo
  {
    if k > 0 {
      var c := ShiftLeft(hi, k - 1);
      assert (lo + 2 * c) / 2 == lo / 2 + c && (lo + 2 * c) % 2 == lo % 2;
      CutAt(lo / 2, hi, k - 1);
    }
  }

  lemma {:induction false} JoinAt(a: nat, k: nat)
    ensures a == LowBits(a, k) + ShiftLeft(ShiftRight(a, k), k)
    ensures LowBits(a, k) < Pow2(k)
  {
    if k > 0 {
      JoinAt(a / 2, k - 1);
    }
  }

  lemma {:induction false} OrZero(a: nat)
    ensures Or(a, 0) == a && Or(0, a) == a
  {
    if a > 0 {
      OrZero(a / 2);
    }
  }

  // OR-ing in a number shifted past the top bit of the other is addition.
  lemma {:induction false} OrDisjoint(a: nat, b: nat, k: nat)
    requires a < Pow2(k)
    ensures Or(a, ShiftLeft(b, k)) == a + ShiftLeft(b, k)
  {
    if k == 0 {
      OrZero(b);
    } else {
      OrDisjoint(a / 2, b, k - 1);
    }
  }

  // AND with a mask of n ones keeps the n low bits.
  lemma {:induction false} AndMask(a: nat, n: nat)
    ensures And(a, Pow2(n) - 1) == LowBits(a, n)
  {
    if n > 0 {
      AndMask(a / 2, n - 1);
      var half := Pow2(n - 1) - 1;
      assert Pow2(n) - 1 == 1 + 2 * half;
      assert (1 + 2 * half) / 2 == half && (1 + 2 * half) % 2 == 1;
    }
  }

  lemma AndMaskMod(a: nat, n: nat)
    ensures And(a, Pow2(n) - 1) == a % Pow2(n)
  {
    hide And, LowBits, ShiftLeft, ShiftRight, Pow2;
    AndMask(a, n);
    JoinAt(a, n);
    ShiftLeftMul(ShiftRight(a, n), n);
    DivModUnique(a, Pow2(n), ShiftRight(a, n), LowBits(a, n));
  }

  lemma {:induction false} XorZero(a: nat)
    ensures Xor(a, 0) == a && Xor(0, a) == a
  {
    if a > 0 {
      XorZero(a / 2);
    }
  }

  lemma {:induction false} XorSelf(a: nat)
    ensures Xor(a, a) == 0
  {
    if a > 0 {
      XorSelf(a / 2);
    }
  }

  lemma {:induction false} XorCommutes(a: nat, b: nat)
    ensures Xor(a, b) == Xor(b, a)
  {
    if a > 0 || b > 0 {
      XorCommutes(a / 2, b / 2);
    }
  }

  lemma XorSplit(a: nat, b: nat)
    ensures Xor(a, b) % 2 == (if a % 2 != b % 2 then 1 else 0)
    ensures Xor(a, b) / 2 == Xor(a / 2, b / 2)
  {
  }

  lemma {:induction false} XorAssociates(a: nat, b: nat, c: nat)
    ensures Xor(Xor(a, b), c) == Xor(a, Xor(b, c))
    decreases a + b + c
  {
    if a > 0 || b > 0 || c > 0 {
      XorAssociates(a / 2, b / 2, c / 2);
      XorSplit(a, b);
      XorSplit(Xor(a, b), c);
      XorSplit(b, c);
      XorSplit(a, Xor(b, c));
    }
  }

  // Exclusive-or of four terms may be regrouped.
  lemma XorRegroup(a: nat, b: nat, c: nat, d: nat)
    ensures Xor(Xor(a, b), Xor(c, d)) == Xor(Xor(a, c), Xor(b, d))
  {
    XorAssociates(a, b, Xor(c, d));
    XorAssociates(b, c, d);
    XorCommutes(b, c);
    XorAssociates(c, b, d);
    XorAssociates(a, c, Xor(b, d));
  }

  lemma {:induction false} XorBound(a: nat, b: nat, k: nat)
    requires a < Pow2(k) && b < Pow2(k)
    ensures Xor(a, b) < Pow2(k)
  {
    if k > 0 {
      XorBound(a / 2, b / 2, k - 1);
    }
  }

  lemma {:induction false} XorDisjoint(a: nat, b: nat, k: nat)
    requires a < Pow2(k)
    ensures Xor(a, ShiftLeft(b, k)) == a + ShiftLeft(b, k)
  {
    if k == 0 {
      XorZero(b);
    } else {
      var half := ShiftLeft(b, k - 1);
      assert ShiftLeft(b, k) == 2 * half && Pow2(k) == 2 * Pow2(k - 1);
      hide Xor, ShiftLeft, Pow2;
      XorDisjoint(a / 2, b, k - 1);
      XorSplit(a, 2 * half);
    }
  }

  // ---------- Bit strings ----------

  function Bit(b: bool): nat {
    if b then 1 else 0
  }

  // The value of a bit string whose first bit is the least significant.
  function LsbVal(bits: seq<bool>): (v: nat)
    ensures v < Pow2(|bits|)
  {
    if bits == [] then 0 else Bit(bits[0]) + 2 * LsbVal(bits[1..])
  }

  // The value of a bit string whose first bit is the most significant.
  function MsbVal(bits: seq<bool>): (v: nat)
    ensures v < Pow2(|bits|)
  {
    if bits == [] then 0 else 2 * MsbVal(bits[..|bits| - 1]) + Bit(bits[|bits| - 1])
  }

  function LsbBits(v: nat, n: nat): (bits: seq<bool>)
    ensures |bits| == n
  {
    if n == 0 then [] else [v % 2 == 1] + LsbBits(v / 2, n - 1)
  }

  function MsbBits(v: nat, n: nat): (bits: seq<bool>)
    ensures |bits| == n
  {
    if n == 0 then [] else MsbBits(v / 2, n - 1) + [v % 2 == 1]
  }

  lemma {:induction false} LsbBitsVal(v: nat, n: nat)
    requires v < Pow2(n)
    ensures LsbVal(LsbBits(v, n)) == v
  {
    if n > 0 {
      LsbBitsVal(v / 2, n - 1);
      assert LsbBits(v, n)[1..] == LsbBits(v / 2, n - 1);
    }
  }

  lemma {:induction false} LsbValBits(bits: seq<bool>)
    ensures LsbBits(LsbVal(bits), |bits|) == bits
  {
    if bits != [] {
      LsbValBits(bits[1..]);
      assert [bits[0]] + bits[1..] == bits;
    }
  }

  lemma {:induction false} MsbBitsVal(v: nat, n: nat)
    requires v < Pow2(n)
    ensures MsbVal(MsbBits(v, n)) == v
  {
    if n > 0 {
      MsbBitsVal(v / 2, n - 1);
      assert MsbBits(v, n)[..n - 1] == MsbBits(v / 2, n - 1);
    }
  }

  lemma {:induction false} MsbValBits(bits: seq<bool>)
    ensures MsbBits(MsbVal(bits), |bits|) == bits
  {
    if bits != [] {
      var init, last := bits[..|bits| - 1], bits[|bits| - 1];
      MsbValBits(init);
      assert MsbVal(bits) / 2 == MsbVal(init) && (MsbVal(bits) % 2 == 1) == last;
      assert init + [last] == bits;
    }
  }

  lemma LsbValEmpty()
    ensures LsbVal([]) == 0
  {
  }

  lemma {:induction false} LsbValConcat(a: seq<bool>, b: seq<bool>)
    ensures LsbVal(a + b) == LsbVal(a) + ShiftLeft(LsbVal(b), |a|)
  {
    if a == [] {
      assert a + b == b;
    } else {
      LsbValConcat(a[1..], b);
      assert (a + b)[1..] == a[1..] + b;
    }
  }

  const BYTE_SIZE: nat := 8

  function ByteBits(b: Byte): (bits: seq<bool>)
    ensures |bits| == 8
  {
    LsbBits(b, BYTE_SIZE)
  }

  // The bits of a byte string, each byte least significant bit first
  // (section 3.1.1 of RFC 1951).
  function ToBits(bytes: seq<Byte>): (bits: seq<bool>)
    ensures |bits| == 8 * |bytes|
  {
    seq(8 * |bytes|, i requires 0 <= i < 8 * |bytes| => ByteBits(bytes[i / 8])[i % 8])
  }

  lemma ToBitsSlice(bytes: seq<Byte>, i: nat, j: nat)
    requires i <= j <= |bytes|
    ensures ToBits(bytes)[8 * i..8 * j] == ToBits(bytes[i..j])
  {
    var n := 8 * (j - i);
    forall k | 0 <= k < n
      ensures ToBits(bytes)[8 * i..8 * j][k] == ToBits(bytes[i..j])[k]
    {
      assert (8 * i + k) / 8 == i + k / 8 && (8 * i + k) % 8 == k % 8;
    }
  }

  lemma ToBitsAt(bytes: seq<Byte>, i: nat)
    requires i < |bytes|
    ensures ToBits(bytes)[8 * i..8 * i + 8] == ByteBits(bytes[i])
    ensures LsbVal(ToBits(bytes)[8 * i..8 * i + 8]) == bytes[i]
  {
    forall k | 0 <= k < 8
      ensures ToBits(bytes)[8 * i..8 * i + 8][k] == ByteBits(bytes[i])[k]
    {
      assert (8 * i + k) / 8 == i && (8 * i + k) % 8 == k;
      assert ToBits(bytes)[8 * i..8 * i + 8][k] == ToBits(bytes)[8 * i + k];
    }
    Pow2Constants();
    LsbBitsVal(bytes[i], BYTE_SIZE);
  }

  lemma ToBitsInjective(a: seq<Byte>, b: seq<Byte>)
    requires ToBits(a) == ToBits(b)
    ensures a == b
  {
    var bits := ToBits(a);
    assert |b| == |a|;
    forall i | 0 <= i < |a|
      ensures a[i] == b[i]
    {
      ToBitsAt(a, i);
      ToBitsAt(b, i);
      assert a[i] == LsbVal(bits[8 * i..8 * i + 8]) == b[i];
    }
  }
}
