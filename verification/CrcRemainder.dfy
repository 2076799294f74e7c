// The CRC as the remainder of a division of polynomials over the field of two elements. A polynomial is the set of the
// exponents it has.
module CrcRemainder {
  import opened Bits
  import opened Crc32

  type Poly = set<nat>

  // x^32 + x^26 + x^23 + x^22 + x^16 + x^12 + x^11 + x^10 + x^8 + x^7 + x^5 + x^4 + x^2 + x + 1.
  const DIVISOR: Poly := {32, 26, 23, 22, 16, 12, 11, 10, 8, 7, 5, 4, 2, 1, 0}

  function Plus(a: Poly, b: Poly): Poly {
    (a - b) + (b - a)
  }

  // Multiplied by x^k.
  function Raised(a: Poly, k: nat): Poly {
    set e | e in a :: e + k
  }

  // ---------- Bits ----------

  predicate BitAt(c: nat, i: nat) {
    if i == 0 then c % 2 == 1 else BitAt(c / 2, i - 1)
  }

  lemma {:induction false} BitOfXor(a: nat, b: nat, i: nat)
    ensures BitAt(Xor(a, b), i) <==> BitAt(a, i) != BitAt(b, i)
    decreases i
  {
    XorSplit(a, b);
    hide Xor;
    if i > 0 {
      BitOfXor(a / 2, b / 2, i - 1);
    }
  }

  lemma {:induction false} NoBitAbove(c: nat, k: nat, i: nat)
    requires c < Pow2(k) && k <= i
    ensures !BitAt(c, i)
    decreases i
  {
    if k == 0 {
      NoBits(i);
    } else if i > 0 {
      NoBitAbove(c / 2, k - 1, i - 1);
    }
  }

  lemma {:induction false} NoBits(i: nat)
    ensures !BitAt(0, i)
    decreases i
  {
    if i > 0 {
      NoBits(i - 1);
    }
  }

  // The register's polynomial: its lowest bit is the coefficient of x^31.
  function PolyOf(c: Word): Poly {
    set e: nat | e < 32 && Term(c, 32, e)
  }

  // x^e is in the polynomial of n bits whose lowest bit comes first.
  predicate Term(c: nat, n: nat, e: nat)
    requires e < n
  {
    BitAt(c, n - 1 - e)
  }

  // A byte's: the bit that comes first, the lowest, is the coefficient of x^7.
  function PolyOfByte(b: Byte): Poly {
    set e: nat | e < 8 && Term(b, 8, e)
  }

  // The constant of the code is the divisor without x^32.
  lemma ConstantIs()
    ensures PolyOf(POLYNOMIAL) == DIVISOR - {32}
  {
    var c: Word := POLYNOMIAL;
    forall e: nat | e < 32 ensures Term(c, 32, e) <==> e in DIVISOR {
      ConstantBit(31 - e);
    }
  }

  lemma FourBits(c: nat)
    ensures BitAt(c, 0) <==> c % 2 == 1
    ensures BitAt(c, 1) <==> c / 2 % 2 == 1
    ensures BitAt(c, 2) <==> c / 4 % 2 == 1
    ensures BitAt(c, 3) <==> c / 8 % 2 == 1
  {
    assert c / 2 / 2 == c / 4 && c / 4 / 2 == c / 8;
    assert BitAt(c, 2) == BitAt(c / 2, 1) == BitAt(c / 4, 0);
    assert BitAt(c, 3) == BitAt(c / 2, 2) == BitAt(c / 4, 1) == BitAt(c / 8, 0);
  }

  lemma DropFour(c: nat, i: nat)
    requires i >= 4
    ensures BitAt(c, i) <==> BitAt(c / 16, i - 4)
  {
    assert c / 2 / 2 == c / 4 && c / 4 / 2 == c / 8 && c / 8 / 2 == c / 16;
    assert BitAt(c, i) == BitAt(c / 2, i - 1) == BitAt(c / 4, i - 2) == BitAt(c / 8, i - 3);
  }

  lemma ConstantBit(i: nat)
    requires i < 32
    ensures BitAt(POLYNOMIAL, i) <==> (31 - i) in DIVISOR
  {
    hide BitAt;
    FourBits(0xedb88320);
    FourBits(0xedb8832);
    FourBits(0xedb883);
    FourBits(0xedb88);
    FourBits(0xedb8);
    FourBits(0xedb);
    FourBits(0xed);
    FourBits(0xe);
    if i >= 4 {
      DropFour(0xedb88320, i);
    }
    if i >= 8 {
      DropFour(0xedb8832, i - 4);
    }
    if i >= 12 {
      DropFour(0xedb883, i - 8);
    }
    if i >= 16 {
      DropFour(0xedb88, i - 12);
    }
    if i >= 20 {
      DropFour(0xedb8, i - 16);
    }
    if i >= 24 {
      DropFour(0xedb, i - 20);
    }
    if i >= 28 {
      DropFour(0xed, i - 24);
    }
  }

  // ---------- One step ----------

  // One step of the register multiplies by x and takes the divisor away if x^32 comes up.
  lemma StepPoly(c: Word)
    ensures PolyOf(Step(c)) == if 31 in PolyOf(c) then Plus(Raised(PolyOf(c), 1), DIVISOR) else Raised(PolyOf(c), 1)
  {
    var p := PolyOf(c);
    Pow2Constants();
    NoBitAbove(c, 32, 32);
    ConstantIs();
    var q := if 31 in p then Plus(Raised(p, 1), DIVISOR) else Raised(p, 1);
    assert Term(c, 32, 31) == BitAt(c, 0);
    forall e: nat | e < 32 ensures Term(Step(c), 32, e) <==> e in q {
      StepTerm(c, e);
      assert e in Raised(p, 1) <==> e >= 1 && (e - 1) in p;
      assert e in PolyOf(POLYNOMIAL) <==> Term(POLYNOMIAL, 32, e);
    }
    assert 32 in Raised(p, 1) <==> 31 in p;
    forall e | e in q ensures e < 32 {
      assert e in Raised(p, 1) || e in DIVISOR;
    }
  }

  lemma StepTerm(c: Word, e: nat)
    requires e < 32
    ensures Term(Step(c), 32, e) <==>
            ((e >= 1 && Term(c, 32, e - 1)) != (c % 2 == 1 && Term(POLYNOMIAL, 32, e)))
  {
    var i := 31 - e;
    Pow2Constants();
    NoBitAbove(c, 32, 32);
    BitOfXor(POLYNOMIAL, c / 2, i);
    assert BitAt(c, i + 1) == BitAt(c / 2, i);
  }

  // ---------- Multiples of the divisor ----------

  // The divisor times the polynomial q, taken up to exponents below n.
  function Times(q: Poly, n: nat): Poly
    decreases n
  {
    if n == 0 then {} else Plus(if n - 1 in q then Raised(DIVISOR, n - 1) else {}, Times(q, n - 1))
  }

  ghost predicate Multiple(a: Poly) {
    exists q, n :: a == Times(q, n)
  }

  // The same remainder.
  ghost predicate Congruent(a: Poly, b: Poly) {
    Multiple(Plus(a, b))
  }

  lemma PlusLaws(a: Poly, b: Poly, c: Poly)
    ensures Plus(a, b) == Plus(b, a) && Plus(Plus(a, b), c) == Plus(a, Plus(b, c)) && Plus(a, a) == {} && Plus(a, {}) == a
  {
  }

  lemma RaisedPlus(a: Poly, b: Poly, k: nat)
    ensures Raised(Plus(a, b), k) == Plus(Raised(a, k), Raised(b, k))
  {
    forall e ensures e in Raised(Plus(a, b), k) <==> e in Plus(Raised(a, k), Raised(b, k)) {
      RaisedTerm(a, k, e);
      RaisedTerm(b, k, e);
      RaisedTerm(Plus(a, b), k, e);
    }
  }

  lemma RaisedTerm(a: Poly, k: nat, e: nat)
    ensures e in Raised(a, k) <==> e >= k && (e - k) in a
  {
    if e >= k && (e - k) in a {
      assert (e - k) + k == e;
    }
  }

  lemma RaisedTwice(a: Poly, j: nat, k: nat)
    ensures Raised(Raised(a, j), k) == Raised(a, j + k) && Raised(a, 0) == a && Raised({}, k) == {}
  {
    forall e: nat ensures e in Raised(Raised(a, j), k) <==> e in Raised(a, j + k) {
      RaisedTerm(a, j + k, e);
      RaisedTerm(Raised(a, j), k, e);
      if e >= k {
        RaisedTerm(a, j, e - k);
      }
    }
    forall e: nat ensures e in Raised(a, 0) <==> e in a {
      RaisedTerm(a, 0, e);
    }
  }

  lemma {:induction false} TimesPlus(q: Poly, r: Poly, n: nat)
    ensures Plus(Times(q, n), Times(r, n)) == Times(Plus(q, r), n)
    decreases n
  {
    hide Raised;
    if n > 0 {
      TimesPlus(q, r, n - 1);
      var d, z: Poly := Raised(DIVISOR, n - 1), {};
      var a, b := if n - 1 in q then d else z, if n - 1 in r then d else z;
      var x, y := Times(q, n - 1), Times(r, n - 1);
      FourPlus(a, x, b, y);
    }
  }

  lemma FourPlus(a: Poly, b: Poly, c: Poly, d: Poly)
    ensures Plus(Plus(a, b), Plus(c, d)) == Plus(Plus(a, c), Plus(b, d))
  {
  }

  function Below(q: Poly, n: nat): Poly {
    set k | k in q && k < n
  }

  // Up to a greater bound, if q has no more exponents.
  lemma {:induction false} TimesFurther(q: Poly, n: nat, m: nat)
    requires n <= m
    ensures Times(q, n) == Times(Below(q, n), m)
    decreases m
  {
    hide Raised;
    var r := Below(q, n);
    if n < m {
      TimesFurther(q, n, m - 1);
      assert Plus({}, Times(r, m - 1)) == Times(r, m - 1);
    } else {
      TimesSame(q, r, n);
    }
  }

  lemma {:induction false} TimesSame(q: Poly, r: Poly, n: nat)
    requires forall k: nat :: k < n ==> (k in q <==> k in r)
    ensures Times(q, n) == Times(r, n)
    decreases n
  {
    hide Raised;
    if n > 0 {
      TimesSame(q, r, n - 1);
    }
  }

  lemma MultiplePlus(a: Poly, b: Poly)
    requires Multiple(a) && Multiple(b)
    ensures Multiple(Plus(a, b))
  {
    hide Times;
    var q, n :| a == Times(q, n);
    var r, m :| b == Times(r, m);
    var k := if n < m then m else n;
    TimesFurther(q, n, k);
    TimesFurther(r, m, k);
    TimesPlus(Below(q, n), Below(r, m), k);
  }

  lemma {:induction false} TimesRaised(q: Poly, n: nat)
    ensures Raised(Times(q, n), 1) == Times(Raised(q, 1), n + 1)
    decreases n
  {
    hide Raised;
    RaisedTwice({}, 0, 1);
    if n == 0 {
      RaisedTerm(q, 1, 0);
      assert Times(Raised(q, 1), 0) == {};
      assert Plus({}, {}) == {};
    } else {
      TimesRaised(q, n - 1);
      RaisedTerm(q, 1, n);
      var d, z: Poly := Raised(DIVISOR, n - 1), {};
      var a := if n - 1 in q then d else z;
      RaisedTwice(DIVISOR, n - 1, 1);
      RaisedPlus(a, Times(q, n - 1), 1);
    }
  }

  lemma {:induction false} MultipleRaised(a: Poly, k: nat)
    requires Multiple(a)
    ensures Multiple(Raised(a, k))
    decreases k
  {
    hide Times, Raised;
    RaisedTwice(a, 0, 0);
    if k > 0 {
      MultipleRaised(a, k - 1);
      var q, n :| Raised(a, k - 1) == Times(q, n);
      TimesRaised(q, n);
      RaisedTwice(a, k - 1, 1);
    }
  }

  lemma SmallMultiples()
    ensures Multiple({}) && Multiple(DIVISOR)
  {
    hide Raised, Plus;
    var q: Poly := {0};
    assert Times(q, 0) == {};
    RaisedTwice(DIVISOR, 0, 0);
    PlusLaws(DIVISOR, {}, {});
    assert Times(q, 1) == Plus(Raised(DIVISOR, 0), Times(q, 0));
  }

  // No multiple but zero has only exponents below 32.
  lemma {:induction false} MultipleIsLarge(q: Poly, n: nat)
    ensures Times(q, n) == {} || exists e :: e in Times(q, n) && e >= 32
    ensures forall e :: e in Times(q, n) ==> e < 32 + n
    decreases n
  {
    if n > 0 {
      MultipleIsLarge(q, n - 1);
      RaisedTerm(DIVISOR, n - 1, 31 + n);
      forall e | e in Times(q, n) ensures e < 32 + n {
        RaisedTerm(DIVISOR, n - 1, e);
      }
      if n - 1 in q {
        assert 31 + n in Times(q, n);
      } else {
        assert Times(q, n) == Times(q, n - 1);
      }
    }
  }

  // So there is one remainder of degree below 32.
  lemma OneRemainder(a: Poly, b: Poly)
    requires Congruent(a, b) && (forall e :: e in a ==> e < 32) && forall e :: e in b ==> e < 32
    ensures a == b
  {
    hide Times;
    var q, n :| Plus(a, b) == Times(q, n);
    MultipleIsLarge(q, n);
    assert Plus(a, b) == {};
    forall e ensures e in a <==> e in b {
      assert e !in Plus(a, b);
    }
  }

  lemma CongruentTrans(a: Poly, b: Poly, c: Poly)
    requires Congruent(a, b) && Congruent(b, c)
    ensures Congruent(a, c)
  {
    hide Multiple;
    MultiplePlus(Plus(a, b), Plus(b, c));
    assert Plus(Plus(a, b), Plus(b, c)) == Plus(a, c);
  }

  lemma CongruentRaised(a: Poly, b: Poly, k: nat)
    requires Congruent(a, b)
    ensures Congruent(Raised(a, k), Raised(b, k))
  {
    hide Multiple;
    MultipleRaised(Plus(a, b), k);
    RaisedPlus(a, b, k);
  }

  lemma CongruentPlus(a: Poly, b: Poly, c: Poly)
    requires Congruent(a, b)
    ensures Congruent(Plus(a, c), Plus(b, c))
  {
    hide Multiple;
    assert Plus(Plus(a, c), Plus(b, c)) == Plus(a, b);
  }

  // ---------- The register ----------

  lemma StepCongruent(c: Word)
    ensures Congruent(Raised(PolyOf(c), 1), PolyOf(Step(c)))
  {
    StepPoly(c);
    SmallMultiples();
    hide Multiple, Raised, PolyOf, Step;
    var r := Raised(PolyOf(c), 1);
    assert Plus(r, Plus(r, DIVISOR)) == DIVISOR && Plus(r, r) == {};
  }

  lemma {:induction false} StepsCongruent(c: Word, k: nat)
    ensures Congruent(Raised(PolyOf(c), k), PolyOf(Steps(c, k)))
    decreases k
  {
    hide Raised, PolyOf, Step, Congruent;
    RaisedTwice(PolyOf(c), 0, 0);
    if k == 0 {
      CongruentSelf(PolyOf(c));
    } else {
      StepCongruent(c);
      CongruentRaised(Raised(PolyOf(c), 1), PolyOf(Step(c)), k - 1);
      RaisedTwice(PolyOf(c), 1, k - 1);
      StepsCongruent(Step(c), k - 1);
      CongruentTrans(Raised(PolyOf(c), k), Raised(PolyOf(Step(c)), k - 1), PolyOf(Steps(c, k)));
    }
  }

  lemma CongruentSelf(a: Poly)
    ensures Congruent(a, a)
  {
    SmallMultiples();
    hide Multiple;
    assert Plus(a, a) == {};
  }

  // A byte comes in at the top of the register.
  lemma ByteIn(c: Word, b: Byte)
    ensures PolyOf(XorWord(c, b)) == Plus(PolyOf(c), Raised(PolyOfByte(b), 24))
  {
    forall e: nat | e < 32
      ensures Term(XorWord(c, b), 32, e) <==> e in Plus(PolyOf(c), Raised(PolyOfByte(b), 24))
    {
      BitOfXor(c, b, 31 - e);
      RaisedTerm(PolyOfByte(b), 24, e);
      Pow2Constants();
      if e < 24 {
        NoBitAbove(b, 8, 31 - e);
      } else {
        assert Term(b, 8, e - 24) == BitAt(b, 31 - e);
      }
      assert e in PolyOf(c) <==> Term(c, 32, e);
    }
    forall e | e in Plus(PolyOf(c), Raised(PolyOfByte(b), 24)) ensures e < 32 {
      RaisedTerm(PolyOfByte(b), 24, e);
    }
  }

  // The message's polynomial: its first byte has the highest exponents, the first bit of each byte too.
  function Message(data: seq<Byte>): Poly
    decreases |data|
  {
    if data == [] then {} else Plus(Raised(Message(data[..|data| - 1]), 8), PolyOfByte(data[|data| - 1]))
  }

  // The register after a byte string is the remainder of the start value and the message, one behind the other, by the
  // divisor: the message times x^32, the start value in front of it.
  lemma {:induction false} RegisterIsRemainder(c: Word, data: seq<Byte>)
    ensures Congruent(Plus(Raised(PolyOf(c), 8 * |data|), Raised(Message(data), 32)), PolyOf(Register(c, data)))
    ensures forall e :: e in PolyOf(Register(c, data)) ==> e < 32
    decreases |data|
  {
    hide Raised, Steps, Congruent, XorWord, PolyOfByte;
    RaisedTwice(PolyOf(c), 0, 0);
    RaisedTwice({}, 0, 32);
    if data == [] {
      CongruentSelf(PolyOf(c));
      assert Plus(PolyOf(c), {}) == PolyOf(c);
    } else {
      var n := |data| - 1;
      var init, b := data[..n], data[n];
      RegisterIsRemainder(c, init);
      ByteJoins(c, Register(c, init), init, b);
      StepsCongruent(XorWord(Register(c, init), b), 8);
      CongruentTrans(Plus(Raised(PolyOf(c), 8 * |data|), Raised(Message(data), 32)),
                     Raised(PolyOf(XorWord(Register(c, init), b)), 8), PolyOf(Register(c, data)));
    }
  }

  lemma ByteJoins(c: Word, r: Word, init: seq<Byte>, b: Byte)
    requires Congruent(Plus(Raised(PolyOf(c), 8 * |init|), Raised(Message(init), 32)), PolyOf(r))
    ensures Congruent(Plus(Raised(PolyOf(c), 8 * |init| + 8), Raised(Plus(Raised(Message(init), 8), PolyOfByte(b)), 32)),
                      Raised(PolyOf(XorWord(r, b)), 8))
  {
    hide Raised, Plus, Congruent, XorWord, PolyOf, PolyOfByte, Message;
    var p, m, t := PolyOf(c), Message(init), PolyOfByte(b);
    var left := Plus(Raised(p, 8 * |init|), Raised(m, 32));
    ByteIn(r, b);
    CongruentPlus(left, PolyOf(r), Raised(t, 24));
    CongruentRaised(Plus(left, Raised(t, 24)), Plus(PolyOf(r), Raised(t, 24)), 8);
    RaisedPlus(left, Raised(t, 24), 8);
    RaisedPlus(Raised(p, 8 * |init|), Raised(m, 32), 8);
    RaisedTwice(p, 8 * |init|, 8);
    RaisedTwice(m, 32, 8);
    RaisedTwice(m, 8, 32);
    RaisedTwice(t, 24, 8);
    RaisedPlus(Raised(m, 8), t, 32);
    PlusLaws(Raised(p, 8 * |init| + 8), Raised(m, 40), Raised(t, 32));
  }

  // ---------- The CRC ----------

  // 1 + x + ... + x^31.
  function AllTerms(): Poly {
    TermsBelow(32)
  }

  function TermsBelow(n: nat): Poly {
    if n == 0 then {} else TermsBelow(n - 1) + {n - 1}
  }

  lemma {:induction false} BelowIs(n: nat, e: nat)
    ensures e in TermsBelow(n) <==> e < n
  {
    if n > 0 {
      BelowIs(n - 1, e);
    }
  }

  lemma {:induction false} OnesAt(k: nat, i: nat)
    ensures BitAt(Pow2(k) - 1, i) <==> i < k
    decreases i
  {
    if k == 0 {
      NoBits(i);
    } else {
      assert (2 * Pow2(k - 1) - 1) / 2 == Pow2(k - 1) - 1;
      if i > 0 {
        OnesAt(k - 1, i - 1);
      }
    }
  }

  lemma NotTurns(c: Word)
    ensures PolyOf(c) <= AllTerms() && PolyOf(Not(c)) == AllTerms() - PolyOf(c)
    ensures PolyOf(Not(0)) == AllTerms()
  {
    Pow2Constants();
    hide XorWord, Xor, TermsBelow, BitAt;
    forall e: nat ensures e in AllTerms() <==> e < 32 {
      BelowIs(32, e);
    }
    forall e: nat | e < 32
      ensures Term(Not(c), 32, e) <==> !Term(c, 32, e)
      ensures Term(Not(0), 32, e)
    {
      NotTerm(c, e);
      NotTerm(0, e);
      NoBits(31 - e);
    }
  }

  lemma NotTerm(c: Word, e: nat)
    requires e < 32
    ensures Term(Not(c), 32, e) <==> !Term(c, 32, e)
  {
    Pow2Constants();
    BitOfXor(c, ALL_ONES, 31 - e);
    OnesAt(32, 31 - e);
  }

  // The CRC-32 of a byte string (section 8 of RFC 1952): the remainder of the message times x^32, with 32 ones in front
  // of it, by the divisor, and every term of it turned over.
  lemma CrcIsRemainder(data: seq<Byte>, p: Poly)
    requires p <= AllTerms()
    ensures Congruent(Plus(Raised(AllTerms(), 8 * |data|), Raised(Message(data), 32)), p) <==>
            PolyOf(Crc(0, data)) == AllTerms() - p
  {
    hide Raised, Register, Not, Congruent, PolyOf, Message;
    var front := Plus(Raised(AllTerms(), 8 * |data|), Raised(Message(data), 32));
    var r := Register(Not(0), data);
    NotTurns(0);
    NotTurns(r);
    RegisterIsRemainder(Not(0), data);
    if Congruent(front, p) {
      forall e | e in p ensures e < 32 {
        BelowIs(32, e);
      }
      CongruentBack(front, p);
      CongruentTrans(p, front, PolyOf(r));
      OneRemainder(p, PolyOf(r));
    }
    if AllTerms() - PolyOf(r) == AllTerms() - p {
      SameRest(AllTerms(), PolyOf(r), p);
    }
  }

  lemma SameRest(a: Poly, b: Poly, c: Poly)
    requires b <= a && c <= a && a - b == a - c
    ensures b == c
  {
    forall e ensures e in b <==> e in c {
      assert e in a - b <==> e in a - c;
    }
  }

  lemma CongruentBack(a: Poly, b: Poly)
    requires Congruent(a, b)
    ensures Congruent(b, a)
  {
    hide Multiple;
    assert Plus(a, b) == Plus(b, a);
  }
}
