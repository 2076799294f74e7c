// Reading succeeds on exactly the legal encodings, and yields what they stand for.
module DeflateExact {
  import opened Options
  import opened Bits
  import opened Canonical
  import opened Deflate
  import opened Substrings

  lemma NumberAt(bits: seq<bool>, p: nat, v: nat, n: nat)
    ensures v < Pow2(n) && At(bits, p, LsbBits(v, n)) <==> ReadBits(bits, p, n) == Some(v)
  {
    hide LsbBits, LsbVal, Pow2;
    if v < Pow2(n) {
      LsbBitsVal(v, n);
    }
    if p + n <= |bits| {
      LsbValBits(bits[p..p + n]);
    }
  }

  lemma SymbolAt(ls: Lengths, s: nat, bits: seq<bool>, p: nat)
    requires p <= |bits| && NotOverSubscribed(ls)
    ensures s < |ls| && ls[s] >= 1 && At(bits, p, Code(ls, s)) <==>
            ReadSymbol(ls, bits, p) == Symbol(s, p + if s < |ls| then ls[s] else 0)
  {
    CodeAtIsCode(ls, s, bits, p);
    if CodeAt(ls, s, bits, p) {
      ReadSymbolIs(ls, s, bits, p);
    }
  }

  // ---------- Tokens ----------

  // How reading goes on after the symbols and extra bits of one copy.
  lemma CopyStep(ll: Lengths, dl: Lengths, t: Token, bits: seq<bool>, p: nat, p1: nat, p2: nat, p3: nat, out: seq<Byte>)
    requires t.Copy? && CanExpand(out, t) && p <= |bits|
    requires ReadSymbol(ll, bits, p) == Symbol(257 + t.len, p1)
    requires ReadBits(bits, p1, LENGTH_EXTRA[t.len]) == Some(t.lenExtra) && p2 == p1 + LENGTH_EXTRA[t.len]
    requires ReadSymbol(dl, bits, p2) == Symbol(t.dist, p3)
    requires ReadBits(bits, p3, DIST_EXTRA[t.dist]) == Some(t.distExtra)
    ensures ReadCodes(ll, dl, bits, p, out) == ReadCodes(ll, dl, bits, p3 + DIST_EXTRA[t.dist], ExpandToken(out, t))
  {
    hide CopyBytes, ReadSymbol, LsbVal, Pow2, LENGTH_BASE, DIST_BASE, LENGTH_EXTRA, DIST_EXTRA;
    assert ReadCodes(ll, dl, bits, p, out) == ReadCopy(ll, dl, bits, t.len, p1, out);
  }

  lemma CopyComplete(ll: Lengths, dl: Lengths, t: Token, bits: seq<bool>, p: nat, out: seq<Byte>)
    requires NotOverSubscribed(ll) && NotOverSubscribed(dl)
    requires HasCodes(ll, dl, t) && t.Copy? && CanExpand(out, t)
    requires At(bits, p, EncodeToken(ll, dl, t))
    ensures ReadCodes(ll, dl, bits, p, out) ==
            ReadCodes(ll, dl, bits, p + |EncodeToken(ll, dl, t)|, ExpandToken(out, t))
  {
    hide LsbBits, LsbVal, Pow2, Code, CodeAt, ReadSymbol, CopyBytes, LENGTH_BASE, DIST_BASE, ReadCodes, ReadCopy, ReadBits,
      NotOverSubscribed, ExpandToken, At;
    var a, b := Code(ll, 257 + t.len), LsbBits(t.lenExtra, LENGTH_EXTRA[t.len]);
    var c, d := Code(dl, t.dist), LsbBits(t.distExtra, DIST_EXTRA[t.dist]);
    AtConcat3(bits, p, a, b, c + d);
    AtConcat(bits, p + |a| + |b|, c, d);
    SymbolAt(ll, 257 + t.len, bits, p);
    NumberAt(bits, p + |a|, t.lenExtra, LENGTH_EXTRA[t.len]);
    SymbolAt(dl, t.dist, bits, p + |a| + |b|);
    NumberAt(bits, p + |a| + |b| + |c|, t.distExtra, DIST_EXTRA[t.dist]);
    CopyStep(ll, dl, t, bits, p, p + |a|, p + |a| + |b|, p + |a| + |b| + |c|, out);
  }

  lemma TokenComplete(ll: Lengths, dl: Lengths, t: Token, bits: seq<bool>, p: nat, out: seq<Byte>)
    requires NotOverSubscribed(ll) && NotOverSubscribed(dl)
    requires HasCodes(ll, dl, t) && CanExpand(out, t) && At(bits, p, EncodeToken(ll, dl, t))
    ensures p + |EncodeToken(ll, dl, t)| <= |bits|
    ensures ReadCodes(ll, dl, bits, p, out) ==
            ReadCodes(ll, dl, bits, p + |EncodeToken(ll, dl, t)|, ExpandToken(out, t))
  {
    hide At, LsbBits, LsbVal, Pow2, Code, ReadSymbol, CopyBytes, NotOverSubscribed, ReadCopy;
    AtBound(bits, p, EncodeToken(ll, dl, t));
    if t.Copy? {
      CopyComplete(ll, dl, t, bits, p, out);
    } else {
      SymbolAt(ll, t.byte, bits, p);
    }
  }

  lemma {:induction false} CodesComplete(ll: Lengths, dl: Lengths, ts: seq<Token>, bits: seq<bool>, p: nat, out: seq<Byte>)
    requires NotOverSubscribed(ll) && NotOverSubscribed(dl)
    requires Encodable(ll, dl, ts) && CanExpandAll(out, ts) && At(bits, p, EncodeTokens(ll, dl, ts))
    ensures p <= |bits|
    ensures ReadCodes(ll, dl, bits, p, out) == Done(p + |EncodeTokens(ll, dl, ts)|, Expand(out, ts))
    decreases |ts|
  {
    hide At, Code, ReadSymbol, NotOverSubscribed, ReadCopy, EncodeToken, HasCodes, CanExpand, ExpandToken;
    if ts == [] {
      AtBound(bits, p, Code(ll, END_OF_BLOCK));
      SymbolAt(ll, END_OF_BLOCK, bits, p);
    } else {
      hide ReadCodes;
      var e := EncodeToken(ll, dl, ts[0]);
      AtConcat(bits, p, e, EncodeTokens(ll, dl, ts[1..]));
      TokenComplete(ll, dl, ts[0], bits, p, out);
      CodesComplete(ll, dl, ts[1..], bits, p + |e|, ExpandToken(out, ts[0]));
    }
  }

  // The parts of a successful copy.
  lemma CopyParts(ll: Lengths, dl: Lengths, bits: seq<bool>, p: nat, out: seq<Byte>)
    returns (len: nat, q: nat, lx: nat, dist: nat, e: nat, dx: nat)
    requires p <= |bits| && ReadCodes(ll, dl, bits, p, out).Done? && ReadSymbol(ll, bits, p).sym > END_OF_BLOCK
    ensures len < 29 && |LENGTH_EXTRA| == 29 && ReadSymbol(ll, bits, p) == Symbol(257 + len, q)
    ensures q + LENGTH_EXTRA[len] <= |bits| && ReadBits(bits, q, LENGTH_EXTRA[len]) == Some(lx)
    ensures dist < 30 && |DIST_EXTRA| == 30 && ReadSymbol(dl, bits, q + LENGTH_EXTRA[len]) == Symbol(dist, e)
    ensures ReadBits(bits, e, DIST_EXTRA[dist]) == Some(dx) && Copy(len, lx, dist, dx).Distance() <= |out|
  {
    hide LsbVal, ReadSymbol, CopyBytes, LENGTH_BASE, DIST_BASE;
    var r := ReadSymbol(ll, bits, p);
    len, q := r.sym - 257, r.end;
    lx := ReadBits(bits, q, LENGTH_EXTRA[len]).value;
    var d := ReadSymbol(dl, bits, q + LENGTH_EXTRA[len]);
    dist, e := d.sym, d.end;
    dx := ReadBits(bits, e, DIST_EXTRA[dist]).value;
  }

  // The copy token a successful read starts with.
  lemma FirstCopy(ll: Lengths, dl: Lengths, bits: seq<bool>, p: nat, out: seq<Byte>) returns (t: Token)
    requires NotOverSubscribed(ll) && NotOverSubscribed(dl) && p <= |bits|
    requires ReadCodes(ll, dl, bits, p, out).Done?
    requires ReadSymbol(ll, bits, p).sym > END_OF_BLOCK
    ensures HasCodes(ll, dl, t) && CanExpand(out, t) && At(bits, p, EncodeToken(ll, dl, t))
  {
    hide At, LsbBits, ReadBits, Pow2, Code, ReadSymbol, ReadCodes, LENGTH_BASE, LENGTH_EXTRA, DIST_BASE, DIST_EXTRA,
      NotOverSubscribed;
    var len, q, lx, dist, e, dx := CopyParts(ll, dl, bits, p, out);
    SymbolAt(ll, 257 + len, bits, p);
    NumberAt(bits, q, lx, LENGTH_EXTRA[len]);
    SymbolAt(dl, dist, bits, q + LENGTH_EXTRA[len]);
    NumberAt(bits, e, dx, DIST_EXTRA[dist]);
    t := Copy(len, lx, dist, dx);
    var a, b := Code(ll, 257 + len), LsbBits(lx, LENGTH_EXTRA[len]);
    var c, d := Code(dl, dist), LsbBits(dx, DIST_EXTRA[dist]);
    AtConcat(bits, p + |a| + |b|, c, d);
    AtConcat3(bits, p, a, b, c + d);
  }

  // The token a successful read starts with, when it is not the end of the block.
  lemma FirstToken(ll: Lengths, dl: Lengths, bits: seq<bool>, p: nat, out: seq<Byte>) returns (t: Token)
    requires NotOverSubscribed(ll) && NotOverSubscribed(dl) && p <= |bits|
    requires ReadCodes(ll, dl, bits, p, out).Done?
    requires ReadSymbol(ll, bits, p).sym != END_OF_BLOCK
    ensures HasCodes(ll, dl, t) && CanExpand(out, t) && At(bits, p, EncodeToken(ll, dl, t))
    ensures |EncodeToken(ll, dl, t)| >= 1
  {
    hide At, LsbBits, LsbVal, Pow2, Code, ReadSymbol, NotOverSubscribed, ReadCopy;
    var r := ReadSymbol(ll, bits, p);
    if r.sym < 256 {
      SymbolAt(ll, r.sym, bits, p);
      t := Literal(r.sym);
    } else {
      t := FirstCopy(ll, dl, bits, p, out);
    }
  }

  lemma {:induction false} CodesSound(ll: Lengths, dl: Lengths, bits: seq<bool>, p: nat, out: seq<Byte>)
    returns (ts: seq<Token>)
    requires NotOverSubscribed(ll) && NotOverSubscribed(dl) && p <= |bits|
    requires |ll| > END_OF_BLOCK && ll[END_OF_BLOCK] >= 1
    requires ReadCodes(ll, dl, bits, p, out).Done?
    ensures Encodable(ll, dl, ts) && CanExpandAll(out, ts) && At(bits, p, EncodeTokens(ll, dl, ts))
    ensures ReadCodes(ll, dl, bits, p, out) == Done(p + |EncodeTokens(ll, dl, ts)|, Expand(out, ts))
    decreases |bits| - p
  {
    hide At, Code, ReadSymbol, NotOverSubscribed, ReadCopy, EncodeToken, HasCodes, CanExpand, ExpandToken;
    if ReadSymbol(ll, bits, p).sym == END_OF_BLOCK {
      SymbolAt(ll, END_OF_BLOCK, bits, p);
      ts := [];
    } else {
      hide ReadCodes;
      var t := FirstToken(ll, dl, bits, p, out);
      var e := EncodeToken(ll, dl, t);
      TokenComplete(ll, dl, t, bits, p, out);
      var rest := CodesSound(ll, dl, bits, p + |e|, ExpandToken(out, t));
      ts := [t] + rest;
      assert ts[1..] == rest;
      AtConcat(bits, p, e, EncodeTokens(ll, dl, rest));
    }
  }

  // ---------- Code lengths ----------

  lemma FieldsPush(bits: seq<bool>, p: nat, n: nat)
    requires p + 3 * n + 3 <= |bits|
    ensures RawFields(bits, p, n + 1) == RawFields(bits, p, n) + [RawField(bits, p + 3 * n)]
    ensures ReadBits(bits, p + 3 * n, 3) == Some(RawField(bits, p + 3 * n))
  {
    hide LsbVal;
  }

  lemma {:induction false} FieldsAt(bits: seq<bool>, p: nat, raw: seq<nat>)
    requires p + 3 * |raw| <= |bits| && forall i :: 0 <= i < |raw| ==> raw[i] < 8
    ensures At(bits, p, RawBits(raw)) <==> RawFields(bits, p, |raw|) == raw
  {
    hide LsbBits, At, Pow2, RawFields, RawField, ReadBits;
    if raw == [] {
      AtEmpty(bits, p);
    } else {
      var n := |raw| - 1;
      var init, last := raw[..n], raw[n];
      FieldsAt(bits, p, init);
      AtConcat(bits, p, RawBits(init), LsbBits(last, 3));
      Pow2Constants();
      NumberAt(bits, p + 3 * n, last, 3);
      FieldsPush(bits, p, n);
      assert raw == init + [last];
      assert (RawFields(bits, p, n) + [RawField(bits, p + 3 * n)])[..n] == RawFields(bits, p, n);
    }
  }

  // One operation on the code lengths, as a step of reading.
  ghost predicate OpRead(code: Lengths, bits: seq<bool>, p: nat, q: nat, total: nat, soFar: seq<nat>, op: LengthOp)
    requires |code| == 19 && |soFar| <= total && forall i :: 0 <= i < |soFar| ==> soFar[i] <= MAX_LENGTH
  {
    && op.Valid() && (op.Previous? ==> soFar != []) && p < q <= |bits|
    && |soFar + OpLengths(soFar, op)| <= total
    && ReadLengths(code, bits, p, total, soFar) == ReadLengths(code, bits, q, total, soFar + OpLengths(soFar, op))
  }

  lemma OpComplete(code: Lengths, op: LengthOp, bits: seq<bool>, p: nat, total: nat, soFar: seq<nat>)
    requires NotOverSubscribed(code) && |code| == 19 && p <= |bits|
    requires op.Valid() && code[op.Symbol()] >= 1 && (op.Previous? ==> soFar != [])
    requires |soFar + OpLengths(soFar, op)| <= total && forall i :: 0 <= i < |soFar| ==> soFar[i] <= MAX_LENGTH
    requires At(bits, p, Code(code, op.Symbol()) + op.Extra())
    ensures OpRead(code, bits, p, p + |Code(code, op.Symbol()) + op.Extra()|, total, soFar, op)
  {
    hide At, LsbBits, LsbVal, Pow2, Code, ReadSymbol, NotOverSubscribed;
    var c := Code(code, op.Symbol());
    AtConcat(bits, p, c, op.Extra());
    SymbolAt(code, op.Symbol(), bits, p);
    Pow2Constants();
    match op
    case Length(n) =>
    case Previous(n) => NumberAt(bits, p + |c|, n - 3, 2);
    case Zeros(n) => NumberAt(bits, p + |c|, n - 3, 3);
    case ManyZeros(n) => NumberAt(bits, p + |c|, n - 11, 7);
  }

  lemma FirstOp(code: Lengths, bits: seq<bool>, p: nat, total: nat, soFar: seq<nat>) returns (op: LengthOp)
    requires NotOverSubscribed(code) && |code| == 19 && p <= |bits|
    requires |soFar| < total && forall i :: 0 <= i < |soFar| ==> soFar[i] <= MAX_LENGTH
    requires ReadLengths(code, bits, p, total, soFar).LengthsDone?
    ensures op.Valid() && code[op.Symbol()] >= 1 && (op.Previous? ==> soFar != [])
    ensures At(bits, p, Code(code, op.Symbol()) + op.Extra())
    ensures OpRead(code, bits, p, p + |Code(code, op.Symbol()) + op.Extra()|, total, soFar, op)
  {
    hide At, LsbBits, LsbVal, Pow2, Code, ReadSymbol, NotOverSubscribed;
    var r := ReadSymbol(code, bits, p);
    SymbolAt(code, r.sym, bits, p);
    Pow2Constants();
    if r.sym < 16 {
      op := Length(r.sym);
      AtEmpty(bits, r.end);
    } else {
      var x := ReadBits(bits, r.end, RepeatBits(r.sym)).value;
      NumberAt(bits, r.end, x, RepeatBits(r.sym));
      op := if r.sym == 16 then Previous(3 + x) else if r.sym == 17 then Zeros(3 + x) else ManyZeros(11 + x);
    }
    AtConcat(bits, p, Code(code, r.sym), op.Extra());
  }

  lemma {:induction false} OpsGrow(code: Lengths, soFar: seq<nat>, ops: seq<LengthOp>)
    requires OpsValid(code, soFar, ops)
    ensures |soFar| <= |OpsResult(code, soFar, ops)|
    ensures soFar == OpsResult(code, soFar, ops)[..|soFar|]
    ensures |soFar| == |OpsResult(code, soFar, ops)| ==> ops == []
    decreases |ops|
  {
    if ops != [] {
      var next := soFar + OpLengths(soFar, ops[0]);
      OpsGrow(code, next, ops[1..]);
      assert soFar == next[..|soFar|];
    }
  }

  lemma {:induction false} LengthsComplete(code: Lengths, ops: seq<LengthOp>, bits: seq<bool>, p: nat, total: nat, soFar: seq<nat>)
    requires NotOverSubscribed(code) && |code| == 19
    requires OpsValid(code, soFar, ops) && |OpsResult(code, soFar, ops)| == total
    requires forall i :: 0 <= i < total ==> OpsResult(code, soFar, ops)[i] <= MAX_LENGTH
    requires At(bits, p, EncodeOps(code, soFar, ops))
    ensures |soFar| <= total && forall i :: 0 <= i < |soFar| ==> soFar[i] <= MAX_LENGTH
    ensures ReadLengths(code, bits, p, total, soFar) ==
            LengthsDone(p + |EncodeOps(code, soFar, ops)|, OpsResult(code, soFar, ops))
    decreases |ops|
  {
    hide At, LsbBits, LsbVal, Pow2, Code, ReadSymbol, NotOverSubscribed, Repeat;
    OpsGrow(code, soFar, ops);
    if ops != [] {
      var next := soFar + OpLengths(soFar, ops[0]);
      var e := Code(code, ops[0].Symbol()) + ops[0].Extra();
      OpsGrow(code, next, ops[1..]);
      AtConcat(bits, p, e, EncodeOps(code, next, ops[1..]));
      OpComplete(code, ops[0], bits, p, total, soFar);
      LengthsComplete(code, ops[1..], bits, p + |e|, total, next);
    }
  }

  lemma OpsCons(code: Lengths, soFar: seq<nat>, op: LengthOp, rest: seq<LengthOp>)
    requires op.Valid() && op.Symbol() < |code| && code[op.Symbol()] >= 1 && (op.Previous? ==> soFar != [])
    requires OpsValid(code, soFar + OpLengths(soFar, op), rest)
    ensures OpsValid(code, soFar, [op] + rest)
    ensures OpsResult(code, soFar, [op] + rest) == OpsResult(code, soFar + OpLengths(soFar, op), rest)
    ensures EncodeOps(code, soFar, [op] + rest) ==
            Code(code, op.Symbol()) + op.Extra() + EncodeOps(code, soFar + OpLengths(soFar, op), rest)
  {
    hide Code, OpLengths;
    assert ([op] + rest)[1..] == rest;
  }

  lemma {:induction false} LengthsSound(code: Lengths, bits: seq<bool>, p: nat, total: nat, soFar: seq<nat>)
    returns (ops: seq<LengthOp>)
    requires NotOverSubscribed(code) && |code| == 19 && p <= |bits|
    requires |soFar| <= total && forall i :: 0 <= i < |soFar| ==> soFar[i] <= MAX_LENGTH
    requires ReadLengths(code, bits, p, total, soFar).LengthsDone?
    ensures OpsValid(code, soFar, ops) && At(bits, p, EncodeOps(code, soFar, ops))
    ensures ReadLengths(code, bits, p, total, soFar) ==
            LengthsDone(p + |EncodeOps(code, soFar, ops)|, OpsResult(code, soFar, ops))
    decreases total - |soFar|
  {
    hide At, LsbBits, LsbVal, Pow2, Code, ReadSymbol, NotOverSubscribed, Repeat, ReadBits, LengthOp.Extra;
    if |soFar| == total {
      ops := [];
      AtEmpty(bits, p);
    } else {
      var op := FirstOp(code, bits, p, total, soFar);
      var next := soFar + OpLengths(soFar, op);
      var e := Code(code, op.Symbol()) + op.Extra();
      var rest := LengthsSound(code, bits, p + |e|, total, next);
      ops := [op] + rest;
      OpsCons(code, soFar, op, rest);
      hide OpsValid, EncodeOps, OpsResult, OpLengths, LengthOp.Extra, LengthOp.Symbol, LengthOp.Valid;
      AtConcat(bits, p, e, EncodeOps(code, next, rest));
    }
  }

  // ---------- The dynamic header ----------

  // The header's strings, one after the other.
  lemma HeaderParts(h: Header, bits: seq<bool>, p: nat)
    requires h.Shape()
    ensures At(bits, p, h.Encode()) <==>
            && At(bits, p, LsbBits(h.literals - 257, 5)) && At(bits, p + 5, LsbBits(h.distances - 1, 5))
            && At(bits, p + 10, LsbBits(|h.raw| - 4, 4)) && At(bits, p + 14, RawBits(h.raw))
            && At(bits, p + 14 + 3 * |h.raw|, EncodeOps(CodeLengthLengths(h.raw), [], h.ops))
    ensures At(bits, p, h.Encode()) ==> p + |h.Encode()| <= |bits|
    ensures |h.Encode()| == 14 + 3 * |h.raw| + |EncodeOps(CodeLengthLengths(h.raw), [], h.ops)|
  {
    hide At, LsbBits, RawBits, EncodeOps, CodeLengthLengths, OpsValid, NotOverSubscribed;
    var a, b, c := LsbBits(h.literals - 257, 5), LsbBits(h.distances - 1, 5), LsbBits(|h.raw| - 4, 4);
    var d, e := RawBits(h.raw), EncodeOps(CodeLengthLengths(h.raw), [], h.ops);
    AtConcat(bits, p, a + b + c + d, e);
    AtConcat(bits, p, a + b + c, d);
    AtConcat3(bits, p, a, b, c);
  }

  lemma HeaderComplete(h: Header, bits: seq<bool>, p: nat)
    requires h.Valid() && h.LiteralLengths()[END_OF_BLOCK] >= 1 && At(bits, p, h.Encode())
    ensures ReadHeader(bits, p) == HeaderDone(p + |h.Encode()|, h.LiteralLengths(), h.DistanceLengths())
  {
    hide At, LsbBits, LsbVal, RawBits, EncodeOps, OpsValid, OpsResult, NotOverSubscribed, CodeLengthLengths, ReadLengths, Pow2;
    HeaderParts(h, bits, p);
    Pow2Constants();
    NumberAt(bits, p, h.literals - 257, 5);
    NumberAt(bits, p + 5, h.distances - 1, 5);
    NumberAt(bits, p + 10, |h.raw| - 4, 4);
    FieldsAt(bits, p + 14, h.raw);
    LengthsComplete(CodeLengthLengths(h.raw), h.ops, bits, p + 14 + 3 * |h.raw|, h.literals + h.distances, []);
  }

  lemma HeaderSound(bits: seq<bool>, p: nat) returns (h: Header)
    requires p <= |bits| && ReadHeader(bits, p).HeaderDone?
    ensures h.Valid() && h.LiteralLengths()[END_OF_BLOCK] >= 1 && At(bits, p, h.Encode())
    ensures ReadHeader(bits, p) == HeaderDone(p + |h.Encode()|, h.LiteralLengths(), h.DistanceLengths())
  {
    hide At, LsbBits, RawBits, EncodeOps, OpsValid, OpsResult, NotOverSubscribed, CodeLengthLengths, ReadLengths, Pow2, LsbVal;
    var literals := LsbVal(bits[p..p + 5]) + 257;
    var distances := LsbVal(bits[p + 5..p + 10]) + 1;
    var n := LsbVal(bits[p + 10..p + 14]) + 4;
    Pow2Constants();
    var raw := RawFields(bits, p + 14, n);
    var ops := LengthsSound(CodeLengthLengths(raw), bits, p + 14 + 3 * n, literals + distances, []);
    h := Header(literals, distances, raw, ops);
    HeaderParts(h, bits, p);
    NumberAt(bits, p, h.literals - 257, 5);
    NumberAt(bits, p + 5, h.distances - 1, 5);
    NumberAt(bits, p + 10, n - 4, 4);
    FieldsAt(bits, p + 14, raw);
  }

  // ---------- Stored blocks ----------

  lemma WordAt(input: seq<Byte>, q: nat, v: nat)
    requires q + 2 <= |input|
    ensures v < 65536 && At(ToBits(input), 8 * q, LsbBits(v, 16)) <==> Word16(input[q], input[q + 1]) == v
  {
    hide At, LsbBits, Pow2, ToBits;
    var bits := ToBits(input);
    ToBitsAt(input, q);
    ToBitsAt(input, q + 1);
    var low, high := bits[8 * q..8 * q + 8], bits[8 * (q + 1)..8 * (q + 1) + 8];
    assert bits[8 * q..8 * q + 16] == low + high;
    LsbValConcat(low, high);
    Pow2Constants();
    ShiftLeftMul(LsbVal(high), BYTE_SIZE);
    NumberAt(bits, 8 * q, v, 16);
  }

  lemma BytesAt(input: seq<Byte>, q: nat, data: seq<Byte>)
    ensures At(ToBits(input), 8 * q, ToBits(data)) <==> q + |data| <= |input| && input[q..q + |data|] == data
  {
    hide ToBits;
    if q + |data| <= |input| {
      ToBitsSlice(input, q, q + |data|);
      if ToBits(input[q..q + |data|]) == ToBits(data) {
        ToBitsInjective(input[q..q + |data|], data);
      }
    }
  }

  // The contents of a stored block at byte q.
  ghost predicate StoredHere(input: seq<Byte>, q: nat, data: seq<Byte>) {
    && q + 4 + |data| <= |input|
    && Word16(input[q], input[q + 1]) == |data| && Word16(input[q + 2], input[q + 3]) == 65535 - |data|
    && input[q + 4..q + 4 + |data|] == data
  }

  lemma StoredAt(input: seq<Byte>, q: nat, data: seq<Byte>)
    requires |data| < 65536
    ensures At(ToBits(input), 8 * q, LsbBits(|data|, 16) + LsbBits(65535 - |data|, 16) + ToBits(data)) <==>
            StoredHere(input, q, data)
  {
    hide LsbBits, ToBits, Word16, At, Pow2;
    var bits, n := ToBits(input), |data|;
    Pow2Constants();
    AtConcat3(bits, 8 * q, LsbBits(n, 16), LsbBits(65535 - n, 16), ToBits(data));
    BytesAt(input, q + 4, data);
    assert 8 * q + 16 == 8 * (q + 2) && 8 * q + 16 + 16 == 8 * (q + 4);
    if q + 4 <= |input| {
      WordAt(input, q, n);
      WordAt(input, q + 2, 65535 - n);
    }
  }

  lemma StoredReads(input: seq<Byte>, p: nat, q: nat, data: seq<Byte>, out: seq<Byte>)
    requires p <= 8 * |input| && q == (p + 7) / 8 && StoredHere(input, q, data)
    ensures ReadStored(input, p, out) == Done(8 * (q + 4 + |data|), out + data)
  {
    hide Word16;
  }

  // ---------- Blocks ----------

  lemma StoredComplete(b: Block, input: seq<Byte>, p: nat, out: seq<Byte>)
    requires b.Stored? && ValidBlock(b, p, out) && At(ToBits(input), p + 1, EncodeBlock(b, p, out))
    ensures p + 3 <= 8 * |input|
    ensures ReadBlock(input, p + 1, out) == Done(After(b, p, out).0, After(b, p, out).1)
  {
    hide At, LsbBits, ToBits, LsbVal, Pow2, ReadStored, StoredHere;
    Pow2Constants();
    var bits, n := ToBits(input), |b.data|;
    var body := LsbBits(n, 16) + LsbBits(65535 - n, 16) + ToBits(b.data);
    AtConcat3(bits, p + 1, LsbBits(0, 2), b.padding, body);
    NumberAt(bits, p + 1, 0, 2);
    var q := (p + 3 + |b.padding|) / 8;
    assert q == (p + 3 + 7) / 8 && 8 * q == p + 3 + |b.padding|;
    StoredAt(input, q, b.data);
    StoredReads(input, p + 3, q, b.data, out);
  }

  lemma FixedComplete(b: Block, input: seq<Byte>, p: nat, out: seq<Byte>)
    requires b.Fixed? && ValidBlock(b, p, out) && At(ToBits(input), p + 1, EncodeBlock(b, p, out))
    ensures p + 3 <= 8 * |input|
    ensures ReadBlock(input, p + 1, out) == Done(After(b, p, out).0, After(b, p, out).1)
  {
    hide At, LsbBits, ToBits, LsbVal, Pow2, EncodeTokens, Expand, CanExpandAll, ReadCodes, NotOverSubscribed,
      FixedLiterals, FixedDistances;
    Pow2Constants();
    FixedNotOverSubscribed();
    AtConcat(ToBits(input), p + 1, LsbBits(1, 2), EncodeTokens(FixedLiterals(), FixedDistances(), b.tokens));
    NumberAt(ToBits(input), p + 1, 1, 2);
    CodesComplete(FixedLiterals(), FixedDistances(), b.tokens, ToBits(input), p + 3, out);
  }

  lemma DynamicParts(b: Block, p: nat, out: seq<Byte>)
    requires b.Dynamic? && ValidBlock(b, p, out)
    ensures var h := b.header;
            && h.Shape() && h.Valid() && NotOverSubscribed(h.LiteralLengths()) && NotOverSubscribed(h.DistanceLengths())
            && Encodable(h.LiteralLengths(), h.DistanceLengths(), b.tokens) && CanExpandAll(out, b.tokens)
            && h.LiteralLengths()[END_OF_BLOCK] >= 1
            && EncodeBlock(b, p, out) ==
               LsbBits(2, 2) + h.Encode() + EncodeTokens(h.LiteralLengths(), h.DistanceLengths(), b.tokens)
            && ExpandBlock(b, p, out) == Expand(out, b.tokens)
  {
    hide LsbBits, EncodeTokens, Expand, CanExpandAll, NotOverSubscribed, Header.Encode, FixedLiterals, FixedDistances;
  }

  lemma ReadsDynamic(input: seq<Byte>, p: nat, out: seq<Byte>)
    requires p + 2 <= 8 * |input| && LsbVal(ToBits(input)[p..p + 2]) == 2
    ensures ReadBlock(input, p, out) == ReadDynamic(ToBits(input), p + 2, out)
  {
    hide ToBits, LsbVal, ReadStored, ReadCodes, ReadDynamic, FixedLiterals, FixedDistances;
  }

  lemma DynamicComplete(b: Block, input: seq<Byte>, p: nat, out: seq<Byte>)
    requires b.Dynamic? && ValidBlock(b, p, out) && At(ToBits(input), p + 1, EncodeBlock(b, p, out))
    ensures p + 3 <= 8 * |input|
    ensures ReadBlock(input, p + 1, out) == Done(After(b, p, out).0, After(b, p, out).1)
  {
    hide At, LsbBits, ToBits, LsbVal, Pow2, EncodeTokens, Expand, CanExpandAll, ReadCodes, ReadHeader, ReadBlock, ValidBlock;
    hide NotOverSubscribed, EncodeBlock, ExpandBlock, Encodable, Header.Valid, Header.Encode, Header.LiteralLengths,
      Header.DistanceLengths;
    var bits, h := ToBits(input), b.header;
    DynamicParts(b, p, out);
    var codes := EncodeTokens(h.LiteralLengths(), h.DistanceLengths(), b.tokens);
    AtConcat3(bits, p + 1, LsbBits(2, 2), h.Encode(), codes);
    NumberAt(bits, p + 1, 2, 2);
    assert Pow2(2) == 4 by {
      Pow2Constants();
    }
    ReadsDynamic(input, p + 1, out);
    HeaderComplete(h, bits, p + 3);
    CodesComplete(h.LiteralLengths(), h.DistanceLengths(), b.tokens, bits, p + 3 + |h.Encode()|, out);
  }

  lemma BlockComplete(b: Block, input: seq<Byte>, p: nat, out: seq<Byte>)
    requires ValidBlock(b, p, out) && At(ToBits(input), p + 1, EncodeBlock(b, p, out))
    ensures p + 3 <= 8 * |input|
    ensures ReadBlock(input, p + 1, out) == Done(After(b, p, out).0, After(b, p, out).1)
  {
    hide *;
    match b
    case Stored(_, _) => StoredComplete(b, input, p, out);
    case Fixed(_) => FixedComplete(b, input, p, out);
    case Dynamic(_, _) => DynamicComplete(b, input, p, out);
  }

  lemma BlockSound(input: seq<Byte>, p: nat, out: seq<Byte>) returns (b: Block)
    requires p + 3 <= 8 * |input| && ReadBlock(input, p + 1, out).Done?
    ensures ValidBlock(b, p, out) && At(ToBits(input), p + 1, EncodeBlock(b, p, out))
    ensures ReadBlock(input, p + 1, out) == Done(After(b, p, out).0, After(b, p, out).1)
  {
    hide At, LsbBits, ToBits, Word16, LsbVal, Pow2, EncodeTokens, Expand, CanExpandAll, ReadCodes, ReadHeader, NotOverSubscribed, FixedLiterals, FixedDistances, ReadStored;
    var bits := ToBits(input);
    var kind := LsbVal(bits[p + 1..p + 3]);
    Pow2Constants();
    NumberAt(bits, p + 1, kind, 2);
    if kind == 0 {
      b := StoredSound(input, p, out);
    } else if kind == 1 {
      FixedNotOverSubscribed();
      var ts := CodesSound(FixedLiterals(), FixedDistances(), bits, p + 3, out);
      b := Fixed(ts);
      AtConcat(bits, p + 1, LsbBits(1, 2), EncodeTokens(FixedLiterals(), FixedDistances(), ts));
    } else {
      var h := HeaderSound(bits, p + 3);
      var ts := CodesSound(h.LiteralLengths(), h.DistanceLengths(), bits, p + 3 + |h.Encode()|, out);
      b := Dynamic(h, ts);
      var codes := EncodeTokens(h.LiteralLengths(), h.DistanceLengths(), ts);
      AtConcat3(bits, p + 1, LsbBits(2, 2), h.Encode(), codes);
    }
  }

  lemma StoredSound(input: seq<Byte>, p: nat, out: seq<Byte>) returns (b: Block)
    requires p + 3 <= 8 * |input| && ReadStored(input, p + 3, out).Done?
    requires At(ToBits(input), p + 1, LsbBits(0, 2))
    ensures b.Stored? && ValidBlock(b, p, out) && At(ToBits(input), p + 1, EncodeBlock(b, p, out))
    ensures ReadStored(input, p + 3, out) == Done(After(b, p, out).0, After(b, p, out).1)
  {
    hide LsbBits, ToBits, Word16, LsbVal;
    var bits := ToBits(input);
    var q := (p + 3 + 7) / 8;
    var padding := bits[p + 3..8 * q];
    var n := Word16(input[q], input[q + 1]);
    var data := input[q + 4..q + 4 + n];
    b := Stored(padding, data);
    var body := LsbBits(|data|, 16) + LsbBits(65535 - |data|, 16) + ToBits(data);
    StoredAt(input, q, data);
    AtConcat3(bits, p + 1, LsbBits(0, 2), padding, body);
  }

  lemma {:induction false} BlocksComplete(bs: seq<Block>, input: seq<Byte>, p: nat, out: seq<Byte>)
    requires ValidBlocks(bs, p, out) && At(ToBits(input), p, EncodeBlocks(bs, p, out))
    ensures ReadBlocks(input, p, out) == Done(p + |EncodeBlocks(bs, p, out)|, ExpandBlocks(bs, p, out))
    decreases |bs|
  {
    hide ReadBlock, EncodeBlock, ExpandBlock, ValidBlock, ToBits;
    var bits, e := ToBits(input), EncodeBlock(bs[0], p, out);
    var (p', out') := After(bs[0], p, out);
    var rest := if |bs| == 1 then [] else EncodeBlocks(bs[1..], p', out');
    AtConcat3(bits, p, [|bs| == 1], e, rest);
    BlockComplete(bs[0], input, p, out);
    OneAt(bits, p, |bs| == 1);
    if |bs| > 1 {
      BlocksComplete(bs[1..], input, p', out');
    }
  }

  lemma {:induction false} BlocksSound(input: seq<Byte>, p: nat, out: seq<Byte>) returns (bs: seq<Block>)
    requires p <= 8 * |input| && ReadBlocks(input, p, out).Done?
    ensures ValidBlocks(bs, p, out) && At(ToBits(input), p, EncodeBlocks(bs, p, out))
    ensures ReadBlocks(input, p, out) == Done(p + |EncodeBlocks(bs, p, out)|, ExpandBlocks(bs, p, out))
    decreases 8 * |input| - p
  {
    hide ReadBlock, EncodeBlock, ExpandBlock, ValidBlock, ToBits;
    var bits := ToBits(input);
    var b := BlockSound(input, p, out);
    var (p', out') := After(b, p, out);
    if bits[p] {
      bs := [b];
      AtConcat3(bits, p, [true], EncodeBlock(b, p, out), []);
    } else {
      var rest := BlocksSound(input, p', out');
      bs := [b] + rest;
      assert bs[1..] == rest;
      AtConcat3(bits, p, [false], EncodeBlock(b, p, out), EncodeBlocks(rest, p', out'));
    }
  }

  // The decoder accepts exactly the byte strings that start with a legal encoding. It stops at that
  // encoding's end, and its output is the encoding's LZ77 expansion.
  lemma InflateExact(input: seq<Byte>, end: nat, out: seq<Byte>)
    ensures Inflate(input) == Done(end, out) <==> exists bs :: Spells(bs, input, end, out)
  {
    hide ReadBlocks, ValidBlocks, EncodeBlocks, ExpandBlocks, ToBits;
    if Inflate(input) == Done(end, out) {
      var bs := BlocksSound(input, 0, []);
      assert Spells(bs, input, end, out);
    }
    forall bs | Spells(bs, input, end, out)
      ensures Inflate(input) == Done(end, out)
    {
      BlocksComplete(bs, input, 0, []);
    }
  }

  // Any two legal readings of one input agree, and agree with the decoder.
  lemma SpelledOnce(input: seq<Byte>)
    ensures forall bs, end, out :: Spells(bs, input, end, out) ==> Inflate(input) == Done(end, out)
    ensures Inflate(input).Done? ==> exists bs :: Spells(bs, input, Inflate(input).pos, Inflate(input).out)
  {
    hide Spells, Inflate;
    forall bs, end, out | Spells(bs, input, end, out)
      ensures Inflate(input) == Done(end, out)
    {
      InflateExact(input, end, out);
    }
    if Inflate(input).Done? {
      InflateExact(input, Inflate(input).pos, Inflate(input).out);
    }
  }

  // Reading succeeds exactly on the inputs that start with a legal encoding.
  lemma DoneExactly(input: seq<Byte>)
    ensures Inflate(input).Done? <==> exists bs, end, out :: Spells(bs, input, end, out)
  {
    hide Spells, Inflate;
    SpelledOnce(input);
    if Inflate(input).Done? {
      var bs :| Spells(bs, input, Inflate(input).pos, Inflate(input).out);
    }
  }
}
