// The DEFLATE format (RFC 1951): what a legal encoding is, what it stands for, and what reading one means.
module Deflate {
  import opened Options
  import opened Bits
  import opened Canonical

  const WINDOW: nat := 32768
  const END_OF_BLOCK: nat := 256

  const LENGTH_BASE: seq<nat> := [3, 4, 5, 6, 7, 8, 9, 10, 11, 13, 15, 17, 19, 23, 27, 31, 35, 43, 51, 59, 67, 83, 99,
                                  115, 131, 163, 195, 227, 258]
  const LENGTH_EXTRA: seq<nat> := [0, 0, 0, 0, 0, 0, 0, 0, 1, 1, 1, 1, 2, 2, 2, 2, 3, 3, 3, 3, 4, 4, 4, 4, 5, 5, 5, 5, 0]
  const DIST_BASE: seq<nat> := [1, 2, 3, 4, 5, 7, 9, 13, 17, 25, 33, 49, 65, 97, 129, 193, 257, 385, 513, 769, 1025, 1537,
                                2049, 3073, 4097, 6145, 8193, 12289, 16385, 24577]
  const DIST_EXTRA: seq<nat> := [0, 0, 0, 0, 1, 1, 2, 2, 3, 3, 4, 4, 5, 5, 6, 6, 7, 7, 8, 8, 9, 9, 10, 10, 11, 11, 12, 12,
                                 13, 13]
  // The order in which code-length code lengths are sent, and its inverse.
  const ORDER: seq<nat> := [16, 17, 18, 0, 8, 7, 9, 6, 10, 5, 11, 4, 12, 3, 13, 2, 14, 1, 15]
  const ORDER_INDEX: seq<nat> := [3, 17, 15, 13, 11, 9, 7, 5, 4, 6, 8, 10, 12, 14, 16, 18, 0, 1, 2]

  function FixedLength(s: nat): nat {
    if s < 144 then 8 else if s < 256 then 9 else if s < 280 then 7 else 8
  }

  function FixedLiterals(): (ls: Lengths)
    ensures |ls| == 288 && forall s :: 0 <= s < 288 ==> ls[s] == FixedLength(s)
  {
    seq(288, s requires 0 <= s => FixedLength(s))
  }

  function FixedDistances(): (ls: Lengths)
    ensures |ls| == 30 && forall s :: 0 <= s < 30 ==> ls[s] == 5
  {
    seq(30, s => 5)
  }

  // ---------- Tokens and what they stand for ----------

  // A copy names its length and distance by symbol and extra bits: the same length can have two spellings.
  datatype Token = Literal(byte: Byte) | Copy(len: nat, lenExtra: nat, dist: nat, distExtra: nat) {
    ghost predicate Valid() {
      Copy? ==>
        && len < 29 && lenExtra < Pow2(LENGTH_EXTRA[len])
        && dist < 30 && distExtra < Pow2(DIST_EXTRA[dist])
    }

    function Length(): nat
      requires Copy? && len < 29
    {
      LENGTH_BASE[len] + lenExtra
    }

    function Distance(): (d: nat)
      requires Copy? && dist < 30
      ensures d >= 1
    {
      DIST_BASE[dist] + distExtra
    }
  }

  // n more bytes, each the byte `distance` before it: an overlapping copy repeats what it wrote.
  function CopyBytes(out: seq<Byte>, distance: nat, n: nat): (r: seq<Byte>)
    requires 1 <= distance <= |out|
    ensures out <= r && |r| == |out| + n
    decreases n, |out|
  {
    if n == 0 then out else
      var r := CopyBytes(out, distance, n - 1);
      r + [r[|r| - distance]]
  }

  // A copied byte k = distance * q + r places on is the byte r places into the copied range.
  lemma {:induction false} CopyRepeats(out: seq<Byte>, distance: nat, n: nat, q: nat, r: nat)
    requires 1 <= distance <= |out| && r < distance && distance * q + r < n
    ensures CopyBytes(out, distance, n)[|out| + distance * q + r] == out[|out| - distance + r]
    decreases n, q
  {
    var k := distance * q + r;
    if k < n - 1 {
      CopyRepeats(out, distance, n - 1, q, r);
    } else if q > 0 {
      assert distance * (q - 1) + r == k - distance;
      CopyRepeats(out, distance, n - 1, q - 1, r);
    } else {
      assert k == r;
    }
  }

  // Closed form: a copy repeats the last `distance` bytes periodically.
  lemma CopyIsPeriodic(out: seq<Byte>, distance: nat, n: nat, k: nat)
    requires 1 <= distance <= |out| && k < n
    ensures CopyBytes(out, distance, n)[|out| + k] == out[|out| - distance + k % distance]
  {
    CopyRepeats(out, distance, n, k / distance, k % distance);
  }

  ghost predicate CanExpand(out: seq<Byte>, t: Token) {
    t.Valid() && (t.Copy? ==> t.Distance() <= |out|)
  }

  ghost function ExpandToken(out: seq<Byte>, t: Token): (r: seq<Byte>)
    requires CanExpand(out, t)
    ensures out <= r
  {
    match t
    case Literal(b) => out + [b]
    case Copy(_, _, _, _) => CopyBytes(out, t.Distance(), t.Length())
  }

  ghost predicate CanExpandAll(out: seq<Byte>, ts: seq<Token>)
    decreases |ts|
  {
    ts == [] || (CanExpand(out, ts[0]) && CanExpandAll(ExpandToken(out, ts[0]), ts[1..]))
  }

  // The LZ77 expansion of a token list after earlier output.
  ghost function Expand(out: seq<Byte>, ts: seq<Token>): seq<Byte>
    requires CanExpandAll(out, ts)
    decreases |ts|
  {
    if ts == [] then out else Expand(ExpandToken(out, ts[0]), ts[1..])
  }

  // ---------- Encoding ----------

  // The token's symbols have codes.
  ghost predicate HasCodes(literals: Lengths, distances: Lengths, t: Token) {
    && t.Valid()
    && match t
       case Literal(b) => b < |literals| && literals[b] >= 1
       case Copy(len, _, dist, _) =>
         && 257 + len < |literals| && literals[257 + len] >= 1
         && dist < |distances| && distances[dist] >= 1
  }

  ghost function EncodeToken(literals: Lengths, distances: Lengths, t: Token): seq<bool>
    requires HasCodes(literals, distances, t)
  {
    match t
    case Literal(b) => Code(literals, b)
    case Copy(len, lx, dist, dx) =>
      Code(literals, 257 + len) + LsbBits(lx, LENGTH_EXTRA[len]) + (Code(distances, dist) + LsbBits(dx, DIST_EXTRA[dist]))
  }

  ghost predicate Encodable(literals: Lengths, distances: Lengths, ts: seq<Token>) {
    && |literals| > END_OF_BLOCK && literals[END_OF_BLOCK] >= 1
    && forall i :: 0 <= i < |ts| ==> HasCodes(literals, distances, ts[i])
  }

  // The tokens' codes followed by the end-of-block code.
  ghost function EncodeTokens(literals: Lengths, distances: Lengths, ts: seq<Token>): seq<bool>
    requires Encodable(literals, distances, ts)
  {
    if ts == [] then Code(literals, END_OF_BLOCK)
    else EncodeToken(literals, distances, ts[0]) + EncodeTokens(literals, distances, ts[1..])
  }

  // The run-length code for code lengths (section 3.2.7 of RFC 1951).
  datatype LengthOp = Length(n: nat) | Previous(n: nat) | Zeros(n: nat) | ManyZeros(n: nat) {
    predicate Valid() {
      match this
      case Length(n) => n < 16
      case Previous(n) => 3 <= n < 7
      case Zeros(n) => 3 <= n < 11
      case ManyZeros(n) => 11 <= n < 139
    }

    function Symbol(): nat {
      match this
      case Length(n) => n
      case Previous(_) => 16
      case Zeros(_) => 17
      case ManyZeros(_) => 18
    }

    function Extra(): seq<bool>
      requires Valid()
    {
      match this
      case Length(_) => []
      case Previous(n) => LsbBits(n - 3, 2)
      case Zeros(n) => LsbBits(n - 3, 3)
      case ManyZeros(n) => LsbBits(n - 11, 7)
    }
  }

  function Repeat(v: nat, n: nat): (r: seq<nat>)
    ensures |r| == n && forall i :: 0 <= i < n ==> r[i] == v
  {
    seq(n, _ => v)
  }

  // What an operation appends to the lengths so far.
  function OpLengths(soFar: seq<nat>, op: LengthOp): seq<nat>
    requires op.Previous? ==> soFar != []
  {
    match op
    case Length(n) => [n]
    case Previous(n) => Repeat(soFar[|soFar| - 1], n)
    case Zeros(n) => Repeat(0, n)
    case ManyZeros(n) => Repeat(0, n)
  }

  ghost predicate OpsValid(code: Lengths, soFar: seq<nat>, ops: seq<LengthOp>)
    decreases |ops|
  {
    ops == [] ||
    (&& ops[0].Valid() && ops[0].Symbol() < |code| && code[ops[0].Symbol()] >= 1
     && (ops[0].Previous? ==> soFar != [])
     && OpsValid(code, soFar + OpLengths(soFar, ops[0]), ops[1..]))
  }

  ghost function OpsResult(code: Lengths, soFar: seq<nat>, ops: seq<LengthOp>): seq<nat>
    requires OpsValid(code, soFar, ops)
    decreases |ops|
  {
    if ops == [] then soFar else OpsResult(code, soFar + OpLengths(soFar, ops[0]), ops[1..])
  }

  ghost function EncodeOps(code: Lengths, soFar: seq<nat>, ops: seq<LengthOp>): seq<bool>
    requires OpsValid(code, soFar, ops)
    decreases |ops|
  {
    if ops == [] then []
    else Code(code, ops[0].Symbol()) + ops[0].Extra() + EncodeOps(code, soFar + OpLengths(soFar, ops[0]), ops[1..])
  }

  // The code-length code's lengths from the raw three-bit fields, sent in ORDER.
  function CodeLengthLengths(raw: seq<nat>): (ls: Lengths)
    requires |raw| <= 19 && forall i :: 0 <= i < |raw| ==> raw[i] < 8
    ensures |ls| == 19
  {
    seq(19, s requires 0 <= s < 19 => if ORDER_INDEX[s] < |raw| then raw[ORDER_INDEX[s]] else 0)
  }

  datatype Header = Header(literals: nat, distances: nat, raw: seq<nat>, ops: seq<LengthOp>) {
    ghost predicate Shape() {
      && 257 <= literals <= 286 && 1 <= distances <= 30 && 4 <= |raw| <= 19
      && (forall i :: 0 <= i < |raw| ==> raw[i] < 8)
      && OpsValid(CodeLengthLengths(raw), [], ops)
    }

    ghost function Lengths(): seq<nat>
      requires Shape()
    {
      OpsResult(CodeLengthLengths(raw), [], ops)
    }

    ghost predicate Valid() {
      && Shape()
      && NotOverSubscribed(CodeLengthLengths(raw))
      && |Lengths()| == literals + distances
      && (forall i :: 0 <= i < |Lengths()| ==> Lengths()[i] <= MAX_LENGTH)
      && NotOverSubscribed(Lengths()[..literals])
      && NotOverSubscribed(Lengths()[literals..])
    }

    ghost function LiteralLengths(): Lengths
      requires Valid()
    {
      Lengths()[..literals]
    }

    ghost function DistanceLengths(): Lengths
      requires Valid()
    {
      Lengths()[literals..]
    }

    ghost function Encode(): seq<bool>
      requires Shape()
    {
      LsbBits(literals - 257, 5) + LsbBits(distances - 1, 5) + LsbBits(|raw| - 4, 4) +
      RawBits(raw) + EncodeOps(CodeLengthLengths(raw), [], ops)
    }
  }

  predicate NotOverSubscribed(ls: Lengths) {
    Kraft(ls) <= Pow2(MAX_LENGTH)
  }

  lemma FixedNotOverSubscribed()
    ensures NotOverSubscribed(FixedLiterals()) && NotOverSubscribed(FixedDistances())
  {
    hide Kraft, Pow2;
    Pow2Constants();
    KraftNone(FixedLiterals());
    KraftNone(FixedDistances());
    KraftRun(FixedLiterals(), 0, 144, 8);
    KraftRun(FixedLiterals(), 144, 256, 9);
    KraftRun(FixedLiterals(), 256, 280, 7);
    KraftRun(FixedLiterals(), 280, 288, 8);
    KraftRun(FixedDistances(), 0, 30, 5);
    assert Pow2(6) == 64 && Pow2(10) == 1024 by { Pow2More(); }
  }

  lemma Pow2More()
    ensures Pow2(6) == 64 && Pow2(10) == 1024
  {
  }

  lemma KraftNone(ls: Lengths)
    ensures Kraft(ls[..0]) == 0 && ls[..|ls|] == ls
  {
  }

  lemma {:induction false} KraftRun(ls: Lengths, i: nat, j: nat, l: nat)
    requires i <= j <= |ls| && 1 <= l <= MAX_LENGTH
    requires forall k :: i <= k < j ==> ls[k] == l
    ensures Kraft(ls[..j]) == Kraft(ls[..i]) + (j - i) * Pow2(MAX_LENGTH - l)
    decreases j
  {
    hide Pow2;
    var c := Pow2(MAX_LENGTH - l);
    if i < j {
      KraftRun(ls, i, j - 1, l);
      assert ls[..j][..j - 1] == ls[..j - 1];
      assert (j - i) * c == (j - 1 - i) * c + c;
    }
  }

  // Three bits for each field.
  function RawBits(raw: seq<nat>): (bits: seq<bool>)
    ensures |bits| == 3 * |raw|
  {
    if raw == [] then [] else RawBits(raw[..|raw| - 1]) + LsbBits(raw[|raw| - 1], 3)
  }

  datatype Block =
    | Stored(padding: seq<bool>, data: seq<Byte>)
    | Fixed(tokens: seq<Token>)
    | Dynamic(header: Header, tokens: seq<Token>)

  // A block that may stand at bit position p after `out` has been produced.
  ghost predicate ValidBlock(b: Block, p: nat, out: seq<Byte>) {
    match b
    case Stored(padding, data) =>
      (p + 3 + |padding|) % 8 == 0 && |padding| < 8 && |data| < 65536
    case Fixed(ts) =>
      Encodable(FixedLiterals(), FixedDistances(), ts) && CanExpandAll(out, ts)
    case Dynamic(h, ts) =>
      h.Valid() && Encodable(h.LiteralLengths(), h.DistanceLengths(), ts) && CanExpandAll(out, ts)
  }

  // The block's bits after the last-block bit.
  ghost function EncodeBlock(b: Block, p: nat, out: seq<Byte>): seq<bool>
    requires ValidBlock(b, p, out)
  {
    match b
    case Stored(padding, data) =>
      LsbBits(0, 2) + padding + (LsbBits(|data|, 16) + LsbBits(65535 - |data|, 16) + ToBits(data))
    case Fixed(ts) =>
      LsbBits(1, 2) + EncodeTokens(FixedLiterals(), FixedDistances(), ts)
    case Dynamic(h, ts) =>
      LsbBits(2, 2) + h.Encode() + EncodeTokens(h.LiteralLengths(), h.DistanceLengths(), ts)
  }

  ghost function ExpandBlock(b: Block, p: nat, out: seq<Byte>): seq<Byte>
    requires ValidBlock(b, p, out)
  {
    match b
    case Stored(_, data) => out + data
    case Fixed(ts) => Expand(out, ts)
    case Dynamic(_, ts) => Expand(out, ts)
  }

  // Where the block after b starts, and the output it continues.
  ghost function After(b: Block, p: nat, out: seq<Byte>): (nat, seq<Byte>)
    requires ValidBlock(b, p, out)
  {
    (p + 1 + |EncodeBlock(b, p, out)|, ExpandBlock(b, p, out))
  }

  // A non-empty run of blocks from position p; only the last carries the last-block bit.
  ghost predicate ValidBlocks(bs: seq<Block>, p: nat, out: seq<Byte>)
    decreases |bs|
  {
    && bs != [] && ValidBlock(bs[0], p, out)
    && (|bs| == 1 || ValidBlocks(bs[1..], After(bs[0], p, out).0, After(bs[0], p, out).1))
  }

  ghost function EncodeBlocks(bs: seq<Block>, p: nat, out: seq<Byte>): seq<bool>
    requires ValidBlocks(bs, p, out)
    decreases |bs|
  {
    [|bs| == 1] + EncodeBlock(bs[0], p, out) +
    if |bs| == 1 then [] else EncodeBlocks(bs[1..], After(bs[0], p, out).0, After(bs[0], p, out).1)
  }

  ghost function ExpandBlocks(bs: seq<Block>, p: nat, out: seq<Byte>): seq<Byte>
    requires ValidBlocks(bs, p, out)
    decreases |bs|
  {
    if |bs| == 1 then ExpandBlock(bs[0], p, out)
    else ExpandBlocks(bs[1..], After(bs[0], p, out).0, After(bs[0], p, out).1)
  }

  // The blocks spell the first `end` bits of the input and stand for `out`.
  ghost predicate Spells(bs: seq<Block>, input: seq<Byte>, end: nat, out: seq<Byte>) {
    && ValidBlocks(bs, 0, [])
    && end <= 8 * |input|
    && EncodeBlocks(bs, 0, []) == ToBits(input)[..end]
    && ExpandBlocks(bs, 0, []) == out
  }

  // ---------- Reading ----------

  datatype Status = Ok | InputEnded | BadData | OutputFailed

  // Where reading ended and all the output up to there, or why it stopped and the output before that.
  datatype Outcome = Done(pos: nat, out: seq<Byte>) | Failed(status: Status, out: seq<Byte>)

  // The two ways a read can fail; a refused write is not one of them.
  predicate ReadFailure(status: Status) {
    status == InputEnded || status == BadData
  }

  function ReadBits(bits: seq<bool>, p: nat, n: nat): Option<nat> {
    if p + n <= |bits| then Some(LsbVal(bits[p..p + n])) else None
  }

  ghost function ReadCodes(literals: Lengths, distances: Lengths, bits: seq<bool>, p: nat, out: seq<Byte>): (r: Outcome)
    requires p <= |bits|
    ensures out <= r.out
    ensures r.Done? ==> p <= r.pos <= |bits|
    ensures r.Failed? ==> ReadFailure(r.status)
    decreases |bits| - p
  {
    match ReadSymbol(literals, bits, p)
    case Ended => Failed(InputEnded, out)
    case Unassigned => Failed(BadData, out)
    case Symbol(s, q) =>
      if s < 256 then ReadCodes(literals, distances, bits, q, out + [s])
      else if s == END_OF_BLOCK then Done(q, out)
      else if s - 257 >= 29 then Failed(BadData, out)
      else ReadCopy(literals, distances, bits, s - 257, q, out)
  }

  // The rest of a copy token, after its length symbol.
  ghost function ReadCopy(literals: Lengths, distances: Lengths, bits: seq<bool>, len: nat, p: nat, out: seq<Byte>)
    : (r: Outcome)
    requires p <= |bits| && len < 29
    ensures out <= r.out
    ensures r.Done? ==> p <= r.pos <= |bits|
    ensures r.Failed? ==> ReadFailure(r.status)
    decreases |bits| - p
  {
    match ReadBits(bits, p, LENGTH_EXTRA[len])
    case None => Failed(InputEnded, out)
    case Some(lx) =>
      match ReadSymbol(distances, bits, p + LENGTH_EXTRA[len])
      case Ended => Failed(InputEnded, out)
      case Unassigned => Failed(BadData, out)
      case Symbol(d, q) =>
        if d >= 30 then Failed(BadData, out)
        else match ReadBits(bits, q, DIST_EXTRA[d])
             case None => Failed(InputEnded, out)
             case Some(dx) =>
               var t := Copy(len, lx, d, dx);
               if t.Distance() > |out| then Failed(BadData, out)
               else ReadCodes(literals, distances, bits, q + DIST_EXTRA[d], CopyBytes(out, t.Distance(), t.Length()))
  }

  datatype LengthsOutcome = LengthsDone(pos: nat, lengths: seq<nat>) | LengthsFailed(status: Status)

  // How many lengths the repeat symbol s stands for: a base and a field of extra bits.
  function RepeatBase(s: nat): nat {
    if s == 18 then 11 else 3
  }

  function RepeatBits(s: nat): nat {
    if s == 16 then 2 else if s == 17 then 3 else 7
  }

  ghost function ReadLengths(code: Lengths, bits: seq<bool>, p: nat, total: nat, soFar: seq<nat>): (r: LengthsOutcome)
    requires p <= |bits| && |soFar| <= total && |code| == 19
    requires forall i :: 0 <= i < |soFar| ==> soFar[i] <= MAX_LENGTH
    ensures r.LengthsDone? ==> p <= r.pos <= |bits| && |r.lengths| == total
    ensures r.LengthsDone? ==> forall i :: 0 <= i < total ==> r.lengths[i] <= MAX_LENGTH
    ensures r.LengthsFailed? ==> ReadFailure(r.status)
    decreases total - |soFar|
  {
    if |soFar| == total then LengthsDone(p, soFar)
    else match ReadSymbol(code, bits, p)
         case Ended => LengthsFailed(InputEnded)
         case Unassigned => LengthsFailed(BadData)
         case Symbol(s, q) =>
           if s < 16 then ReadLengths(code, bits, q, total, soFar + [s])
           else if s == 16 && soFar == [] then LengthsFailed(BadData)
           else match ReadBits(bits, q, RepeatBits(s))
                case None => LengthsFailed(InputEnded)
                case Some(x) =>
                  var times := RepeatBase(s) + x;
                  if |soFar| + times > total then LengthsFailed(BadData)
                  else
                    var value := if s == 16 then soFar[|soFar| - 1] else 0;
                    ReadLengths(code, bits, q + RepeatBits(s), total, soFar + Repeat(value, times))
  }

  function RawField(bits: seq<bool>, p: nat): (v: nat)
    requires p + 3 <= |bits|
    ensures v < 8
  {
    Pow2Constants();
    LsbVal(bits[p..p + 3])
  }

  // The n raw fields of three bits from position p.
  function RawFields(bits: seq<bool>, p: nat, n: nat): (raw: seq<nat>)
    requires p + 3 * n <= |bits|
    ensures |raw| == n && forall i :: 0 <= i < n ==> raw[i] < 8
  {
    seq(n, i requires 0 <= i < n => RawField(bits, p + 3 * i))
  }

  datatype HeaderOutcome = HeaderDone(pos: nat, literals: Lengths, distances: Lengths) | HeaderFailed(status: Status)

  // The two codes of a dynamic block, once the code-length code is known.
  ghost function ReadCodeLengths(code: Lengths, bits: seq<bool>, p: nat, literals: nat, distances: nat): (r: HeaderOutcome)
    requires p <= |bits| && |code| == 19 && 257 <= literals <= 286 && 1 <= distances <= 30
    ensures r.HeaderDone? ==> p <= r.pos <= |bits|
    ensures r.HeaderFailed? ==> ReadFailure(r.status)
  {
    match ReadLengths(code, bits, p, literals + distances, [])
    case LengthsFailed(status) => HeaderFailed(status)
    case LengthsDone(q, lengths) =>
      if lengths[END_OF_BLOCK] == 0 then HeaderFailed(BadData)
      else if !NotOverSubscribed(lengths[..literals]) || !NotOverSubscribed(lengths[literals..]) then
        HeaderFailed(BadData)
      else HeaderDone(q, lengths[..literals], lengths[literals..])
  }

  ghost function ReadHeader(bits: seq<bool>, p: nat): (r: HeaderOutcome)
    requires p <= |bits|
    ensures r.HeaderDone? ==> p <= r.pos <= |bits|
    ensures r.HeaderFailed? ==> ReadFailure(r.status)
  {
    if p + 14 > |bits| then HeaderFailed(InputEnded) else
      var literals := LsbVal(bits[p..p + 5]) + 257;
      var distances := LsbVal(bits[p + 5..p + 10]) + 1;
      var n := LsbVal(bits[p + 10..p + 14]) + 4;
      if literals > 286 || distances > 30 then HeaderFailed(BadData)
      else if p + 14 + 3 * n > |bits| then HeaderFailed(InputEnded)
      else
        Pow2Constants();
        var code := CodeLengthLengths(RawFields(bits, p + 14, n));
        if !NotOverSubscribed(code) then HeaderFailed(BadData)
        else ReadCodeLengths(code, bits, p + 14 + 3 * n, literals, distances)
  }

  ghost function ReadDynamic(bits: seq<bool>, p: nat, out: seq<Byte>): (r: Outcome)
    requires p <= |bits|
    ensures out <= r.out
    ensures r.Done? ==> p <= r.pos <= |bits|
    ensures r.Failed? ==> ReadFailure(r.status)
  {
    match ReadHeader(bits, p)
    case HeaderFailed(status) => Failed(status, out)
    case HeaderDone(q, literals, distances) => ReadCodes(literals, distances, bits, q, out)
  }

  // A sixteen-bit number sent low byte first.
  function Word16(low: Byte, high: Byte): nat {
    var l: nat, h: nat := low, high;
    l + 256 * h
  }

  // A stored block's contents: the rest of the current byte is skipped.
  ghost function ReadStored(input: seq<Byte>, p: nat, out: seq<Byte>): (r: Outcome)
    requires p <= 8 * |input|
    ensures out <= r.out
    ensures r.Done? ==> p <= r.pos <= 8 * |input|
    ensures r.Failed? ==> ReadFailure(r.status)
  {
    var q := (p + 7) / 8;
    if q + 4 > |input| then Failed(InputEnded, out)
    else if Word16(input[q], input[q + 1]) + Word16(input[q + 2], input[q + 3]) != 65535 then Failed(BadData, out)
    else
      var n := Word16(input[q], input[q + 1]);
      if q + 4 + n > |input| then Failed(InputEnded, out + input[q + 4..])
      else Done(8 * (q + 4 + n), out + input[q + 4..q + 4 + n])
  }

  ghost function ReadBlock(input: seq<Byte>, p: nat, out: seq<Byte>): (r: Outcome)
    requires p + 2 <= 8 * |input|
    ensures out <= r.out
    ensures r.Done? ==> p + 2 <= r.pos <= 8 * |input|
    ensures r.Failed? ==> ReadFailure(r.status)
  {
    var bits := ToBits(input);
    var kind := LsbVal(bits[p..p + 2]);
    if kind == 0 then ReadStored(input, p + 2, out)
    else if kind == 1 then ReadCodes(FixedLiterals(), FixedDistances(), bits, p + 2, out)
    else if kind == 2 then ReadDynamic(bits, p + 2, out)
    else Failed(BadData, out)
  }

  ghost function ReadBlocks(input: seq<Byte>, p: nat, out: seq<Byte>): (r: Outcome)
    requires p <= 8 * |input|
    ensures out <= r.out
    ensures r.Done? ==> p <= r.pos <= 8 * |input|
    ensures r.Failed? ==> ReadFailure(r.status)
    decreases 8 * |input| - p
  {
    if p + 3 > 8 * |input| then Failed(InputEnded, out)
    else
      match ReadBlock(input, p + 1, out)
      case Failed(status, out') => Failed(status, out')
      case Done(q, out') => if ToBits(input)[p] then Done(q, out') else ReadBlocks(input, q, out')
  }

  ghost function Inflate(input: seq<Byte>): Outcome {
    ReadBlocks(input, 0, [])
  }
}
