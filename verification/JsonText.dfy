// The strict JSON parser. Text is what is left to read; its end reads as NUL, as the end of a C string does.
module JsonText {
  import opened Options

  const MAX_DEPTH: nat := 32

  function Peek(t: string): char {
    if t == [] then '\0' else t[0]
  }

  predicate IsWs(c: char) {
    c == ' ' || c == '\t' || c == '\n' || c == '\r'
  }

  function SkipWs(t: string): (r: string)
    ensures |r| <= |t| && !IsWs(Peek(r))
    decreases |t|
  {
    if IsWs(Peek(t)) then SkipWs(t[1..]) else t
  }

  // ---------- Strings ----------

  predicate IsDigit(c: char) {
    '0' <= c <= '9'
  }

  predicate IsHex(c: char) {
    IsDigit(c) || 'a' <= c <= 'f' || 'A' <= c <= 'F'
  }

  function HexValue(c: char): (v: nat)
    requires IsHex(c)
    ensures v < 16
  {
    if IsDigit(c) then c as nat - '0' as nat
    else if 'a' <= c <= 'f' then c as nat - 'a' as nat + 10
    else c as nat - 'A' as nat + 10
  }

  predicate HasHex4(t: string) {
    |t| >= 4 && IsHex(t[0]) && IsHex(t[1]) && IsHex(t[2]) && IsHex(t[3])
  }

  function Hex4(t: string): (v: nat)
    requires HasHex4(t)
    ensures v < 0x1_0000
  {
    ((HexValue(t[0]) * 16 + HexValue(t[1])) * 16 + HexValue(t[2])) * 16 + HexValue(t[3])
  }

  function Byte(n: nat): char
    requires n < 256
  {
    n as char
  }

  function Utf8(code: nat): (s: string)
    requires code < 0x11_0000
    ensures '\0' in s <==> code == 0
  {
    if code < 0x80 then [Byte(code)]
    else if code < 0x800 then [Byte(0xc0 + code / 64), Byte(0x80 + code % 64)]
    else if code < 0x1_0000 then [Byte(0xe0 + code / 4096), Byte(0x80 + code / 64 % 64), Byte(0x80 + code % 64)]
    else [Byte(0xf0 + code / 262144), Byte(0x80 + code / 4096 % 64), Byte(0x80 + code / 64 % 64), Byte(0x80 + code % 64)]
  }

  predicate IsSimpleEscape(c: char) {
    c == '"' || c == '\\' || c == '/' || c == 'b' || c == 'f' || c == 'n' || c == 'r' || c == 't'
  }

  function SimpleEscape(c: char): (r: char)
    requires IsSimpleEscape(c)
    ensures r != '\0'
  {
    match c
    case 'b' => 8 as char
    case 'f' => 12 as char
    case 'n' => '\n'
    case 'r' => '\r'
    case 't' => '\t'
    case _ => c
  }

  predicate IsHigh(code: nat) {
    0xd800 <= code <= 0xdbff
  }

  predicate IsLow(code: nat) {
    0xdc00 <= code <= 0xdfff
  }

  // One character or escape of a string literal: the bytes it stands for and how many it takes.
  datatype Piece = Piece(text: string, n: nat)

  // After the backslash and the u.
  function UnicodePiece(t: string): (r: Option<Piece>)
    ensures r.Some? ==> 4 <= r.value.n <= |t|
  {
    if !HasHex4(t) then None else
      var code, rest := Hex4(t), t[4..];
      if IsHigh(code) && |rest| >= 2 && rest[0] == '\\' && rest[1] == 'u' then
        if !HasHex4(rest[2..]) then None
        else if IsLow(Hex4(rest[2..])) then
          Some(Piece(Utf8(0x1_0000 + (code - 0xd800) * 1024 + (Hex4(rest[2..]) - 0xdc00)), 10))
        else Some(Piece(Utf8(code), 4))
      else Some(Piece(Utf8(code), 4))
  }

  function NextPiece(t: string): (r: Option<Piece>)
    requires t != [] && t[0] != '"'
    ensures r.Some? ==> 1 <= r.value.n <= |t|
  {
    if t[0] < ' ' then None
    else if t[0] != '\\' then Some(Piece([t[0]], 1))
    else if IsSimpleEscape(Peek(t[1..])) then Some(Piece([SimpleEscape(t[1])], 2))
    else if Peek(t[1..]) == 'u' then
      match UnicodePiece(t[2..])
      case None => None
      case Some(p) => Some(Piece(p.text, p.n + 2))
    else None
  }

  datatype Literal = Literal(text: string, rest: string)

  // The rest of a string literal, after its opening quote.
  function ReadChars(t: string): (r: Option<Literal>)
    ensures r.Some? ==> |r.value.rest| < |t|
    decreases |t|
  {
    if t == [] then None
    else if t[0] == '"' then Some(Literal("", t[1..]))
    else
      match NextPiece(t)
      case None => None
      case Some(p) =>
        match ReadChars(t[p.n..])
        case None => None
        case Some(l) => Some(Literal(p.text + l.text, l.rest))
  }

  // A string literal whose text has no NUL.
  function ReadString(t: string): (r: Option<string>)
    ensures r.Some? ==> |r.value| < |t|
  {
    if Peek(t) != '"' then None else
      match ReadChars(t[1..])
      case None => None
      case Some(l) => if '\0' in l.text then None else Some(l.rest)
  }

  // ---------- Numbers ----------

  function SkipDigits(t: string): (r: string)
    ensures |r| <= |t|
    decreases |t|
  {
    if IsDigit(Peek(t)) then SkipDigits(t[1..]) else t
  }

  function Exponent(t: string): (r: Option<string>)
    ensures r.Some? ==> |r.value| <= |t|
  {
    if Peek(t) == 'e' || Peek(t) == 'E' then
      var t := t[1..];
      var t := if Peek(t) == '+' || Peek(t) == '-' then t[1..] else t;
      if IsDigit(Peek(t)) then Some(SkipDigits(t)) else None
    else Some(t)
  }

  function Fraction(t: string): (r: Option<string>)
    ensures r.Some? ==> |r.value| <= |t|
  {
    if Peek(t) == '.' then if IsDigit(Peek(t[1..])) then Exponent(SkipDigits(t[1..])) else None
    else Exponent(t)
  }

  function ReadNumber(t: string): (r: Option<string>)
    ensures r.Some? ==> |r.value| < |t|
  {
    var t := if Peek(t) == '-' then t[1..] else t;
    if !IsDigit(Peek(t)) then None
    else if t[0] == '0' && IsDigit(Peek(t[1..])) then None
    else SkipDigitsShrinks(t); Fraction(SkipDigits(t))
  }

  lemma SkipDigitsShrinks(t: string)
    requires IsDigit(Peek(t))
    ensures |SkipDigits(t)| < |t|
  {
  }

  predicate StartsWith(t: string, w: string) {
    |w| <= |t| && t[..|w|] == w
  }

  lemma WordStart(t: string, w: string)
    requires w != []
    ensures StartsWith(t, w) ==> t != [] && t[0] == w[0]
  {
    if StartsWith(t, w) {
      assert t[..|w|][0] == t[0];
    }
  }

  // A number, true, false or null.
  function ReadScalar(t: string): (r: Option<string>)
    ensures r.Some? ==> |r.value| < |t|
  {
    if StartsWith(t, "true") then Some(t[4..])
    else if StartsWith(t, "false") then Some(t[5..])
    else if StartsWith(t, "null") then Some(t[4..])
    else ReadNumber(t)
  }

  // ---------- Values ----------

  function ParseValue(t: string, depth: nat): (r: Option<string>)
    ensures r.Some? ==> |r.value| < |t|
    decreases |t|, 0
  {
    if depth > MAX_DEPTH then None else
      var t := SkipWs(t);
      if Peek(t) == '{' then
        var t := SkipWs(t[1..]);
        if Peek(t) == '}' then Some(t[1..]) else ParseMembers(t, depth)
      else if Peek(t) == '[' then
        var t := SkipWs(t[1..]);
        if Peek(t) == ']' then Some(t[1..]) else ParseItems(t, depth)
      else if Peek(t) == '"' then ReadString(t)
      else ReadScalar(t)
  }

  // A member's name and colon.
  function ReadName(t: string): (r: Option<string>)
    ensures r.Some? ==> |r.value| < |t|
  {
    match ReadString(SkipWs(t))
    case None => None
    case Some(rest) =>
      var rest := SkipWs(rest);
      if Peek(rest) == ':' then Some(rest[1..]) else None
  }

  function ParseMembers(t: string, depth: nat): (r: Option<string>)
    ensures r.Some? ==> |r.value| < |t|
    decreases |t|, 1
  {
    match ReadName(t)
    case None => None
    case Some(value) =>
      match ParseValue(value, depth + 1)
      case None => None
      case Some(rest) =>
        var rest := SkipWs(rest);
        if Peek(rest) == ',' then ParseMembers(rest[1..], depth)
        else if Peek(rest) == '}' then Some(rest[1..])
        else None
  }

  function ParseItems(t: string, depth: nat): (r: Option<string>)
    ensures r.Some? ==> |r.value| < |t|
    decreases |t|, 1
  {
    match ParseValue(t, depth + 1)
    case None => None
    case Some(rest) =>
      var rest := SkipWs(rest);
      if Peek(rest) == ',' then ParseItems(rest[1..], depth)
      else if Peek(rest) == ']' then Some(rest[1..])
      else None
  }

  // The whole document is one value.
  predicate Accepts(t: string) {
    var r := ParseValue(t, 0);
    r.Some? && Peek(SkipWs(r.value)) == '\0'
  }

  // ---------- The code ----------

  method SkipWsAt(s: string, at: nat) returns (p: nat)
    requires at <= |s|
    ensures at <= p <= |s| && s[p..] == SkipWs(s[at..])
  {
    p := at;
    while p < |s| && IsWs(s[p])
      invariant at <= p <= |s| && SkipWs(s[p..]) == SkipWs(s[at..])
    {
      assert s[p..][1..] == s[p + 1..];
      p := p + 1;
    }
  }

  method ReadHex4At(s: string, at: nat) returns (ok: bool, code: nat)
    requires at <= |s|
    ensures ok <==> HasHex4(s[at..])
    ensures ok ==> code == Hex4(s[at..])
  {
    code := 0;
    var i := 0;
    while i < 4
      invariant 0 <= i <= 4 && at + i <= |s| && forall k :: at <= k < at + i ==> IsHex(s[k])
      invariant i == 0 ==> code == 0
      invariant i == 1 ==> code == HexValue(s[at])
      invariant i == 2 ==> code == HexValue(s[at]) * 16 + HexValue(s[at + 1])
      invariant i == 3 ==> code == (HexValue(s[at]) * 16 + HexValue(s[at + 1])) * 16 + HexValue(s[at + 2])
      invariant i == 4 ==> HasHex4(s[at..]) && code == Hex4(s[at..])
    {
      if at + i >= |s| || !IsHex(s[at + i]) {
        return false, 0;
      }
      code := code * 16 + HexValue(s[at + i]);
      i := i + 1;
    }
    ok := true;
  }

  // One character or escape, at a position that is not the closing quote.
  method PieceAt(s: string, at: nat) returns (r: Option<Piece>)
    requires at < |s| && s[at] != '"'
    ensures r == NextPiece(s[at..])
  {
    if s[at] < ' ' {
      return None;
    }
    if s[at] != '\\' {
      return Some(Piece([s[at]], 1));
    }
    assert s[at..][1..] == s[at + 1..];
    if at + 1 < |s| && IsSimpleEscape(s[at + 1]) {
      return Some(Piece([SimpleEscape(s[at + 1])], 2));
    }
    if at + 1 == |s| || s[at + 1] != 'u' {
      return None;
    }
    var piece := UnicodeAt(s, at + 2);
    assert s[at..][2..] == s[at + 2..];
    r := match piece case None => None case Some(p) => Some(Piece(p.text, p.n + 2));
  }

  method UnicodeAt(s: string, p: nat) returns (r: Option<Piece>)
    requires p <= |s|
    ensures r == UnicodePiece(s[p..])
  {
    hide Utf8, HasHex4, Hex4;
    var ok, code := ReadHex4At(s, p);
    if !ok {
      return None;
    }
    LongEnough(s[p..]);
    var n := 4;
    assert s[p..][4..] == s[p + 4..];
    if IsHigh(code) && p + 6 <= |s| && s[p + 4] == '\\' && s[p + 5] == 'u' {
      var okLow, low := ReadHex4At(s, p + 6);
      assert s[p + 4..][2..] == s[p + 6..];
      if !okLow {
        return None;
      }
      if IsLow(low) {
        code := 0x1_0000 + (code - 0xd800) * 1024 + (low - 0xdc00);
        n := 10;
      }
    }
    r := Some(Piece(Utf8(code), n));
  }

  lemma LongEnough(t: string)
    requires HasHex4(t)
    ensures |t| >= 4
  {
  }

  // A string literal at its opening quote: its text and where it ends.
  method ReadStringAt(s: string, at: nat) returns (ok: bool, text: string, p: nat)
    requires at <= |s|
    ensures ok <==> Peek(s[at..]) == '"' && ReadChars(s[at + 1..]).Some?
    ensures ok ==> at < p <= |s| && ReadChars(s[at + 1..]) == Some(Literal(text, s[p..]))
  {
    hide Reading, NextPiece, ReadChars;
    ok, text, p := false, "", at;
    if at == |s| || s[at] != '"' {
      return;
    }
    p := at + 1;
    ReadingStarts(s, p);
    while p < |s| && s[p] != '"'
      invariant at < p <= |s| && Reading(s, at + 1, p, text)
    {
      var piece := PieceAt(s, p);
      if piece.None? {
        ReadingFails(s, at + 1, p, text);
        return;
      }
      ReadingStep(s, at + 1, p, text);
      text := text + piece.value.text;
      p := p + piece.value.n;
    }
    if p == |s| {
      ReadingFails(s, at + 1, p, text);
      return;
    }
    ReadingEnds(s, at + 1, p, text);
    p := p + 1;
    ok := true;
  }

  function Onto(text: string, r: Option<Literal>): Option<Literal> {
    match r
    case None => None
    case Some(l) => Some(Literal(text + l.text, l.rest))
  }

  lemma OntoNothing(r: Option<Literal>)
    ensures Onto("", r) == r
  {
    if r.Some? {
      assert "" + r.value.text == r.value.text;
    }
  }

  // Reading from `from` gives `text` and goes on at p.
  ghost predicate Reading(s: string, from: nat, p: nat, text: string) {
    from <= |s| && p <= |s| && ReadChars(s[from..]) == Onto(text, ReadChars(s[p..]))
  }

  lemma ReadingStarts(s: string, from: nat)
    requires from <= |s|
    ensures Reading(s, from, from, "")
  {
    OntoNothing(ReadChars(s[from..]));
  }

  lemma ReadingFails(s: string, from: nat, p: nat, text: string)
    requires Reading(s, from, p, text) && (p == |s| || (s[p] != '"' && NextPiece(s[p..]).None?))
    ensures ReadChars(s[from..]).None?
  {
    hide NextPiece;
    assert ReadChars(s[p..]).None?;
  }

  lemma ReadingEnds(s: string, from: nat, p: nat, text: string)
    requires Reading(s, from, p, text) && p < |s| && s[p] == '"'
    ensures ReadChars(s[from..]) == Some(Literal(text, s[p + 1..]))
  {
    hide NextPiece;
    assert s[p..][1..] == s[p + 1..];
    assert ReadChars(s[p..]) == Some(Literal("", s[p + 1..]));
    hide ReadChars;
    assert text + "" == text;
  }

  lemma ReadingStep(s: string, from: nat, p: nat, text: string)
    requires Reading(s, from, p, text) && p < |s| && s[p] != '"' && NextPiece(s[p..]).Some?
    ensures var piece := NextPiece(s[p..]).value;
            p + piece.n <= |s| && Reading(s, from, p + piece.n, text + piece.text)
  {
    hide NextPiece;
    var piece := NextPiece(s[p..]).value;
    assert s[p..][piece.n..] == s[p + piece.n..];
    assert ReadChars(s[p..]) == Onto(piece.text, ReadChars(s[p + piece.n..]));
    hide ReadChars, Onto;
    OntoTwice(text, piece.text, ReadChars(s[p + piece.n..]));
  }

  lemma OntoTwice(a: string, b: string, r: Option<Literal>)
    ensures Onto(a, Onto(b, r)) == Onto(a + b, r)
  {
    if r.Some? {
      assert a + (b + r.value.text) == a + b + r.value.text;
    }
  }

  method UsableStringAt(s: string, at: nat) returns (ok: bool, p: nat)
    requires at <= |s|
    ensures ok <==> ReadString(s[at..]).Some?
    ensures ok ==> at < p <= |s| && ReadString(s[at..]) == Some(s[p..])
  {
    hide ReadChars;
    var text;
    ok, text, p := ReadStringAt(s, at);
    if ok {
      assert s[at..][1..] == s[at + 1..];
      ok := '\0' !in text;
    }
  }

  method SkipDigitsAt(s: string, at: nat) returns (p: nat)
    requires at <= |s|
    ensures at <= p <= |s| && s[p..] == SkipDigits(s[at..])
  {
    p := at;
    while p < |s| && IsDigit(s[p])
      invariant at <= p <= |s| && SkipDigits(s[p..]) == SkipDigits(s[at..])
    {
      assert s[p..][1..] == s[p + 1..];
      p := p + 1;
    }
  }

  method ExponentAt(s: string, at: nat) returns (ok: bool, p: nat)
    requires at <= |s|
    ensures ok <==> Exponent(s[at..]).Some?
    ensures ok ==> at <= p <= |s| && Exponent(s[at..]) == Some(s[p..])
  {
    hide SkipDigits;
    p := at;
    if p < |s| && (s[p] == 'e' || s[p] == 'E') {
      assert s[at..][1..] == s[at + 1..];
      p := p + 1;
      if p < |s| && (s[p] == '+' || s[p] == '-') {
        assert s[at + 1..][1..] == s[at + 2..];
        p := p + 1;
      }
      if p == |s| || !IsDigit(s[p]) {
        return false, at;
      }
      p := SkipDigitsAt(s, p);
    }
    ok := true;
  }

  method NumberAt(s: string, at: nat) returns (ok: bool, p: nat)
    requires at <= |s|
    ensures ok <==> ReadNumber(s[at..]).Some?
    ensures ok ==> at <= p <= |s| && ReadNumber(s[at..]) == Some(s[p..])
  {
    hide Exponent;
    p := at;
    if p < |s| && s[p] == '-' {
      assert s[at..][1..] == s[at + 1..];
      p := p + 1;
    }
    if p == |s| || !IsDigit(s[p]) {
      return false, at;
    }
    var digits := p;
    p := SkipDigitsAt(s, p);
    DigitsLeft(s, digits, p);
    if s[digits] == '0' && p - digits > 1 {
      return false, at;
    }
    hide SkipDigits;
    if p < |s| && s[p] == '.' {
      assert s[p..][1..] == s[p + 1..];
      p := p + 1;
      if p == |s| || !IsDigit(s[p]) {
        return false, at;
      }
      p := SkipDigitsAt(s, p);
    }
    ok, p := ExponentAt(s, p);
  }

  lemma DigitsLeft(s: string, at: nat, p: nat)
    requires at < |s| && IsDigit(s[at]) && p <= |s| && s[p..] == SkipDigits(s[at..])
    ensures p > at && (p - at > 1 <==> IsDigit(Peek(s[at..][1..])))
  {
    assert s[at..][1..] == s[at + 1..];
    assert |SkipDigits(s[at + 1..])| == |s| - p;
  }

  method StartsWithAt(s: string, at: nat, w: string) returns (b: bool)
    requires at <= |s|
    ensures b == StartsWith(s[at..], w)
  {
    b := at + |w| <= |s| && s[at..at + |w|] == w;
    if at + |w| <= |s| {
      assert s[at..][..|w|] == s[at..at + |w|];
    }
  }

  method ScalarAt(s: string, at: nat) returns (ok: bool, p: nat)
    requires at <= |s|
    ensures ok <==> ReadScalar(s[at..]).Some?
    ensures ok ==> at <= p <= |s| && ReadScalar(s[at..]) == Some(s[p..])
  {
    hide ReadNumber, StartsWith;
    ok, p := true, at;
    var isTrue := StartsWithAt(s, at, "true");
    var isFalse := StartsWithAt(s, at, "false");
    var isNull := StartsWithAt(s, at, "null");
    Long(s[at..], "true");
    Long(s[at..], "false");
    Long(s[at..], "null");
    if isTrue {
      assert s[at..][4..] == s[at + 4..];
      p := at + 4;
    } else if isFalse {
      assert s[at..][5..] == s[at + 5..];
      p := at + 5;
    } else if isNull {
      assert s[at..][4..] == s[at + 4..];
      p := at + 4;
    } else {
      ok, p := NumberAt(s, at);
    }
  }

  lemma Long(t: string, w: string)
    ensures StartsWith(t, w) ==> |w| <= |t|
  {
  }

  // A value; the code's visitor is one that accepts everything.
  method ParseValueAt(s: string, at: nat, depth: nat) returns (ok: bool, p: nat)
    requires at <= |s|
    ensures ok <==> ParseValue(s[at..], depth).Some?
    ensures ok ==> at < p <= |s| && ParseValue(s[at..], depth) == Some(s[p..])
    decreases |s| - at, 1
  {
    hide ReadString, ReadScalar, SkipWs, ParseMembers, ParseItems;
    if depth > MAX_DEPTH {
      return false, at;
    }
    p := SkipWsAt(s, at);
    if p == |s| {
      ok, p := ScalarAt(s, p);
    } else if s[p] == '{' {
      assert s[p..][1..] == s[p + 1..];
      p := SkipWsAt(s, p + 1);
      if p < |s| && s[p] == '}' {
        assert s[p..][1..] == s[p + 1..];
        return true, p + 1;
      }
      ok, p := MembersAt(s, p, depth);
    } else if s[p] == '[' {
      assert s[p..][1..] == s[p + 1..];
      p := SkipWsAt(s, p + 1);
      if p < |s| && s[p] == ']' {
        assert s[p..][1..] == s[p + 1..];
        return true, p + 1;
      }
      ok, p := ItemsAt(s, p, depth);
    } else if s[p] == '"' {
      ok, p := UsableStringAt(s, p);
    } else {
      ok, p := ScalarAt(s, p);
    }
  }

  method NameAt(s: string, at: nat) returns (ok: bool, p: nat)
    requires at <= |s|
    ensures ok <==> ReadName(s[at..]).Some?
    ensures ok ==> at < p <= |s| && ReadName(s[at..]) == Some(s[p..])
  {
    hide ReadString, SkipWs;
    var name := SkipWsAt(s, at);
    ok, p := UsableStringAt(s, name);
    if ok {
      p := SkipWsAt(s, p);
      if p == |s| || s[p] != ':' {
        return false, at;
      }
      assert s[p..][1..] == s[p + 1..];
      p := p + 1;
    }
  }

  method MembersAt(s: string, at: nat, depth: nat) returns (ok: bool, p: nat)
    requires at <= |s|
    ensures ok <==> ParseMembers(s[at..], depth).Some?
    ensures ok ==> at < p <= |s| && ParseMembers(s[at..], depth) == Some(s[p..])
    decreases |s| - at, 2
  {
    hide ReadName, SkipWs, ParseValue;
    p := at;
    while true
      invariant at <= p <= |s| && ParseMembers(s[p..], depth) == ParseMembers(s[at..], depth)
      decreases |s| - p
    {
      var value;
      ok, value := NameAt(s, p);
      if !ok {
        return;
      }
      ok, value := ParseValueAt(s, value, depth + 1);
      if !ok {
        return;
      }
      value := SkipWsAt(s, value);
      if value < |s| {
        assert s[value..][1..] == s[value + 1..];
      }
      if value == |s| || (s[value] != ',' && s[value] != '}') {
        return false, at;
      }
      if s[value] == '}' {
        return true, value + 1;
      }
      p := value + 1;
    }
  }

  method ItemsAt(s: string, at: nat, depth: nat) returns (ok: bool, p: nat)
    requires at <= |s|
    ensures ok <==> ParseItems(s[at..], depth).Some?
    ensures ok ==> at < p <= |s| && ParseItems(s[at..], depth) == Some(s[p..])
    decreases |s| - at, 2
  {
    hide SkipWs, ParseValue;
    p := at;
    while true
      invariant at <= p <= |s| && ParseItems(s[p..], depth) == ParseItems(s[at..], depth)
      decreases |s| - p
    {
      var value;
      ok, value := ParseValueAt(s, p, depth + 1);
      if !ok {
        return;
      }
      value := SkipWsAt(s, value);
      if value < |s| {
        assert s[value..][1..] == s[value + 1..];
      }
      if value == |s| || (s[value] != ',' && s[value] != ']') {
        return false, at;
      }
      if s[value] == ']' {
        return true, value + 1;
      }
      p := value + 1;
    }
  }

  method Parse(s: string) returns (ok: bool)
    ensures ok <==> Accepts(s)
  {
    hide ParseValue;
    assert s[0..] == s;
    var end;
    ok, end := ParseValueAt(s, 0, 0);
    if ok {
      end := SkipWsAt(s, end);
      ok := end == |s| || s[end] == '\0';
    }
  }
}
