// What the strict parser reads of a value depends on the value's own text alone.
module JsonStable {
  import opened Options
  import opened JsonText

  // What may follow a value without becoming part of it.
  predicate Closes(x: string) {
    x == "" || IsWs(x[0]) || x[0] == ',' || x[0] == '}' || x[0] == ']' || x[0] == '\0'
  }

  // ---------- More text after the value ----------

  lemma {:induction false} WsStable(t: string, x: string)
    requires SkipWs(t) != []
    ensures SkipWs(t + x) == SkipWs(t) + x
    decreases |t|
  {
    if IsWs(Peek(t)) {
      assert (t + x)[1..] == t[1..] + x;
      WsStable(t[1..], x);
    }
  }

  lemma {:induction false} WsThrough(w: string, x: string)
    requires SkipWs(w) == []
    ensures SkipWs(w + x) == SkipWs(x)
    decreases |w|
  {
    if w == [] {
      assert w + x == x;
    } else {
      assert (w + x)[1..] == w[1..] + x;
      WsThrough(w[1..], x);
    }
  }

  lemma UnicodeStable(t: string, x: string)
    requires UnicodePiece(t).Some? && ReadChars(t[UnicodePiece(t).value.n..]).Some?
    ensures UnicodePiece(t + x) == UnicodePiece(t)
  {
    hide Utf8, Hex4;
    var rest := t[4..];
    assert (t + x)[4..] == rest + x;
    Hex4Cut(t, x);
    if UnicodePiece(t).value.n == 4 {
      FullEscape(rest);
    }
    hide ReadChars;
    if |rest| >= 6 {
      assert (rest + x)[2..] == rest[2..] + x;
      Hex4Cut(rest[2..], x);
    }
    hide HasHex4;
  }

  lemma PieceStable(t: string, x: string)
    requires t != [] && t[0] != '"' && NextPiece(t).Some? && ReadChars(t[NextPiece(t).value.n..]).Some?
    ensures NextPiece(t + x) == NextPiece(t)
  {
    if t[0] == '\\' {
      assert (t + x)[1..] == t[1..] + x;
      if !IsSimpleEscape(Peek(t[1..])) {
        assert (t + x)[2..] == t[2..] + x;
        var n := UnicodePiece(t[2..]).value.n;
        assert t[2..][n..] == t[n + 2..];
        hide ReadChars, UnicodePiece;
        UnicodeStable(t[2..], x);
      }
    }
  }

  lemma CharsNext(t: string)
    requires t != [] && t[0] != '"'
    ensures ReadChars(t) ==
            if NextPiece(t).None? then None else Onto(NextPiece(t).value.text, ReadChars(t[NextPiece(t).value.n..]))
  {
    hide NextPiece;
  }

  lemma QuoteStable(t: string, x: string)
    requires t == [] || t[0] == '"'
    ensures ReadChars(t).Some? ==>
              ReadChars(t + x) == Some(Literal(ReadChars(t).value.text, ReadChars(t).value.rest + x))
  {
    if t != [] {
      assert (t + x)[1..] == t[1..] + x;
    }
    hide NextPiece;
  }

  lemma {:induction false} CharsStable(t: string, x: string)
    requires ReadChars(t).Some?
    ensures ReadChars(t + x) == Some(Literal(ReadChars(t).value.text, ReadChars(t).value.rest + x))
    decreases |t|
  {
    hide NextPiece, ReadChars;
    if t == [] || t[0] == '"' {
      QuoteStable(t, x);
    } else {
      CharsNext(t);
      CharsNext(t + x);
      var n := NextPiece(t).value.n;
      PieceStable(t, x);
      assert (t + x)[n..] == t[n..] + x;
      CharsStable(t[n..], x);
    }
  }

  lemma StringStable(t: string, x: string)
    requires ReadString(t).Some?
    ensures ReadString(t + x) == Some(ReadString(t).value + x)
  {
    assert (t + x)[1..] == t[1..] + x;
    CharsStable(t[1..], x);
  }

  predicate Continues(t: string, x: string) {
    t == [] && x != [] && (IsDigit(x[0]) || x[0] == '.' || x[0] == 'e' || x[0] == 'E')
  }

  lemma {:induction false} DigitsStable(t: string, x: string)
    requires SkipDigits(t) != [] || !IsDigit(Peek(x))
    ensures SkipDigits(t + x) == SkipDigits(t) + x
    decreases |t|
  {
    if t == [] {
      assert t + x == x;
    } else {
      assert (t + x)[1..] == t[1..] + x;
      if IsDigit(Peek(t)) {
        DigitsStable(t[1..], x);
      }
    }
  }

  lemma ExponentStable(t: string, x: string)
    requires Exponent(t).Some? && !Continues(Exponent(t).value, x)
    ensures Exponent(t + x) == Some(Exponent(t).value + x)
  {
    hide SkipDigits;
    if Peek(t) == 'e' || Peek(t) == 'E' {
      var u := t[1..];
      assert (t + x)[1..] == u + x;
      var v := if Peek(u) == '+' || Peek(u) == '-' then u[1..] else u;
      if Peek(u) == '+' || Peek(u) == '-' {
        assert (u + x)[1..] == v + x;
      }
      DigitsStable(v, x);
    } else if t == [] {
      assert t + x == x;
    }
  }

  lemma FractionStable(t: string, x: string)
    requires Fraction(t).Some? && !Continues(Fraction(t).value, x)
    ensures Fraction(t + x) == Some(Fraction(t).value + x)
  {
    hide SkipDigits;
    if Peek(t) == '.' {
      assert (t + x)[1..] == t[1..] + x;
      ExponentEnd(SkipDigits(t[1..]), x);
      DigitsStable(t[1..], x);
      ExponentStable(SkipDigits(t[1..]), x);
    } else {
      ExponentStable(t, x);
      if t == [] {
        assert t + x == x;
      }
    }
  }

  lemma ExponentEnd(t: string, x: string)
    requires Exponent(t).Some? && !Continues(Exponent(t).value, x)
    ensures t != [] || !IsDigit(Peek(x))
  {
  }

  lemma FractionEnd(t: string, x: string)
    requires Fraction(t).Some? && !Continues(Fraction(t).value, x)
    ensures t != [] || !IsDigit(Peek(x))
  {
  }

  lemma NumberStable(t: string, x: string)
    requires ReadNumber(t).Some? && !Continues(ReadNumber(t).value, x)
    ensures ReadNumber(t + x) == Some(ReadNumber(t).value + x)
  {
    var u := if Peek(t) == '-' then t[1..] else t;
    if Peek(t) == '-' {
      assert (t + x)[1..] == u + x;
    }
    assert (u + x)[1..] == u[1..] + x;
    FractionEnd(SkipDigits(u), x);
    DigitsStable(u, x);
    OneDigit(u, x);
    hide SkipDigits, Fraction;
    FractionStable(SkipDigits(u), x);
  }

  lemma OneDigit(u: string, x: string)
    requires u != [] && IsDigit(u[0]) && (SkipDigits(u) != [] || !IsDigit(Peek(x)))
    ensures IsDigit(Peek(u[1..] + x)) <==> IsDigit(Peek(u[1..]))
  {
    if u[1..] == [] {
      assert u[1..] + x == x;
      assert SkipDigits(u) == [];
    }
  }

  lemma WordStable(t: string, x: string, w: string)
    ensures StartsWith(t, w) ==> StartsWith(t + x, w) && (t + x)[|w|..] == t[|w|..] + x
    ensures |w| <= |t| ==> (StartsWith(t + x, w) <==> StartsWith(t, w))
  {
    if |w| <= |t| {
      assert (t + x)[..|w|] == t[..|w|];
    }
  }

  lemma NotAWord(t: string, w: string)
    requires ReadNumber(t).Some? && w != "" && !IsDigit(w[0]) && w[0] != '-'
    ensures !StartsWith(t, w)
  {
    WordStart(t, w);
  }

  lemma ScalarStable(t: string, x: string)
    requires ReadScalar(t).Some? && !Continues(ReadScalar(t).value, x)
    ensures ReadScalar(t + x) == Some(ReadScalar(t).value + x)
  {
    WordStable(t, x, "true");
    WordStable(t, x, "false");
    WordStable(t, x, "null");
    if StartsWith(t, "true") {
    } else if StartsWith(t, "false") {
      FirstLetter(t + x, "false", "true");
    } else if StartsWith(t, "null") {
      FirstLetter(t + x, "null", "true");
      FirstLetter(t + x, "null", "false");
    } else {
      NumberStable(t, x);
      NotAWord(t + x, "true");
      NotAWord(t + x, "false");
      NotAWord(t + x, "null");
    }
    hide ReadNumber;
  }

  lemma FirstLetter(t: string, v: string, w: string)
    requires StartsWith(t, v) && v != "" && w != "" && v[0] != w[0]
    ensures !StartsWith(t, w)
  {
    WordStart(t, v);
    WordStart(t, w);
  }

  // The value is closed: it ended before its text did, or what comes next cannot go on with it.
  predicate Closed(r: string, x: string) {
    r != [] || Closes(x)
  }

  lemma {:induction false} ValueStable(t: string, depth: nat, x: string)
    requires ParseValue(t, depth).Some? && Closed(ParseValue(t, depth).value, x)
    ensures ParseValue(t + x, depth) == Some(ParseValue(t, depth).value + x)
    decreases |t|, 0
  {
    hide SkipWs, ReadString, ReadScalar, ParseMembers, ParseItems;
    var u := SkipWs(t);
    WsStable(t, x);
    if Peek(u) == '{' || Peek(u) == '[' {
      var v := SkipWs(u[1..]);
      assert (u + x)[1..] == u[1..] + x;
      WsStable(u[1..], x);
      if Peek(v) == '}' || Peek(v) == ']' {
        assert (v + x)[1..] == v[1..] + x;
      }
      if Peek(u) == '{' && Peek(v) != '}' {
        MembersStable(v, depth, x);
      } else if Peek(u) == '[' && Peek(v) != ']' {
        ItemsStable(v, depth, x);
      }
    } else if Peek(u) == '"' {
      StringStable(u, x);
    } else {
      ScalarStable(u, x);
    }
  }

  lemma NameStable(t: string, x: string)
    requires ReadName(t).Some?
    ensures ReadName(t + x) == Some(ReadName(t).value + x)
  {
    hide SkipWs, ReadString;
    var name := SkipWs(t);
    WsStable(t, x);
    StringStable(name, x);
    var rest := ReadString(name).value;
    WsStable(rest, x);
    assert (SkipWs(rest) + x)[1..] == SkipWs(rest)[1..] + x;
  }

  lemma {:induction false} MembersStable(t: string, depth: nat, x: string)
    requires ParseMembers(t, depth).Some?
    ensures ParseMembers(t + x, depth) == Some(ParseMembers(t, depth).value + x)
    decreases |t|, 1
  {
    hide SkipWs, ParseValue, ReadName;
    var value := ReadName(t).value;
    NameStable(t, x);
    var rest := ParseValue(value, depth + 1).value;
    EndsOpen(rest);
    ValueStable(value, depth + 1, x);
    WsStable(rest, x);
    var r := SkipWs(rest);
    assert (r + x)[1..] == r[1..] + x;
    if Peek(r) == ',' {
      MembersStable(r[1..], depth, x);
    }
  }

  lemma EndsOpen(rest: string)
    requires SkipWs(rest) != []
    ensures rest != []
  {
  }

  lemma {:induction false} ItemsStable(t: string, depth: nat, x: string)
    requires ParseItems(t, depth).Some?
    ensures ParseItems(t + x, depth) == Some(ParseItems(t, depth).value + x)
    decreases |t|, 1
  {
    hide SkipWs, ParseValue;
    var rest := ParseValue(t, depth + 1).value;
    EndsOpen(rest);
    ValueStable(t, depth + 1, x);
    WsStable(rest, x);
    var r := SkipWs(rest);
    assert (r + x)[1..] == r[1..] + x;
    if Peek(r) == ',' {
      ItemsStable(r[1..], depth, x);
    }
  }

  // ---------- Cutting the text at the end of the value ----------

  // The text that was read.
  function Taken(t: string, r: string): string
    requires |r| <= |t|
  {
    t[..|t| - |r|]
  }

  lemma {:induction false} WsCut(t: string, x: string)
    requires |SkipWs(t + x)| >= |x|
    ensures SkipWs(t + x) == SkipWs(t) + x
    decreases |t|
  {
    if t == [] {
      assert t + x == x;
      WsWhole(x);
    } else {
      assert (t + x)[1..] == t[1..] + x;
      if IsWs(t[0]) {
        WsCut(t[1..], x);
      }
    }
  }

  lemma WsWhole(x: string)
    requires |SkipWs(x)| >= |x|
    ensures SkipWs(x) == x
  {
  }

  lemma UnicodeCut(t: string, x: string)
    requires UnicodePiece(t + x).Some? && UnicodePiece(t + x).value.n <= |t|
    requires ReadChars(t[UnicodePiece(t + x).value.n..]).Some?
    ensures UnicodePiece(t) == UnicodePiece(t + x)
  {
    hide Utf8, Hex4;
    var rest := t[4..];
    assert (t + x)[4..] == rest + x;
    Hex4Cut(t, x);
    if UnicodePiece(t + x).value.n == 4 {
      FullEscape(rest);
    }
    if |rest| >= 6 {
      assert (rest + x)[2..] == rest[2..] + x;
      Hex4Cut(rest[2..], x);
    }
  }

  // A string literal that starts with an escape has all of it.
  lemma FullEscape(t: string)
    requires ReadChars(t).Some?
    ensures t != []
    ensures |t| >= 2 && t[0] == '\\' && t[1] == 'u' ==> |t| >= 6
    ensures |t| == 1 ==> t[0] != '\\'
  {
  }

  lemma Hex4Cut(t: string, x: string)
    requires |t| >= 4
    ensures HasHex4(t + x) <==> HasHex4(t)
    ensures HasHex4(t) ==> Hex4(t + x) == Hex4(t)
  {
  }

  lemma PieceCut(t: string, x: string)
    requires t != [] && t[0] != '"' && NextPiece(t + x).Some? && NextPiece(t + x).value.n <= |t|
    requires ReadChars(t[NextPiece(t + x).value.n..]).Some?
    ensures NextPiece(t) == NextPiece(t + x)
  {
    if t[0] == '\\' {
      assert (t + x)[1..] == t[1..] + x;
      if !IsSimpleEscape(Peek((t + x)[1..])) {
        assert (t + x)[2..] == t[2..] + x;
        var n := UnicodePiece(t[2..] + x).value.n;
        assert t[2..][n..] == t[n + 2..];
        hide ReadChars, UnicodePiece;
        UnicodeCut(t[2..], x);
      }
    }
  }

  lemma {:induction false} CharsCut(t: string, x: string)
    requires ReadChars(t + x).Some? && |ReadChars(t + x).value.rest| >= |x|
    ensures ReadChars(t).Some? && ReadChars(t + x).value.rest == ReadChars(t).value.rest + x
    ensures ReadChars(t + x).value.text == ReadChars(t).value.text
    decreases |t|
  {
    assert t != [];
    if t[0] == '"' {
      assert (t + x)[1..] == t[1..] + x;
    } else {
      hide NextPiece;
      var n := NextPiece(t + x).value.n;
      assert |(t + x)[n..]| > |ReadChars(t + x).value.rest|;
      assert (t + x)[n..] == t[n..] + x;
      CharsCut(t[n..], x);
      PieceCut(t, x);
    }
  }

  lemma StringCut(t: string, x: string)
    requires ReadString(t + x).Some? && |ReadString(t + x).value| >= |x|
    ensures ReadString(t).Some? && ReadString(t + x).value == ReadString(t).value + x
  {
    assert t != [];
    assert (t + x)[1..] == t[1..] + x;
    CharsCut(t[1..], x);
  }

  lemma {:induction false} DigitsCut(t: string, x: string)
    requires |SkipDigits(t + x)| >= |x|
    ensures SkipDigits(t + x) == SkipDigits(t) + x
    decreases |t|
  {
    if t == [] {
      assert t + x == x;
      DigitsWhole(x);
    } else {
      assert (t + x)[1..] == t[1..] + x;
      if IsDigit(t[0]) {
        DigitsCut(t[1..], x);
      }
    }
  }

  lemma DigitsWhole(x: string)
    requires |SkipDigits(x)| >= |x|
    ensures SkipDigits(x) == x
  {
  }

  lemma ExponentCut(t: string, x: string)
    requires Exponent(t + x).Some? && |Exponent(t + x).value| >= |x|
    ensures Exponent(t).Some? && Exponent(t + x).value == Exponent(t).value + x
  {
    if t == [] {
      assert t + x == x;
      ExponentWhole(x);
    } else if t[0] == 'e' || t[0] == 'E' {
      var u := t[1..];
      assert (t + x)[1..] == u + x;
      SkipDigitsBelow(u + x);
      if u == [] {
        assert u + x == x;
        SignedDigits(x);
      } else if u[0] == '+' || u[0] == '-' {
        assert (u + x)[1..] == u[1..] + x;
        if u[1..] == [] {
          assert u[1..] + x == x;
          SkipDigitsBelow(x);
        } else {
          DigitsCut(u[1..], x);
        }
      } else {
        DigitsCut(u, x);
      }
    }
  }

  lemma SkipDigitsBelow(t: string)
    ensures IsDigit(Peek(t)) ==> |SkipDigits(t)| < |t|
  {
  }

  lemma SignedDigits(t: string)
    ensures var u := if Peek(t) == '+' || Peek(t) == '-' then t[1..] else t;
            IsDigit(Peek(u)) ==> |SkipDigits(u)| < |t|
  {
  }

  lemma ExponentWhole(x: string)
    requires Exponent(x).Some? && |Exponent(x).value| >= |x|
    ensures Exponent(x).value == x && Exponent([]) == Some([])
  {
    if Peek(x) == 'e' || Peek(x) == 'E' {
      SignedDigits(x[1..]);
    }
  }

  lemma FractionCut(t: string, x: string)
    requires Fraction(t + x).Some? && |Fraction(t + x).value| >= |x|
    ensures Fraction(t).Some? && Fraction(t + x).value == Fraction(t).value + x
  {
    hide SkipDigits;
    if t == [] {
      assert t + x == x;
      FractionWhole(x);
    } else if t[0] == '.' {
      hide Exponent;
      var u := t[1..];
      assert (t + x)[1..] == u + x;
      ExponentBelow(SkipDigits(u + x));
      DigitsCut(u, x);
      SkipDigitsBelow(u + x);
      NothingBefore(u, x);
      ExponentCut(SkipDigits(u), x);
    } else {
      ExponentCut(t, x);
    }
  }

  lemma NothingBefore(u: string, x: string)
    ensures u == [] ==> u + x == x
  {
  }

  lemma ExponentBelow(t: string)
    requires Exponent(t).Some?
    ensures |Exponent(t).value| <= |t|
  {
  }

  lemma FractionWhole(x: string)
    requires Fraction(x).Some? && |Fraction(x).value| >= |x|
    ensures Fraction(x).value == x && Fraction([]) == Some([])
  {
    if Peek(x) == '.' {
      ExponentBelow(SkipDigits(x[1..]));
    } else {
      ExponentWhole(x);
    }
  }

  lemma NumberCut(t: string, x: string)
    requires ReadNumber(t + x).Some? && |ReadNumber(t + x).value| >= |x|
    ensures ReadNumber(t).Some? && ReadNumber(t + x).value == ReadNumber(t).value + x
  {
    assert t != [];
    hide SkipDigits, Fraction;
    var u := if t[0] == '-' then t[1..] else t;
    if t[0] == '-' {
      assert (t + x)[1..] == u + x;
    }
    FractionBelow(SkipDigits(u + x));
    SkipDigitsBelow(u + x);
    NothingBefore(u, x);
    DigitsCut(u, x);
    assert (u + x)[1..] == u[1..] + x;
    FractionCut(SkipDigits(u), x);
  }

  lemma FractionBelow(t: string)
    requires Fraction(t).Some?
    ensures |Fraction(t).value| <= |t|
  {
  }

  lemma WordCut(t: string, x: string, w: string)
    requires StartsWith(t + x, w) && |(t + x)[|w|..]| >= |x|
    ensures StartsWith(t, w) && (t + x)[|w|..] == t[|w|..] + x
  {
    assert (t + x)[..|w|] == t[..|w|];
  }

  lemma ScalarCut(t: string, x: string)
    requires ReadScalar(t + x).Some? && |ReadScalar(t + x).value| >= |x|
    ensures ReadScalar(t).Some? && ReadScalar(t + x).value == ReadScalar(t).value + x
  {
    hide ReadNumber;
    WordStable(t, x, "true");
    WordStable(t, x, "false");
    WordStable(t, x, "null");
    if StartsWith(t + x, "true") {
      WordCut(t, x, "true");
    } else if StartsWith(t + x, "false") {
      WordCut(t, x, "false");
    } else if StartsWith(t + x, "null") {
      WordCut(t, x, "null");
    } else {
      NumberCut(t, x);
    }
  }

  lemma {:induction false} ValueCut(t: string, depth: nat, x: string)
    requires ParseValue(t + x, depth).Some? && |ParseValue(t + x, depth).value| >= |x|
    ensures ParseValue(t, depth).Some? && ParseValue(t + x, depth).value == ParseValue(t, depth).value + x
    decreases |t|, 0
  {
    hide SkipWs, ReadString, ReadScalar, ParseMembers, ParseItems;
    WsBelow(t + x);
    WsCut(t, x);
    var u := SkipWs(t);
    assert u != [];
    if u[0] == '{' || u[0] == '[' {
      assert (u + x)[1..] == u[1..] + x;
      WsCut(u[1..], x);
      var v := SkipWs(u[1..]);
      assert v != [];
      if v[0] == '}' || v[0] == ']' {
        assert (v + x)[1..] == v[1..] + x;
      }
      if u[0] == '{' && v[0] != '}' {
        MembersCut(v, depth, x);
      } else if u[0] == '[' && v[0] != ']' {
        ItemsCut(v, depth, x);
      }
    } else if u[0] == '"' {
      StringCut(u, x);
    } else {
      ScalarCut(u, x);
    }
  }

  lemma WsBelow(t: string)
    ensures |SkipWs(t)| <= |t|
  {
  }

  lemma NameCut(t: string, x: string)
    requires ReadName(t + x).Some? && |ReadName(t + x).value| >= |x|
    ensures ReadName(t).Some? && ReadName(t + x).value == ReadName(t).value + x
  {
    hide SkipWs, ReadString;
    WsCut(t, x);
    var name := SkipWs(t);
    StringCut(name, x);
    var rest := ReadString(name).value;
    WsCut(rest, x);
    assert SkipWs(rest) != [];
    assert (SkipWs(rest) + x)[1..] == SkipWs(rest)[1..] + x;
  }

  lemma {:induction false} MembersCut(t: string, depth: nat, x: string)
    requires ParseMembers(t + x, depth).Some? && |ParseMembers(t + x, depth).value| >= |x|
    ensures ParseMembers(t, depth).Some? && ParseMembers(t + x, depth).value == ParseMembers(t, depth).value + x
    decreases |t|, 1
  {
    hide SkipWs, ParseValue, ReadName;
    NameCut(t, x);
    var value := ReadName(t).value;
    ValueCut(value, depth + 1, x);
    var rest := ParseValue(value, depth + 1).value;
    WsCut(rest, x);
    var r := SkipWs(rest);
    assert r != [];
    assert (r + x)[1..] == r[1..] + x;
    if r[0] == ',' {
      MembersCut(r[1..], depth, x);
    }
  }

  lemma {:induction false} ItemsCut(t: string, depth: nat, x: string)
    requires ParseItems(t + x, depth).Some? && |ParseItems(t + x, depth).value| >= |x|
    ensures ParseItems(t, depth).Some? && ParseItems(t + x, depth).value == ParseItems(t, depth).value + x
    decreases |t|, 1
  {
    hide SkipWs, ParseValue;
    ValueCut(t, depth + 1, x);
    var rest := ParseValue(t, depth + 1).value;
    WsCut(rest, x);
    var r := SkipWs(rest);
    assert r != [];
    assert (r + x)[1..] == r[1..] + x;
    if r[0] == ',' {
      ItemsCut(r[1..], depth, x);
    }
  }
}
