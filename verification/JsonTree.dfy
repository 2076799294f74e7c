// The documents the strict parser accepts, told without it: trees of values, written with any blanks between their
// parts.
module JsonTree {
  import opened Options
  import opened JsonText

  // Blanks, or nothing.
  ghost predicate Spaces(w: string) {
    forall i :: 0 <= i < |w| ==> IsWs(w[i])
  }

  // ---------- String literals ----------

  // A character as it is, a two-character escape, or the four digits after a backslash and a u.
  datatype Glyph = Plain(c: char) | Simple(c: char) | Code(hex: string) {
    predicate Valid() {
      match this
      case Plain(c) => ' ' <= c && c != '"' && c != '\\'
      case Simple(c) => IsSimpleEscape(c)
      case Code(hex) => |hex| == 4 && HasHex4(hex) && hex != "0000"
    }

    function Text(): string {
      match this
      case Plain(c) => [c]
      case Simple(c) => ['\\', c]
      case Code(hex) => ['\\', 'u'] + hex
    }
  }

  ghost predicate AllGlyphs(gs: seq<Glyph>) {
    forall i :: 0 <= i < |gs| ==> gs[i].Valid()
  }

  function Written(gs: seq<Glyph>): string
    decreases |gs|
  {
    if gs == [] then "" else gs[0].Text() + Written(gs[1..])
  }

  // The glyphs, the closing quote, then r.
  function GlyphsText(gs: seq<Glyph>, r: string): string {
    Written(gs) + ("\"" + r)
  }

  // ---------- Numbers ----------

  ghost predicate AllDigits(s: string) {
    forall i :: 0 <= i < |s| ==> IsDigit(s[i])
  }

  datatype Power = NoPower | Power(letter: char, sign: string, digits: string) {
    ghost predicate Valid() {
      Power? ==> (letter == 'e' || letter == 'E') && sign in {"", "+", "-"} && digits != "" && AllDigits(digits)
    }

    function Text(r: string): string {
      if NoPower? then r else [letter] + (sign + (digits + r))
    }
  }

  // A whole part without needless zeros, digits after the point if there is one, and an exponent.
  datatype Number = Number(minus: bool, whole: string, fraction: string, power: Power) {
    ghost predicate Valid() {
      && whole != "" && AllDigits(whole) && (whole[0] == '0' ==> |whole| == 1)
      && AllDigits(fraction) && power.Valid()
    }

    function Fractional(r: string): string {
      if fraction == "" then power.Text(r) else "." + (fraction + power.Text(r))
    }

    function Text(r: string): string {
      (if minus then "-" else "") + (whole + Fractional(r))
    }
  }

  // What cannot go on a number.
  predicate EndsNumber(r: string) {
    !IsDigit(Peek(r)) && Peek(r) != '.' && Peek(r) != 'e' && Peek(r) != 'E'
  }

  // ---------- Values ----------

  // Blanks stand before and after each part; those of an empty object or array are its `inner`.
  datatype Node =
    | Word(word: string)
    | Numeral(number: Number)
    | Text(glyphs: seq<Glyph>)
    | Array(inner: string, items: Items)
    | Object(inner: string, members: Members)

  datatype Items = NoItems | Item(before: string, value: Node, after: string, more: Items)

  datatype Members = NoMembers | Member(before: string, key: seq<Glyph>, middle: string, gap: string, value: Node, after: string,
                                        more: Members)

  // The value's text, then r.
  function NodeText(n: Node, r: string): string
    decreases n, 1
  {
    match n
    case Word(word) => word + r
    case Numeral(number) => number.Text(r)
    case Text(glyphs) => "\"" + GlyphsText(glyphs, r)
    case Array(inner, items) => "[" + if items.NoItems? then inner + ("]" + r) else ItemsText(items, r)
    case Object(inner, members) => "{" + if members.NoMembers? then inner + ("}" + r) else MembersText(members, r)
  }

  function ItemsText(items: Items, r: string): string
    requires items.Item?
    decreases items, 0
  {
    items.before + NodeText(items.value, items.after + if items.more.NoItems? then "]" + r else "," + ItemsText(items.more, r))
  }

  function MembersText(members: Members, r: string): string
    requires members.Member?
    decreases members, 0
  {
    var rest := members.after + if members.more.NoMembers? then "}" + r else "," + MembersText(members.more, r);
    members.before + ("\"" + GlyphsText(members.key, members.middle + (":" + (members.gap + NodeText(members.value, rest)))))
  }

  // Well written, and nested within `depth` more levels.
  ghost predicate Valid(n: Node, depth: nat)
    decreases n, 1
  {
    match n
    case Word(word) => word in {"true", "false", "null"}
    case Numeral(number) => number.Valid()
    case Text(glyphs) => AllGlyphs(glyphs)
    case Array(inner, items) => Spaces(inner) && ValidItems(items, depth)
    case Object(inner, members) => Spaces(inner) && ValidMembers(members, depth)
  }

  ghost predicate ValidItems(items: Items, depth: nat)
    decreases items, 0
  {
    items.Item? ==>
      && Spaces(items.before) && Spaces(items.after) && depth > 0 && Valid(items.value, depth - 1)
      && ValidItems(items.more, depth)
  }

  ghost predicate ValidMembers(members: Members, depth: nat)
    decreases members, 0
  {
    members.Member? ==>
      && Spaces(members.before) && AllGlyphs(members.key) && Spaces(members.middle) && Spaces(members.gap) && Spaces(members.after)
      && depth > 0 && Valid(members.value, depth - 1) && ValidMembers(members.more, depth)
  }

  // ---------- Reading digits and numbers ----------

  lemma {:induction false} DigitsSound(t: string) returns (ds: string)
    ensures AllDigits(ds) && t == ds + SkipDigits(t) && !IsDigit(Peek(SkipDigits(t)))
    ensures IsDigit(Peek(t)) ==> ds != "" && ds[0] == t[0]
    decreases |t|
  {
    ds := "";
    if IsDigit(Peek(t)) {
      var more := DigitsSound(t[1..]);
      ds := [t[0]] + more;
      assert t == [t[0]] + t[1..];
    }
  }

  lemma {:induction false} DigitsComplete(ds: string, r: string)
    requires AllDigits(ds) && !IsDigit(Peek(r))
    ensures SkipDigits(ds + r) == r
    decreases |ds|
  {
    if ds == "" {
      assert ds + r == r;
    } else {
      assert (ds + r)[1..] == ds[1..] + r;
      DigitsComplete(ds[1..], r);
    }
  }

  lemma PowerSound(t: string) returns (p: Power)
    requires Exponent(t).Some?
    ensures p.Valid() && t == p.Text(Exponent(t).value)
  {
    p := NoPower;
    if Peek(t) == 'e' || Peek(t) == 'E' {
      var u := t[1..];
      var sign := if Peek(u) == '+' || Peek(u) == '-' then [u[0]] else "";
      var v := u[|sign|..];
      var ds := DigitsSound(v);
      p := Power(t[0], sign, ds);
      assert u == sign + v && t == [t[0]] + u;
      assert sign in {"", "+", "-"};
    }
  }

  lemma PowerComplete(p: Power, r: string)
    requires p.Valid() && EndsNumber(r)
    ensures Exponent(p.Text(r)) == Some(r)
  {
    if p.Power? {
      var t := p.Text(r);
      var u := p.sign + (p.digits + r);
      assert t[1..] == u;
      FirstDigit(p.digits, r);
      DigitsComplete(p.digits, r);
      if p.sign == "" {
        assert u == p.digits + r;
      } else {
        assert u[1..] == p.digits + r;
      }
    }
  }

  lemma FirstDigit(ds: string, r: string)
    requires ds != "" && AllDigits(ds)
    ensures IsDigit(Peek(ds + r)) && Peek(ds + r) == ds[0]
  {
  }

  lemma NumberSound(t: string) returns (n: Number)
    requires ReadNumber(t).Some?
    ensures n.Valid() && t == n.Text(ReadNumber(t).value)
  {
    var minus := Peek(t) == '-';
    var u := if minus then t[1..] else t;
    var whole := DigitsSound(u);
    var v := SkipDigits(u);
    if |whole| > 1 {
      assert u[1..] == whole[1..] + v;
      assert Peek(u[1..]) == whole[1];
    }
    var fraction, power := FractionSound(v);
    n := Number(minus, whole, fraction, power);
    assert minus ==> t == "-" + u;
  }

  lemma FractionSound(t: string) returns (fraction: string, power: Power)
    requires Fraction(t).Some?
    ensures AllDigits(fraction) && power.Valid()
    ensures t == if fraction == "" then power.Text(Fraction(t).value) else "." + (fraction + power.Text(Fraction(t).value))
  {
    fraction := "";
    if Peek(t) == '.' {
      fraction := DigitsSound(t[1..]);
      power := PowerSound(SkipDigits(t[1..]));
      assert t == "." + t[1..];
    } else {
      power := PowerSound(t);
    }
  }

  lemma NumberComplete(n: Number, r: string)
    requires n.Valid() && EndsNumber(r)
    ensures ReadNumber(n.Text(r)) == Some(r)
  {
    hide SkipDigits, Exponent, Power.Text, Power.Valid;
    var v := n.Fractional(r);
    var u := n.whole + v;
    FractionComplete(n, r);
    FirstDigit(n.whole, v);
    DigitsComplete(n.whole, v);
    assert u[1..] == n.whole[1..] + v;
    if n.minus {
      assert n.Text(r)[1..] == u;
    } else {
      assert n.Text(r) == u;
    }
  }

  lemma FractionComplete(n: Number, r: string)
    requires n.Valid() && EndsNumber(r)
    ensures Fraction(n.Fractional(r)) == Some(r) && !IsDigit(Peek(n.Fractional(r)))
  {
    hide SkipDigits, Exponent;
    PowerComplete(n.power, r);
    if n.fraction != "" {
      var u := n.fraction + n.power.Text(r);
      assert n.Fractional(r)[1..] == u;
      FirstDigit(n.fraction, n.power.Text(r));
      DigitsComplete(n.fraction, n.power.Text(r));
    }
  }

  // ---------- Reading string literals ----------

  lemma FourDigits(t: string)
    requires HasHex4(t)
    ensures HasHex4(t[..4]) && Hex4(t[..4]) == Hex4(t)
  {
  }

  lemma HexZero(hex: string)
    requires |hex| == 4 && HasHex4(hex)
    ensures Hex4(hex) == 0 <==> hex == "0000"
  {
    DigitZero(hex[0]);
    DigitZero(hex[1]);
    DigitZero(hex[2]);
    DigitZero(hex[3]);
    if Hex4(hex) == 0 {
      assert hex == ['0', '0', '0', '0'];
    }
  }

  lemma DigitZero(c: char)
    requires IsHex(c)
    ensures HexValue(c) == 0 <==> c == '0'
  {
  }

  // Four digits make one glyph; with four more after another backslash and u, two that make a surrogate pair.
  lemma UnicodeSound(u: string) returns (gs: seq<Glyph>)
    requires UnicodePiece(u).Some? && '\0' !in UnicodePiece(u).value.text
    ensures AllGlyphs(gs) && Written(gs) == ['\\', 'u'] + u[..UnicodePiece(u).value.n]
  {
    var hex := u[..4];
    FourDigits(u);
    HexZero(hex);
    gs := [Code(hex)];
    assert Written(gs[1..]) == "";
    if UnicodePiece(u).value.n == 10 {
      var v := u[6..];
      assert u[4..][2..] == v;
      FourDigits(v);
      HexZero(v[..4]);
      gs := [Code(hex), Code(v[..4])];
      TwoWritten(gs);
      assert u[..10] == hex + (['\\', 'u'] + v[..4]);
    }
  }

  lemma TwoWritten(gs: seq<Glyph>)
    requires |gs| == 2
    ensures Written(gs) == gs[0].Text() + gs[1].Text()
  {
    assert gs[1..] == [gs[1]] && gs[1..][1..] == [];
    assert Written(gs[1..][1..]) == "";
  }

  // One piece is one glyph or two.
  lemma PieceSound(t: string) returns (gs: seq<Glyph>)
    requires t != "" && t[0] != '"' && NextPiece(t).Some? && '\0' !in NextPiece(t).value.text
    ensures AllGlyphs(gs) && Written(gs) == t[..NextPiece(t).value.n]
  {
    hide UnicodePiece;
    assert Written([]) == "";
    if t[0] != '\\' {
      gs := [Plain(t[0])];
      assert gs[1..] == [];
    } else if IsSimpleEscape(Peek(t[1..])) {
      gs := [Simple(t[1])];
      assert gs[1..] == [];
    } else {
      gs := UnicodeSound(t[2..]);
      var n := UnicodePiece(t[2..]).value.n;
      assert t[..n + 2] == ['\\', 'u'] + t[2..][..n];
    }
  }

  lemma {:induction false} WrittenMore(a: seq<Glyph>, b: seq<Glyph>)
    ensures Written(a + b) == Written(a) + Written(b)
    decreases |a|
  {
    if a == [] {
      assert a + b == b;
    } else {
      assert (a + b)[1..] == a[1..] + b;
      WrittenMore(a[1..], b);
    }
  }

  lemma CharsPart(t: string)
    requires t != "" && t[0] != '"' && ReadChars(t).Some?
    ensures NextPiece(t).Some?
    ensures var p, l := NextPiece(t).value, ReadChars(t).value;
            var more := ReadChars(t[p.n..]);
            more.Some? && l.rest == more.value.rest && l.text == p.text + more.value.text
  {
    hide NextPiece;
  }

  lemma NoneWritten()
    ensures Written([]) == ""
  {
  }

  lemma ClosingQuote(t: string)
    requires t != "" && t[0] == '"'
    ensures ReadChars(t) == Some(Literal("", t[1..])) && AllGlyphs([]) && t == GlyphsText([], t[1..])
  {
    NoneWritten();
    assert t == "\"" + t[1..];
  }

  lemma NoNul(a: string, b: string)
    requires '\0' !in a + b
    ensures '\0' !in a && '\0' !in b
  {
    assert forall i :: 0 <= i < |a| ==> (a + b)[i] == a[i];
    assert forall i :: 0 <= i < |b| ==> (a + b)[|a| + i] == b[i];
  }

  lemma GlyphsJoin(a: seq<Glyph>, b: seq<Glyph>, r: string)
    requires AllGlyphs(a) && AllGlyphs(b)
    ensures AllGlyphs(a + b) && GlyphsText(a + b, r) == Written(a) + GlyphsText(b, r)
  {
    hide Written;
    WrittenMore(a, b);
  }

  lemma {:induction false} CharsSound(t: string) returns (gs: seq<Glyph>)
    requires ReadChars(t).Some? && '\0' !in ReadChars(t).value.text
    ensures AllGlyphs(gs) && t == GlyphsText(gs, ReadChars(t).value.rest)
    decreases |t|
  {
    hide NextPiece, Written, GlyphsText, AllGlyphs;
    if t[0] == '"' {
      gs := [];
      ClosingQuote(t);
    } else {
      CharsPart(t);
      hide ReadChars;
      var p := NextPiece(t).value;
      NoNul(p.text, ReadChars(t[p.n..]).value.text);
      var first := PieceSound(t);
      var more := CharsSound(t[p.n..]);
      gs := first + more;
      GlyphsJoin(first, more, ReadChars(t).value.rest);
      assert t == t[..p.n] + t[p.n..];
    }
  }

  lemma StringSound(t: string) returns (gs: seq<Glyph>)
    requires ReadString(t).Some?
    ensures AllGlyphs(gs) && t == "\"" + GlyphsText(gs, ReadString(t).value)
  {
    gs := CharsSound(t[1..]);
    assert t == "\"" + t[1..];
  }

  // A glyph, whatever follows, or together with the next one if the two make a surrogate pair.
  predicate Pair(gs: seq<Glyph>) {
    |gs| > 1 && gs[0].Code? && gs[1].Code? && HasHex4(gs[0].hex) && HasHex4(gs[1].hex)
    && IsHigh(Hex4(gs[0].hex)) && IsLow(Hex4(gs[1].hex))
  }

  lemma {:induction false} CharsComplete(gs: seq<Glyph>, r: string)
    requires AllGlyphs(gs)
    ensures var l := ReadChars(GlyphsText(gs, r)); l.Some? && l.value.rest == r && '\0' !in l.value.text
    decreases |gs|
  {
    var t := GlyphsText(gs, r);
    if gs == [] {
      assert t == "\"" + r && t[1..] == r;
    } else {
      var k := if Pair(gs) then 2 else 1;
      PieceComplete(gs, r, k);
      CharsComplete(gs[k..], r);
    }
  }

  // The first glyph, then the others.
  lemma FirstGlyph(gs: seq<Glyph>, r: string)
    requires gs != []
    ensures GlyphsText(gs, r) == gs[0].Text() + GlyphsText(gs[1..], r)
  {
  }

  // What the first glyphs read as, and where they end.
  lemma PieceComplete(gs: seq<Glyph>, r: string, k: nat)
    requires AllGlyphs(gs) && gs != [] && k == if Pair(gs) then 2 else 1
    ensures k <= |gs|
    ensures var t := GlyphsText(gs, r);
            && t != "" && t[0] != '"' && NextPiece(t).Some? && '\0' !in NextPiece(t).value.text
            && t[NextPiece(t).value.n..] == GlyphsText(gs[k..], r)
  {
    hide UnicodePiece, GlyphsText, HasHex4, Hex4;
    var t, u := GlyphsText(gs, r), GlyphsText(gs[1..], r);
    FirstGlyph(gs, r);
    assert gs[0].Valid();
    match gs[0]
    case Plain(_) => assert t[1..] == u;
    case Simple(c) => assert t[1..] == [c] + u && t[2..] == u;
    case Code(hex) =>
      assert t[1..] == "u" + (hex + u) && t[2..] == hex + u;
      CodeComplete(gs, r, k);
      SuffixAfter(t, UnicodePiece(t[2..]).value.n);
  }

  lemma SuffixAfter(t: string, n: nat)
    requires n + 2 <= |t|
    ensures t[2..][n..] == t[n + 2..]
  {
  }

  lemma HexPrefix(hex: string, u: string)
    requires |hex| == 4 && HasHex4(hex)
    ensures HasHex4(hex + u) && Hex4(hex + u) == Hex4(hex) && (hex + u)[4..] == u
  {
  }

  // Only a code starts with a backslash and a u.
  lemma StartsCode(gs: seq<Glyph>, r: string)
    requires AllGlyphs(gs)
    ensures var u := GlyphsText(gs, r);
            if gs != [] && gs[0].Code? then
              |u| >= 2 && u[0] == '\\' && u[1] == 'u' && u[2..] == gs[0].hex + GlyphsText(gs[1..], r)
            else !(|u| >= 2 && u[0] == '\\' && u[1] == 'u')
  {
    var u := GlyphsText(gs, r);
    if gs == [] {
      NoneWritten();
      assert u[0] == '"';
    } else {
      FirstGlyph(gs, r);
      hide GlyphsText;
      assert gs[0].Valid();
    }
  }

  lemma CodeComplete(gs: seq<Glyph>, r: string, k: nat)
    requires AllGlyphs(gs) && gs != [] && gs[0].Code? && k == if Pair(gs) then 2 else 1
    ensures k <= |gs|
    ensures var v := gs[0].hex + GlyphsText(gs[1..], r);
            && UnicodePiece(v).Some? && '\0' !in UnicodePiece(v).value.text
            && v[UnicodePiece(v).value.n..] == GlyphsText(gs[k..], r)
  {
    hide GlyphsText, Utf8, Hex4, HasHex4;
    var hex, u := gs[0].hex, GlyphsText(gs[1..], r);
    assert gs[0].Valid();
    HexPrefix(hex, u);
    HexZero(hex);
    StartsCode(gs[1..], r);
    if |gs| > 1 && gs[1].Code? {
      assert gs[1].Valid() && gs[1..][1..] == gs[2..];
      HexPrefix(gs[1].hex, GlyphsText(gs[2..], r));
      assert u[6..] == u[2..][4..];
      assert (hex + u)[10..] == u[6..];
    }
  }

  // ---------- Blanks and scalars ----------

  lemma {:induction false} SpacesSound(t: string) returns (w: string)
    ensures Spaces(w) && t == w + SkipWs(t)
    decreases |t|
  {
    w := "";
    if IsWs(Peek(t)) {
      var more := SpacesSound(t[1..]);
      w := [t[0]] + more;
      assert t == [t[0]] + t[1..];
    }
  }

  lemma {:induction false} SpacesThrough(w: string, x: string)
    requires Spaces(w)
    ensures SkipWs(w + x) == SkipWs(x)
    decreases |w|
  {
    if w == "" {
      assert w + x == x;
    } else {
      assert (w + x)[1..] == w[1..] + x;
      SpacesThrough(w[1..], x);
    }
  }

  // The value's text starts with a character that tells what it is.
  lemma NodeStarts(n: Node, depth: nat, r: string)
    requires Valid(n, depth)
    ensures var c := Peek(NodeText(n, r));
            match n
            case Word(word) => word != "" && c == word[0] && (c == 't' || c == 'f' || c == 'n')
            case Numeral(_) => c == '-' || IsDigit(c)
            case Text(_) => c == '"'
            case Array(_, _) => c == '['
            case Object(_, _) => c == '{'
  {
    hide GlyphsText, Spaces, ValidItems, ValidMembers, ItemsText, MembersText;
    if n.Numeral? {
      FirstDigit(n.number.whole, n.number.Fractional(r));
    }
  }

  lemma ScalarSound(t: string) returns (n: Node)
    requires ReadScalar(t).Some?
    ensures forall depth: nat :: Valid(n, depth)
    ensures t == NodeText(n, ReadScalar(t).value)
  {
    hide ReadNumber, Number.Text, Number.Valid;
    if StartsWith(t, "true") {
      n := Word("true");
      assert t == t[..4] + t[4..];
    } else if StartsWith(t, "false") {
      n := Word("false");
      assert t == t[..5] + t[5..];
    } else if StartsWith(t, "null") {
      n := Word("null");
      assert t == t[..4] + t[4..];
    } else {
      var number := NumberSound(t);
      n := Numeral(number);
    }
  }

  lemma WordComplete(w: string, r: string)
    requires w in {"true", "false", "null"}
    ensures ReadScalar(w + r) == Some(r)
  {
    hide ReadNumber;
    var t := w + r;
    assert t[..|w|] == w && t[|w|..] == r;
    WordStart(t, "true");
    WordStart(t, "false");
    WordStart(t, "null");
  }

  lemma ScalarComplete(n: Node, depth: nat, r: string)
    requires (n.Word? || n.Numeral?) && Valid(n, depth) && (n.Numeral? ==> EndsNumber(r))
    ensures ReadScalar(NodeText(n, r)) == Some(r)
  {
    hide ReadNumber, Number.Text, Number.Valid;
    NodeStarts(n, depth, r);
    if n.Word? {
      WordComplete(n.word, r);
    } else {
      NumberComplete(n.number, r);
      WordStart(NodeText(n, r), "true");
      WordStart(NodeText(n, r), "false");
      WordStart(NodeText(n, r), "null");
    }
  }

  // ---------- Every accepted text is a tree's ----------

  lemma SpacesJoin(a: string, b: string)
    requires Spaces(a) && Spaces(b)
    ensures Spaces(a + b)
  {
  }

  // More blanks before the first part.
  lemma MembersLater(w: string, m: Members, depth: nat, r: string)
    requires m.Member? && Spaces(w) && ValidMembers(m, depth)
    ensures var n := m.(before := w + m.before); ValidMembers(n, depth) && MembersText(n, r) == w + MembersText(m, r)
  {
    hide NodeText, GlyphsText, Valid;
    SpacesJoin(w, m.before);
  }

  lemma ItemsLater(w: string, s: Items, depth: nat, r: string)
    requires s.Item? && Spaces(w) && ValidItems(s, depth)
    ensures var n := s.(before := w + s.before); ValidItems(n, depth) && ItemsText(n, r) == w + ItemsText(s, r)
  {
    hide NodeText, Valid;
    SpacesJoin(w, s.before);
  }

  lemma {:induction false} ValueSound(t: string, depth: nat) returns (w: string, n: Node)
    requires ParseValue(t, depth).Some?
    ensures depth <= MAX_DEPTH && Spaces(w) && Valid(n, MAX_DEPTH - depth)
    ensures t == w + NodeText(n, ParseValue(t, depth).value)
    decreases |t|, 1
  {
    hide ReadString, ReadScalar, ParseMembers, ParseItems, MembersText, ItemsText, ValidItems, ValidMembers, GlyphsText;
    w := SpacesSound(t);
    var u := SkipWs(t);
    if Peek(u) == '{' {
      n := ObjectSound(u, depth);
    } else if Peek(u) == '[' {
      n := ArraySound(u, depth);
    } else if Peek(u) == '"' {
      var gs := StringSound(u);
      n := Text(gs);
    } else {
      n := ScalarSound(u);
    }
  }

  // What an opening brace starts.
  function ParseObject(t: string, depth: nat): Option<string>
    requires t != ""
  {
    var u := SkipWs(t[1..]);
    if Peek(u) == '}' then Some(u[1..]) else ParseMembers(u, depth)
  }

  function ParseArray(t: string, depth: nat): Option<string>
    requires t != ""
  {
    var u := SkipWs(t[1..]);
    if Peek(u) == ']' then Some(u[1..]) else ParseItems(u, depth)
  }

  lemma ObjectSound(t: string, depth: nat) returns (n: Node)
    requires depth <= MAX_DEPTH && Peek(t) == '{' && ParseObject(t, depth).Some?
    ensures n.Object? && Valid(n, MAX_DEPTH - depth) && t == NodeText(n, ParseObject(t, depth).value)
    decreases |t|, 0
  {
    hide ParseMembers, MembersText, ValidMembers, SkipWs;
    var r := ParseObject(t, depth).value;
    var w := SpacesSound(t[1..]);
    var u := SkipWs(t[1..]);
    assert t == "{" + t[1..];
    if Peek(u) == '}' {
      n := Object(w, NoMembers);
      assert u == "}" + r;
      NoMembersValid(MAX_DEPTH - depth);
    } else {
      var m := MembersSound(u, depth);
      MembersLater(w, m, MAX_DEPTH - depth, r);
      n := Object("", m.(before := w + m.before));
    }
  }

  lemma NoMembersValid(depth: nat)
    ensures ValidMembers(NoMembers, depth) && ValidItems(NoItems, depth)
  {
  }

  lemma ArraySound(t: string, depth: nat) returns (n: Node)
    requires depth <= MAX_DEPTH && Peek(t) == '[' && ParseArray(t, depth).Some?
    ensures n.Array? && Valid(n, MAX_DEPTH - depth) && t == NodeText(n, ParseArray(t, depth).value)
    decreases |t|, 0
  {
    hide ParseItems, ItemsText, ValidItems, SkipWs;
    var r := ParseArray(t, depth).value;
    var w := SpacesSound(t[1..]);
    var u := SkipWs(t[1..]);
    assert t == "[" + t[1..];
    if Peek(u) == ']' {
      n := Array(w, NoItems);
      assert u == "]" + r;
      NoMembersValid(MAX_DEPTH - depth);
    } else {
      var s := ItemsSound(u, depth);
      ItemsLater(w, s, MAX_DEPTH - depth, r);
      n := Array("", s.(before := w + s.before));
    }
  }

  lemma NameSound(t: string) returns (before: string, key: seq<Glyph>, middle: string)
    requires ReadName(t).Some?
    ensures Spaces(before) && AllGlyphs(key) && Spaces(middle)
    ensures t == before + ("\"" + GlyphsText(key, middle + (":" + ReadName(t).value)))
  {
    hide ReadString, SkipWs, GlyphsText;
    before := SpacesSound(t);
    key := StringSound(SkipWs(t));
    var rest := ReadString(SkipWs(t)).value;
    middle := SpacesSound(rest);
    assert SkipWs(rest) == ":" + ReadName(t).value;
  }

  lemma {:induction false} MembersSound(t: string, depth: nat) returns (m: Members)
    requires depth <= MAX_DEPTH && ParseMembers(t, depth).Some?
    ensures m.Member? && ValidMembers(m, MAX_DEPTH - depth) && t == MembersText(m, ParseMembers(t, depth).value)
    decreases |t|, 2
  {
    hide ReadName, ParseValue, SkipWs, GlyphsText, NodeText, Valid;
    var r := ParseMembers(t, depth).value;
    var before, key, middle := NameSound(t);
    var value := ReadName(t).value;
    var gap, n := ValueSound(value, depth + 1);
    var rest := ParseValue(value, depth + 1).value;
    var after := SpacesSound(rest);
    var u := SkipWs(rest);
    if Peek(u) == ',' {
      var more := MembersSound(u[1..], depth);
      m := Member(before, key, middle, gap, n, after, more);
      assert u == "," + MembersText(more, r);
    } else {
      m := Member(before, key, middle, gap, n, after, NoMembers);
      assert u == "}" + r;
    }
  }

  lemma {:induction false} ItemsSound(t: string, depth: nat) returns (s: Items)
    requires depth <= MAX_DEPTH && ParseItems(t, depth).Some?
    ensures s.Item? && ValidItems(s, MAX_DEPTH - depth) && t == ItemsText(s, ParseItems(t, depth).value)
    decreases |t|, 2
  {
    hide ParseValue, SkipWs, NodeText, Valid;
    var r := ParseItems(t, depth).value;
    var before, n := ValueSound(t, depth + 1);
    var rest := ParseValue(t, depth + 1).value;
    var after := SpacesSound(rest);
    var u := SkipWs(rest);
    if Peek(u) == ',' {
      var more := ItemsSound(u[1..], depth);
      s := Item(before, n, after, more);
      assert u == "," + ItemsText(more, r);
    } else {
      s := Item(before, n, after, NoItems);
      assert u == "]" + r;
    }
  }

  // ---------- Every tree's text is accepted ----------

  lemma AfterSpaces(w: string, x: string)
    requires Spaces(w) && !IsWs(Peek(x))
    ensures SkipWs(w + x) == x
  {
    SpacesThrough(w, x);
  }

  // A number that is followed by blanks and a delimiter has ended.
  lemma AfterNumber(w: string, x: string)
    requires Spaces(w) && (Peek(x) == ',' || Peek(x) == ']' || Peek(x) == '}' || Peek(x) == '\0')
    ensures EndsNumber(w + x) && !IsWs(Peek(x))
  {
    if w == "" {
      assert w + x == x;
    } else {
      assert Peek(w + x) == w[0];
    }
  }

  lemma StringComplete(gs: seq<Glyph>, r: string)
    requires AllGlyphs(gs)
    ensures ReadString("\"" + GlyphsText(gs, r)) == Some(r)
  {
    hide GlyphsText, ReadChars;
    CharsComplete(gs, r);
    assert ("\"" + GlyphsText(gs, r))[1..] == GlyphsText(gs, r);
  }

  lemma {:induction false} ValueComplete(w: string, n: Node, depth: nat, r: string)
    requires depth <= MAX_DEPTH && Spaces(w) && Valid(n, MAX_DEPTH - depth) && (n.Numeral? ==> EndsNumber(r))
    ensures ParseValue(w + NodeText(n, r), depth) == Some(r)
    decreases n, 2
  {
    hide ReadString, ReadScalar, ParseMembers, ParseItems, MembersText, ItemsText, ValidItems, ValidMembers, GlyphsText;
    var t := NodeText(n, r);
    NodeStarts(n, MAX_DEPTH - depth, r);
    AfterSpaces(w, t);
    hide SkipWs, Valid, NodeText;
    match n
    case Word(_) => ScalarComplete(n, MAX_DEPTH - depth, r);
    case Numeral(_) => ScalarComplete(n, MAX_DEPTH - depth, r);
    case Text(gs) => TextComplete(gs, r, MAX_DEPTH - depth);
    case Array(_, _) => ArrayComplete(n, depth, r);
    case Object(_, _) => ObjectComplete(n, depth, r);
  }

  lemma TextComplete(gs: seq<Glyph>, r: string, depth: nat)
    requires Valid(Text(gs), depth)
    ensures ReadString(NodeText(Text(gs), r)) == Some(r)
  {
    StringComplete(gs, r);
  }

  lemma ObjectComplete(n: Node, depth: nat, r: string)
    requires depth <= MAX_DEPTH && n.Object? && Valid(n, MAX_DEPTH - depth)
    ensures NodeText(n, r) != "" && ParseObject(NodeText(n, r), depth) == Some(r)
    decreases n, 1
  {
    hide ParseMembers, MembersText, ValidMembers;
    var t := NodeText(n, r);
    if n.members.NoMembers? {
      assert t[1..] == n.inner + ("}" + r);
      AfterSpaces(n.inner, "}" + r);
    } else {
      var m := n.members;
      assert t[1..] == MembersText(m, r);
      MembersStart(m, MAX_DEPTH - depth, r);
      MembersComplete(m, depth, r);
    }
  }

  lemma MembersStart(m: Members, depth: nat, r: string)
    requires m.Member? && ValidMembers(m, depth)
    ensures Peek(SkipWs(MembersText(m, r))) == '"'
  {
    hide GlyphsText, NodeText, Valid;
    var x := "\"" + GlyphsText(m.key, m.middle + (":" + (m.gap + NodeText(m.value, MembersRest(m, r)))));
    assert MembersText(m, r) == m.before + x;
    AfterSpaces(m.before, x);
  }

  // What follows a member's value.
  function MembersRest(m: Members, r: string): string
    requires m.Member?
  {
    m.after + if m.more.NoMembers? then "}" + r else "," + MembersText(m.more, r)
  }

  lemma NameComplete(before: string, key: seq<Glyph>, middle: string, v: string)
    requires Spaces(before) && AllGlyphs(key) && Spaces(middle)
    ensures var t := before + ("\"" + GlyphsText(key, middle + (":" + v)));
            ReadName(t) == Some(v) && ReadName(SkipWs(t)) == Some(v)
  {
    hide GlyphsText, ReadString;
    var rest := middle + (":" + v);
    var x := "\"" + GlyphsText(key, rest);
    AfterSpaces(before, x);
    AfterSpaces(middle, ":" + v);
    StringComplete(key, rest);
  }

  lemma {:induction false} MembersComplete(m: Members, depth: nat, r: string)
    requires depth <= MAX_DEPTH && m.Member? && ValidMembers(m, MAX_DEPTH - depth)
    ensures ParseMembers(MembersText(m, r), depth) == Some(r)
    ensures ParseMembers(SkipWs(MembersText(m, r)), depth) == Some(r)
    decreases m, 0
  {
    hide ReadName, ParseValue, GlyphsText, NodeText, Valid, SkipWs;
    var rest := MembersRest(m, r);
    var value := m.gap + NodeText(m.value, rest);
    NameComplete(m.before, m.key, m.middle, value);
    var x := if m.more.NoMembers? then "}" + r else "," + MembersText(m.more, r);
    assert rest == m.after + x;
    AfterNumber(m.after, x);
    AfterSpaces(m.after, x);
    ValueComplete(m.gap, m.value, depth + 1, rest);
    if m.more.Member? {
      MembersComplete(m.more, depth, r);
      assert x[1..] == MembersText(m.more, r);
    }
    hide MembersText;
  }

  lemma ArrayComplete(n: Node, depth: nat, r: string)
    requires depth <= MAX_DEPTH && n.Array? && Valid(n, MAX_DEPTH - depth)
    ensures NodeText(n, r) != "" && ParseArray(NodeText(n, r), depth) == Some(r)
    decreases n, 1
  {
    hide ParseItems, ItemsText, ValidItems;
    var t := NodeText(n, r);
    if n.items.NoItems? {
      assert t[1..] == n.inner + ("]" + r);
      AfterSpaces(n.inner, "]" + r);
    } else {
      assert t[1..] == ItemsText(n.items, r);
      ItemsStart(n.items, MAX_DEPTH - depth, r);
      ItemsComplete(n.items, depth, r);
    }
  }

  // What follows an item's value.
  function ItemsRest(s: Items, r: string): string
    requires s.Item?
  {
    s.after + if s.more.NoItems? then "]" + r else "," + ItemsText(s.more, r)
  }

  lemma ItemsStart(s: Items, depth: nat, r: string)
    requires s.Item? && ValidItems(s, depth)
    ensures Peek(SkipWs(ItemsText(s, r))) != ']'
  {
    hide NodeText, Valid;
    var x := NodeText(s.value, ItemsRest(s, r));
    assert ItemsText(s, r) == s.before + x;
    NodeStarts(s.value, depth - 1, ItemsRest(s, r));
    AfterSpaces(s.before, x);
  }

  lemma ValueGap(t: string, depth: nat)
    ensures ParseValue(SkipWs(t), depth) == ParseValue(t, depth)
  {
    hide ReadString, ReadScalar, ParseMembers, ParseItems, SkipWs;
    NoBlanks(SkipWs(t));
  }

  lemma NoBlanks(x: string)
    requires !IsWs(Peek(x))
    ensures SkipWs(x) == x
  {
  }

  lemma {:induction false} ItemsComplete(s: Items, depth: nat, r: string)
    requires depth <= MAX_DEPTH && s.Item? && ValidItems(s, MAX_DEPTH - depth)
    ensures ParseItems(ItemsText(s, r), depth) == Some(r)
    ensures ParseItems(SkipWs(ItemsText(s, r)), depth) == Some(r)
    decreases s, 0
  {
    hide ParseValue, NodeText, Valid, SkipWs;
    var rest := ItemsRest(s, r);
    var x := if s.more.NoItems? then "]" + r else "," + ItemsText(s.more, r);
    assert rest == s.after + x;
    AfterNumber(s.after, x);
    AfterSpaces(s.after, x);
    ValueComplete(s.before, s.value, depth + 1, rest);
    ValueGap(ItemsText(s, r), depth + 1);
    assert ItemsText(s, r) == s.before + NodeText(s.value, rest);
    if s.more.Item? {
      ItemsComplete(s.more, depth, r);
      assert x[1..] == ItemsText(s.more, r);
    }
    hide ItemsText;
  }

  // ---------- Documents ----------

  // A tree at most 32 levels deep, blanks around it, and nothing behind that a C string would show.
  ghost predicate Spells(t: string, before: string, n: Node, after: string, rest: string) {
    && Spaces(before) && Valid(n, 32) && Spaces(after) && Peek(rest) == '\0'
    && t == before + NodeText(n, after + rest)
  }

  // The strict parser accepts exactly the texts that some tree spells.
  lemma AcceptsExactly(t: string)
    ensures Accepts(t) <==> exists before, n, after, rest :: Spells(t, before, n, after, rest)
  {
    hide ParseValue, NodeText, Valid;
    if Accepts(t) {
      var before, n := ValueSound(t, 0);
      var r := ParseValue(t, 0).value;
      var after := SpacesSound(r);
      assert Spells(t, before, n, after, SkipWs(r));
    }
    forall before, n, after, rest | Spells(t, before, n, after, rest) ensures Accepts(t) {
      AfterNumber(after, rest);
      AfterSpaces(after, rest);
      ValueComplete(before, n, 0, after + rest);
    }
  }

  // ---------- What a literal stands for ----------

  predicate Continues(c: char) {
    0x80 <= c as int < 0xc0
  }

  // The code point a string of bytes encodes (RFC 3629, section 3), if it is one in its shortest form.
  function Utf8Decoded(s: string): Option<nat> {
    if |s| == 1 && s[0] as nat < 0x80 then Some(s[0] as nat)
    else if |s| == 2 && 0xc2 <= s[0] as nat < 0xe0 && Continues(s[1]) then
      Some((s[0] as nat - 0xc0) * 0x40 + (s[1] as nat - 0x80))
    else if |s| == 3 && 0xe0 <= s[0] as nat < 0xf0 && Continues(s[1]) && Continues(s[2]) && (s[0] as nat == 0xe0 ==> s[1] as nat >= 0xa0) then
      Some((s[0] as nat - 0xe0) * 0x1000 + (s[1] as nat - 0x80) * 0x40 + (s[2] as nat - 0x80))
    else if |s| == 4 && 0xf0 <= s[0] as nat < 0xf5 && Continues(s[1]) && Continues(s[2]) && Continues(s[3])
            && (s[0] as nat == 0xf0 ==> s[1] as nat >= 0x90) then
      Some((s[0] as nat - 0xf0) * 0x4_0000 + (s[1] as nat - 0x80) * 0x1000 + (s[2] as nat - 0x80) * 0x40 + (s[3] as nat - 0x80))
    else None
  }

  // The bytes written for a code point are the ones that encode it.
  lemma Utf8Back(code: nat)
    requires code < 0x11_0000
    ensures Utf8Decoded(Utf8(code)) == Some(code)
  {
    if code < 0x80 {
    } else if code < 0x800 {
      Sixes(code);
    } else if code < 0x1_0000 {
      Sixes(code);
      Sixes(code / 64);
      assert code / 64 / 64 == code / 4096;
    } else {
      Sixes(code);
      Sixes(code / 64);
      Sixes(code / 4096);
      assert code / 64 / 64 == code / 4096 && code / 4096 / 64 == code / 262144;
    }
  }

  lemma Sixes(n: nat)
    ensures n == n / 64 * 64 + n % 64
  {
  }

  // The characters the grammar speaks of (sections 2, 6 and 7 of RFC 8259).
  lemma Characters(c: char)
    ensures IsWs(c) <==> c as nat in {0x20, 0x09, 0x0a, 0x0d}
    ensures IsDigit(c) <==> c in "0123456789"
    ensures IsSimpleEscape(c) <==> c in "\"\\/bfnrt"
  {
    if IsDigit(c) {
      assert "0123456789"[c as nat - '0' as nat] == c;
    }
    var escapes := "\"\\/bfnrt";
    assert escapes[0] == '"' && escapes[1] == '\\' && escapes[2] == '/' && escapes[3] == 'b' && escapes[4] == 'f';
    assert escapes[5] == 'n' && escapes[6] == 'r' && escapes[7] == 't';
  }

  lemma HexCharacters(c: char)
    ensures IsHex(c) <==> c in "0123456789" || c in "abcdef" || c in "ABCDEF"
  {
    Characters(c);
    hide IsDigit;
    var small, capitals := "abcdef", "ABCDEF";
    if 'a' <= c <= 'f' {
      assert small[c as nat - 'a' as nat] == c;
    } else if 'A' <= c <= 'F' {
      assert capitals[c as nat - 'A' as nat] == c;
    }
  }

  // The two halves of a code point past the first 2^16, and no other pair (section 3 of RFC 2781).
  lemma Surrogates(high: nat, low: nat)
    ensures IsHigh(high) && IsLow(low) <==>
            exists code :: 0x1_0000 <= code < 0x11_0000 && Halves(code, high, low)
    ensures IsHigh(high) && IsLow(low) ==> Halves(0x1_0000 + (high - 0xd800) * 0x400 + (low - 0xdc00), high, low)
  {
    if IsHigh(high) && IsLow(low) {
      assert Halves(0x1_0000 + (high - 0xd800) * 0x400 + (low - 0xdc00), high, low);
    }
  }

  predicate Halves(code: int, high: nat, low: nat) {
    high == 0xd800 + (code - 0x1_0000) / 0x400 && low == 0xdc00 + (code - 0x1_0000) % 0x400
  }

  // A digit's value is its place among the sixteen.
  lemma HexPlace(c: char)
    requires IsHex(c)
    ensures c == "0123456789abcdef"[HexValue(c)] || c == "0123456789ABCDEF"[HexValue(c)]
  {
  }

  // The character a two-character escape stands for, by its number.
  function Escape(c: char): nat {
    if c == 'b' then 8 else if c == 't' then 9 else if c == 'n' then 10 else if c == 'f' then 12 else if c == 'r' then 13 else c as nat
  }

  // The code point of four digits.
  function CodeOf(hex: string): nat
    requires HasHex4(hex)
  {
    HexValue(hex[0]) * 4096 + HexValue(hex[1]) * 256 + HexValue(hex[2]) * 16 + HexValue(hex[3])
  }

  function GlyphMeaning(g: Glyph): string
    requires g.Valid()
  {
    match g
    case Plain(c) => [c]
    case Simple(c) => [Escape(c) as char]
    case Code(hex) => Utf8(CodeOf(hex))
  }

  // A surrogate pair's one code point (section 7 of RFC 8259).
  function PairMeaning(high: string, low: string): string
    requires HasHex4(high) && HasHex4(low) && IsHigh(CodeOf(high)) && IsLow(CodeOf(low))
  {
    Utf8(0x1_0000 + (CodeOf(high) - 0xd800) * 0x400 + (CodeOf(low) - 0xdc00))
  }

  // What the first glyph, or the first two if they are a pair, stand for.
  function FirstMeaning(gs: seq<Glyph>): string
    requires gs != [] && gs[0].Valid()
  {
    if Pair(gs) then
      CodeIs(gs[0].hex);
      CodeIs(gs[1].hex);
      PairMeaning(gs[0].hex, gs[1].hex)
    else GlyphMeaning(gs[0])
  }

  ghost function GlyphsMeaning(gs: seq<Glyph>): string
    requires AllGlyphs(gs)
    decreases |gs|
  {
    if gs == [] then "" else FirstMeaning(gs) + GlyphsMeaning(gs[if Pair(gs) then 2 else 1..])
  }

  lemma CodeIs(hex: string)
    requires HasHex4(hex)
    ensures Hex4(hex) == CodeOf(hex)
  {
  }

  lemma PieceMeaning(gs: seq<Glyph>, r: string)
    requires AllGlyphs(gs) && gs != [] && GlyphsText(gs, r) != "" && GlyphsText(gs, r)[0] != '"'
    requires NextPiece(GlyphsText(gs, r)).Some?
    ensures gs[0].Valid() && NextPiece(GlyphsText(gs, r)).value.text == FirstMeaning(gs)
  {
    hide UnicodePiece, GlyphsText, HasHex4, Hex4, Utf8, CodeOf, PairMeaning;
    var t, u := GlyphsText(gs, r), GlyphsText(gs[1..], r);
    FirstGlyph(gs, r);
    assert gs[0].Valid();
    match gs[0]
    case Plain(_) => assert t[1..] == u;
    case Simple(c) => assert t[1..] == [c] + u && t[2..] == u;
    case Code(hex) =>
      assert t[1..] == "u" + (hex + u) && t[2..] == hex + u;
      CodeMeaning(gs, r);
  }

  lemma CodeMeaning(gs: seq<Glyph>, r: string)
    requires AllGlyphs(gs) && gs != [] && gs[0].Code? && gs[0].Valid()
    ensures UnicodePiece(gs[0].hex + GlyphsText(gs[1..], r)).Some?
    ensures UnicodePiece(gs[0].hex + GlyphsText(gs[1..], r)).value.text == FirstMeaning(gs)
  {
    hide GlyphsText, Utf8, Hex4, HasHex4, CodeOf;
    var hex, u := gs[0].hex, GlyphsText(gs[1..], r);
    HexPrefix(hex, u);
    CodeIs(hex);
    StartsCode(gs[1..], r);
    if |gs| > 1 && gs[1].Code? {
      assert gs[1].Valid() && gs[1..][1..] == gs[2..];
      HexPrefix(gs[1].hex, GlyphsText(gs[2..], r));
      CodeIs(gs[1].hex);
    }
  }

  // A literal's text is what its glyphs stand for.
  lemma {:induction false} LiteralMeaning(gs: seq<Glyph>, r: string)
    requires AllGlyphs(gs)
    ensures ReadChars(GlyphsText(gs, r)) == Some(Literal(GlyphsMeaning(gs), r))
    decreases |gs|
  {
    CharsComplete(gs, r);
    if gs == [] {
      NoneWritten();
      ClosingQuote(GlyphsText(gs, r));
      assert GlyphsText([], r)[1..] == r;
    } else {
      var k := if Pair(gs) then 2 else 1;
      PieceComplete(gs, r, k);
      PieceMeaning(gs, r);
      CharsPart(GlyphsText(gs, r));
      LiteralMeaning(gs[k..], r);
      hide ReadChars, NextPiece, GlyphsText, FirstMeaning, Pair;
    }
  }
}
