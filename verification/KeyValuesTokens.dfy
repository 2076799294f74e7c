// How tokens are written: with any blanks and line comments before each.
module KeyValuesTokens {
  import opened KeyValues
  import opened KeyValuesRoundTrip
  import opened Substrings

  // ---------- Between tokens ----------

  // A blank, or a comment to the end of its line.
  datatype Filler = Blank(c: char) | Note(text: string) {
    predicate Valid() {
      match this
      case Blank(c) => c == ' ' || c == '\t' || c == '\r' || c == '\n'
      case Note(text) => OneLine(text)
    }

    function Text(): string {
      match this
      case Blank(c) => [c]
      case Note(text) => "//" + text + "\n"
    }
  }

  predicate OneLine(s: string) {
    forall i :: 0 <= i < |s| ==> s[i] != '\0' && s[i] != '\n'
  }

  ghost predicate Fillers(fs: seq<Filler>) {
    forall i :: 0 <= i < |fs| ==> fs[i].Valid()
  }

  function Fill(fs: seq<Filler>): string
    decreases |fs|
  {
    if fs == [] then "" else fs[0].Text() + Fill(fs[1..])
  }

  // ---------- Tokens ----------

  predicate EndsWord(c: char) {
    c in {'\0', ' ', '\t', '\r', '\n', '{', '}', '"', '['}
  }

  predicate BareWord(s: string) {
    s != "" && (forall i :: 0 <= i < |s| ==> !EndsWord(s[i])) && !(|s| >= 2 && s[0] == '/' && s[1] == '/')
  }

  // What can stand in a quote that the end of the text closes.
  predicate OpenQuote(s: string) {
    QuoteSafe(s) || (s != "" && s[|s| - 1] == '\\' && QuoteSafe(s[..|s| - 1]))
  }

  predicate NoBracket(s: string) {
    forall i :: 0 <= i < |s| ==> s[i] != '\0' && s[i] != ']'
  }

  // w is a way to write the token, if `next` comes after it.
  predicate Writes(w: string, token: Token, next: char) {
    match token.kind
    case End => false
    case Open => w == "{" && token.text == ""
    case Close => w == "}" && token.text == ""
    case Condition => NoBracket(token.text) && (w == "[" + token.text + "]" || (w == "[" + token.text && next == '\0'))
    case Text =>
      || (w == "\"" + token.text + "\"" && QuoteSafe(token.text))
      || (w == "\"" + token.text && OpenQuote(token.text) && next == '\0')
      || (w == token.text && BareWord(token.text) && EndsWord(next))
  }

  // ---------- Reading what is between tokens ----------

  lemma {:induction false} LineEndIs(t: string, p: nat)
    requires p <= |t|
    ensures OneLine(t[p..LineEnd(t, p)]) && (Peek(t, LineEnd(t, p)) == '\0' || Peek(t, LineEnd(t, p)) == '\n')
    decreases |t| - p
  {
    if !(Peek(t, p) == '\0' || Peek(t, p) == '\n') {
      LineEndIs(t, p + 1);
      assert t[p..LineEnd(t, p)] == [t[p]] + t[p + 1..LineEnd(t, p + 1)];
    }
  }

  lemma {:induction false} LineEndAt(t: string, p: nat, s: string)
    requires At(t, p, s) && OneLine(s) && (Peek(t, p + |s|) == '\0' || Peek(t, p + |s|) == '\n')
    ensures LineEnd(t, p) == p + |s|
    decreases |s|
  {
    if s != "" {
      assert t[p] == t[p..p + |s|][0] && t[p..p + |s|][1..] == t[p + 1..p + |s|];
      LineEndAt(t, p + 1, s[1..]);
    }
  }

  // A last comment, up to the end of the text.
  predicate LastNote(s: string) {
    s == "" || (|s| >= 2 && s[0] == '/' && s[1] == '/' && OneLine(s[2..]))
  }

  // From p to q there are blanks and whole comments, and at the end of the text perhaps a last comment.
  ghost predicate Between(t: string, p: nat, q: nat, fs: seq<Filler>, last: string) {
    && p <= q <= |t| && Fillers(fs) && LastNote(last) && t[p..q] == Fill(fs) + last
    && (last != "" ==> Peek(t, q) == '\0')
  }

  lemma FirstFiller(t: string, p: nat, f: Filler, q: nat, fs: seq<Filler>, last: string)
    requires f.Valid() && p + |f.Text()| <= |t| && t[p..p + |f.Text()|] == f.Text()
    requires Between(t, p + |f.Text()|, q, fs, last)
    ensures Between(t, p, q, [f] + fs, last)
  {
    hide Filler.Valid, Filler.Text, LastNote;
    var m := p + |f.Text()|;
    assert t[p..q] == t[p..m] + t[m..q];
    assert ([f] + fs)[1..] == fs;
  }

  // A blank, a comment or neither comes next.
  lemma SkipCases(t: string, p: nat)
    requires p <= |t|
    ensures IsBlank(Peek(t, p)) ==> p < |t| && SkipBlank(t, p) == SkipBlank(t, p + 1)
    ensures Peek(t, p) == '/' && Peek(t, p + 1) == '/' ==> SkipBlank(t, p) == SkipBlank(t, LineEnd(t, p + 1))
    ensures !IsBlank(Peek(t, p)) && !(Peek(t, p) == '/' && Peek(t, p + 1) == '/') ==> SkipBlank(t, p) == p
  {
    hide LineEnd;
  }

  lemma BlankHere(t: string, p: nat)
    requires p < |t| && IsBlank(t[p])
    ensures Blank(t[p]).Valid() && |Blank(t[p]).Text()| == 1 && t[p..p + 1] == Blank(t[p]).Text()
  {
  }

  // The comment that starts at p ends at e.
  lemma NoteHere(t: string, p: nat) returns (e: nat)
    requires p <= |t| && Peek(t, p) == '/' && Peek(t, p + 1) == '/'
    ensures p + 2 <= e <= |t| && e == LineEnd(t, p + 1) && (Peek(t, e) == '\n' || Peek(t, e) == '\0')
    ensures OneLine(t[p + 2..e]) && t[p..e] == "//" + t[p + 2..e] && LastNote(t[p..e])
    ensures Peek(t, e) == '\n' ==>
              && e < |t| && Note(t[p + 2..e]).Valid() && t[p..e + 1] == Note(t[p + 2..e]).Text()
              && |Note(t[p + 2..e]).Text()| == e + 1 - p
  {
    LineStep(t, p + 1);
    LineEndIs(t, p + 2);
    e := LineEnd(t, p + 2);
    NoteText(t, p, e);
  }

  lemma NoLast()
    ensures LastNote("")
  {
  }

  lemma {:induction false} GapSound(t: string, p: nat) returns (fs: seq<Filler>, last: string)
    requires p <= |t|
    ensures Between(t, p, SkipBlank(t, p), fs, last)
    decreases |t| - p
  {
    hide LineEnd, Between, SkipBlank, LastNote, Filler.Valid, Filler.Text, OneLine, IsBlank;
    var q := SkipBlank(t, p);
    SkipCases(t, p);
    if IsBlank(Peek(t, p)) {
      BlankHere(t, p);
      fs, last := GapSound(t, p + 1);
      FirstFiller(t, p, Blank(t[p]), q, fs, last);
      fs := [Blank(t[p])] + fs;
    } else if Peek(t, p) == '/' && Peek(t, p + 1) == '/' {
      var e := NoteHere(t, p);
      BlankOrEnd(t, e);
      if Peek(t, e) == '\n' {
        fs, last := GapSound(t, e + 1);
        FirstFiller(t, p, Note(t[p + 2..e]), q, fs, last);
        fs := [Note(t[p + 2..e])] + fs;
      } else {
        fs, last := [], t[p..e];
        OnlyLast(t, p, e, last);
      }
    } else {
      fs, last := [], "";
      NoLast();
      OnlyLast(t, p, p, last);
    }
  }

  lemma NoteText(t: string, p: nat, e: nat)
    requires p + 2 <= e <= |t| && t[p] == '/' && t[p + 1] == '/'
    ensures t[p..e] == "//" + t[p + 2..e] && |"//" + t[p + 2..e]| == e - p && ("//" + t[p + 2..e])[2..] == t[p + 2..e]
    ensures e < |t| && t[e] == '\n' ==> t[p..e + 1] == Note(t[p + 2..e]).Text()
  {
  }

  lemma BlankOrEnd(t: string, e: nat)
    requires e <= |t|
    ensures Peek(t, e) == '\n' ==> SkipBlank(t, e) == SkipBlank(t, e + 1)
    ensures Peek(t, e) == '\0' ==> SkipBlank(t, e) == e
  {
  }

  lemma OnlyLast(t: string, p: nat, q: nat, last: string)
    requires p <= q <= |t| && LastNote(last) && t[p..q] == last && (last != "" ==> Peek(t, q) == '\0')
    ensures Between(t, p, q, [], last)
  {
  }

  // What comes next is no comment.
  lemma {:induction false} NoNote(t: string, p: nat)
    requires p <= |t|
    ensures !(Peek(t, SkipBlank(t, p)) == '/' && Peek(t, SkipBlank(t, p) + 1) == '/')
    decreases |t| - p
  {
    hide LineEnd;
    if IsBlank(Peek(t, p)) {
      NoNote(t, p + 1);
    } else if Peek(t, p) == '/' && Peek(t, p + 1) == '/' {
      LineStep(t, p + 1);
      NoNote(t, LineEnd(t, p + 1));
    }
  }

  lemma LineStep(t: string, p: nat)
    requires p < |t| && t[p] == '/'
    ensures LineEnd(t, p) == LineEnd(t, p + 1)
  {
  }

  lemma FillerSkipped(t: string, p: nat, f: Filler)
    requires f.Valid() && At(t, p, f.Text())
    ensures SkipBlank(t, p) == SkipBlank(t, p + |f.Text()|)
  {
    match f
    case Blank(c) => assert t[p] == t[p..p + 1][0];
    case Note(text) =>
      NoteEnds(t, p, text);
      LineStep(t, p + 1);
      hide LineEnd;
      var e := p + 2 + |text|;
      assert SkipBlank(t, p) == SkipBlank(t, e);
      assert SkipBlank(t, e) == SkipBlank(t, e + 1);
  }

  lemma NoteEnds(t: string, p: nat, text: string)
    requires OneLine(text) && At(t, p, "//" + text + "\n")
    ensures p + 3 + |text| <= |t| && t[p] == '/' && t[p + 1] == '/' && t[p + 2 + |text|] == '\n'
    ensures LineEnd(t, p + 2) == p + 2 + |text|
  {
    AtConcat3(t, p, "//", text, "\n");
    assert t[p..p + 2][0] == t[p] && t[p..p + 2][1] == t[p + 1];
    OneAt(t, p + 2 + |text|, '\n');
    LineEndAt(t, p + 2, text);
  }

  lemma {:induction false} FillSkipped(t: string, p: nat, fs: seq<Filler>)
    requires Fillers(fs) && At(t, p, Fill(fs))
    ensures SkipBlank(t, p) == SkipBlank(t, p + |Fill(fs)|)
    decreases |fs|
  {
    hide SkipBlank, Filler.Valid, Filler.Text;
    if fs != [] {
      var f, rest := fs[0], Fill(fs[1..]);
      assert Fill(fs) == f.Text() + rest;
      hide At, Fill;
      AtConcat(t, p, f.Text(), rest);
      FillerSkipped(t, p, f);
      AtBound(t, p, f.Text());
      FillSkipped(t, p + |f.Text()|, fs[1..]);
    }
  }

  lemma LastSkipped(t: string, p: nat, last: string)
    requires LastNote(last) && At(t, p, last) && Peek(t, p + |last|) == '\0'
    ensures SkipBlank(t, p) == p + |last|
  {
    var q := p + |last|;
    assert SkipBlank(t, q) == q;
    if last != "" {
      assert last == last[..2] + last[2..];
      AtConcat(t, p, last[..2], last[2..]);
      assert t[p] == t[p..p + 2][0] && t[p + 1] == t[p..p + 2][1];
      LineEndAt(t, p + 2, last[2..]);
      LineStep(t, p + 1);
      hide LineEnd;
    }
  }

  // ---------- Reading a token ----------

  lemma {:induction false} QuoteIs(t: string, p: nat)
    requires p <= |t|
    ensures var e := QuoteEnd(t, p);
            && (Peek(t, e) == '"' || Peek(t, e) == '\0')
            && (Peek(t, e) == '"' ==> QuoteSafe(t[p..e]))
            && OpenQuote(t[p..e])
    decreases |t| - p
  {
    var e := QuoteEnd(t, p);
    if Peek(t, p) == '\0' || Peek(t, p) == '"' {
      assert t[p..e] == "";
    } else if Peek(t, p) == '\\' && Peek(t, p + 1) != '\0' {
      QuoteIs(t, p + 2);
      QuoteMore(t[p..p + 2], t[p + 2..e]);
      assert t[p..e] == t[p..p + 2] + t[p + 2..e];
    } else {
      QuoteIs(t, p + 1);
      if t[p] == '\\' {
        assert QuoteEnd(t, p + 1) == p + 1;
        assert t[p..e] == ['\\'];
      } else {
        QuoteMore(t[p..p + 1], t[p + 1..e]);
        assert t[p..e] == t[p..p + 1] + t[p + 1..e];
      }
    }
  }

  // A character that carries itself, or a backslash with the one it carries, in front.
  lemma QuoteMore(a: string, s: string)
    requires a != "" && a[0] != '\0' && a[0] != '"'
    requires if a[0] == '\\' then |a| == 2 && a[1] != '\0' else |a| == 1
    ensures QuoteSafe(a + s) == QuoteSafe(s)
    ensures OpenQuote(s) ==> OpenQuote(a + s)
  {
    SafeMore(a, s);
    if s != "" {
      SafeMore(a, s[..|s| - 1]);
      assert (a + s)[..|a + s| - 1] == a + s[..|s| - 1];
      assert (a + s)[|a + s| - 1] == s[|s| - 1];
    }
  }

  lemma SafeMore(a: string, s: string)
    requires a != "" && a[0] != '\0' && a[0] != '"'
    requires if a[0] == '\\' then |a| == 2 && a[1] != '\0' else |a| == 1
    ensures QuoteSafe(a + s) == QuoteSafe(s)
  {
    assert (a + s)[|a|..] == s;
  }

  lemma {:induction false} QuoteAt(t: string, p: nat, s: string)
    requires At(t, p, s)
    requires (QuoteSafe(s) && Peek(t, p + |s|) == '"') || (OpenQuote(s) && Peek(t, p + |s|) == '\0')
    ensures QuoteEnd(t, p) == p + |s|
    decreases |s|
  {
    if s != "" {
      assert t[p] == t[p..p + |s|][0] && t[p..p + |s|][1..] == t[p + 1..p + |s|];
      FirstQuoted(s);
      if s[0] == '\\' && |s| >= 2 {
        assert t[p + 1] == t[p..p + |s|][1] && t[p..p + |s|][2..] == t[p + 2..p + |s|];
        QuoteAt(t, p + 2, s[2..]);
      } else {
        QuoteAt(t, p + 1, s[1..]);
      }
    }
  }

  lemma FirstQuoted(s: string)
    requires s != "" && OpenQuote(s)
    ensures s[0] != '\0' && s[0] != '"'
    ensures s[0] != '\\' ==> OpenQuote(s[1..]) && (QuoteSafe(s) ==> QuoteSafe(s[1..]))
    ensures s[0] == '\\' && |s| >= 2 ==> s[1] != '\0' && OpenQuote(s[2..]) && (QuoteSafe(s) ==> QuoteSafe(s[2..]))
    ensures s[0] == '\\' && |s| == 1 ==> !QuoteSafe(s) && OpenQuote(s[1..])
  {
    if !QuoteSafe(s) {
      var init := s[..|s| - 1];
      if init != "" {
        assert init[0] == s[0];
        assert init[1..] == s[1..][..|s| - 2];
        assert s[1..][|s| - 2] == s[|s| - 1];
        if s[0] == '\\' {
          assert |init| >= 2;
          assert init[2..] == s[2..][..|s| - 3];
        }
      }
    }
  }

  lemma {:induction false} BareIs(t: string, p: nat)
    requires p <= |t|
    ensures EndsWord(Peek(t, BareEnd(t, p))) && forall i :: p <= i < BareEnd(t, p) ==> !EndsWord(t[i])
    decreases |t| - p
  {
    if !EndsBare(Peek(t, p)) {
      BareIs(t, p + 1);
    }
  }

  lemma {:induction false} BareAt(t: string, p: nat, e: nat)
    requires p <= e <= |t| && EndsWord(Peek(t, e)) && forall i :: p <= i < e ==> !EndsWord(t[i])
    ensures BareEnd(t, p) == e
    decreases e - p
  {
    if p < e {
      BareAt(t, p + 1, e);
    }
  }

  lemma {:induction false} BracketIs(t: string, p: nat)
    requires p <= |t|
    ensures NoBracket(t[p..ConditionEnd(t, p)])
    ensures Peek(t, ConditionEnd(t, p)) == '\0' || Peek(t, ConditionEnd(t, p)) == ']'
    decreases |t| - p
  {
    if !(Peek(t, p) == '\0' || Peek(t, p) == ']') {
      BracketIs(t, p + 1);
      assert t[p..ConditionEnd(t, p)] == [t[p]] + t[p + 1..ConditionEnd(t, p + 1)];
    }
  }

  lemma {:induction false} BracketAt(t: string, p: nat, s: string)
    requires At(t, p, s) && NoBracket(s) && (Peek(t, p + |s|) == '\0' || Peek(t, p + |s|) == ']')
    ensures ConditionEnd(t, p) == p + |s|
    decreases |s|
  {
    if s != "" {
      assert t[p] == t[p..p + |s|][0] && t[p..p + |s|][1..] == t[p + 1..p + |s|];
      BracketAt(t, p + 1, s[1..]);
    }
  }

  // What is read is a way to write the token.
  lemma TokenSound(t: string, p: nat)
    requires p <= |t| && !IsBlank(Peek(t, p)) && !(Peek(t, p) == '/' && Peek(t, p + 1) == '/')
    ensures var (token, q) := TokenAt(t, p);
            if token.kind == End then q == p && Peek(t, p) == '\0' && token.text == ""
            else Writes(t[p..q], token, Peek(t, q))
  {
    hide QuoteEnd, BareEnd, ConditionEnd, QuoteSafe, OpenQuote, NoBracket;
    var c := Peek(t, p);
    if c == '[' {
      BracketSound(t, p);
    } else if c == '"' {
      QuoteSound(t, p);
    } else if c != '\0' && c != '{' && c != '}' {
      WordSound(t, p);
    }
  }

  lemma BracketSound(t: string, p: nat)
    requires p < |t| && t[p] == '['
    ensures TokenAt(t, p).0.kind == Condition && Writes(t[p..TokenAt(t, p).1], TokenAt(t, p).0, Peek(t, TokenAt(t, p).1))
  {
    BracketIs(t, p + 1);
    hide ConditionEnd, NoBracket;
    var e := ConditionEnd(t, p + 1);
    assert t[p..e] == "[" + t[p + 1..e];
    assert e < |t| && t[e] == ']' ==> t[p..e + 1] == "[" + t[p + 1..e] + "]";
  }

  lemma QuoteSound(t: string, p: nat)
    requires p < |t| && t[p] == '"'
    ensures TokenAt(t, p).0.kind == Text && Writes(t[p..TokenAt(t, p).1], TokenAt(t, p).0, Peek(t, TokenAt(t, p).1))
  {
    QuoteIs(t, p + 1);
    hide QuoteEnd, QuoteSafe, OpenQuote, BareWord;
    var e := QuoteEnd(t, p + 1);
    assert t[p..e] == "\"" + t[p + 1..e];
    assert e < |t| && t[e] == '"' ==> t[p..e + 1] == "\"" + t[p + 1..e] + "\"";
  }

  lemma WordSound(t: string, p: nat)
    requires p < |t| && !EndsBare(t[p]) && !(t[p] == '/' && Peek(t, p + 1) == '/')
    ensures TokenAt(t, p).0.kind == Text && Writes(t[p..TokenAt(t, p).1], TokenAt(t, p).0, Peek(t, TokenAt(t, p).1))
  {
    BareIs(t, p + 1);
    hide BareEnd, QuoteSafe, OpenQuote;
    var w := t[p..BareEnd(t, p + 1)];
    assert forall i :: 0 <= i < |w| ==> w[i] == t[p + i];
    assert BareWord(w);
  }

  // However a token is written, it is read.
  lemma TokenComplete(t: string, p: nat, w: string, token: Token)
    requires At(t, p, w) && Writes(w, token, Peek(t, p + |w|))
    ensures w != "" && SkipBlank(t, p) == p && NextToken(t, p) == (token, p + |w|)
  {
    hide QuoteEnd, BareEnd, ConditionEnd, QuoteSafe, OpenQuote, NoBracket, BareWord;
    match token.kind
    case Open => OneAt(t, p, '{');
    case Close => OneAt(t, p, '}');
    case Condition => BracketComplete(t, p, w, token.text);
    case Text =>
      if w == token.text && BareWord(token.text) && EndsWord(Peek(t, p + |w|)) {
        WordComplete(t, p, w);
      } else {
        QuoteComplete(t, p, w, token.text);
      }
  }

  lemma BracketComplete(t: string, p: nat, w: string, s: string)
    requires At(t, p, w) && NoBracket(s) && (w == "[" + s + "]" || (w == "[" + s && Peek(t, p + |w|) == '\0'))
    ensures w != "" && SkipBlank(t, p) == p && NextToken(t, p) == (Token(Condition, s), p + |w|)
  {
    hide NoBracket, ConditionEnd, At;
    if w == "[" + s + "]" {
      AtConcat3(t, p, "[", s, "]");
      OneAt(t, p + 1 + |s|, ']');
    } else {
      AtConcat(t, p, "[", s);
    }
    OneAt(t, p, '[');
    BracketAt(t, p + 1, s);
    SliceIs(t, p + 1, s, p + 1 + |s|);
  }

  lemma QuoteComplete(t: string, p: nat, w: string, s: string)
    requires At(t, p, w)
    requires (w == "\"" + s + "\"" && QuoteSafe(s)) || (w == "\"" + s && OpenQuote(s) && Peek(t, p + |w|) == '\0')
    ensures w != "" && SkipBlank(t, p) == p && NextToken(t, p) == (Token(Text, s), p + |w|)
  {
    hide QuoteSafe, OpenQuote, QuoteEnd, At;
    if w == "\"" + s + "\"" && QuoteSafe(s) {
      AtConcat3(t, p, "\"", s, "\"");
      OneAt(t, p + 1 + |s|, '"');
    } else {
      AtConcat(t, p, "\"", s);
    }
    OneAt(t, p, '"');
    QuoteAt(t, p + 1, s);
    SliceIs(t, p + 1, s, p + 1 + |s|);
  }

  lemma WordComplete(t: string, p: nat, w: string)
    requires At(t, p, w) && BareWord(w) && EndsWord(Peek(t, p + |w|))
    ensures w != "" && SkipBlank(t, p) == p && NextToken(t, p) == (Token(Text, w), p + |w|)
  {
    hide BareEnd;
    var part := t[p..p + |w|];
    assert forall i :: 0 <= i < |w| ==> part[i] == t[p + i];
    BareAt(t, p + 1, p + |w|);
  }

  // ---------- A text's tokens ----------

  // All tokens from p on, up to the end.
  function TokensFrom(t: string, p: nat): seq<Token>
    requires p <= |t|
    decreases |t| - p
  {
    var (token, q) := NextToken(t, p);
    if token.kind == End then [] else [token] + TokensFrom(t, q)
  }

  // From p on: fillers, then the token written as w.
  ghost predicate WritesFirst(t: string, p: nat, fs: seq<Filler>, w: string, token: Token) {
    && Fillers(fs) && At(t, p, Fill(fs)) && At(t, p + |Fill(fs)|, w)
    && Writes(w, token, Peek(t, p + |Fill(fs)| + |w|))
  }

  // From p on: fillers and perhaps a last comment, then nothing that a C string would show.
  ghost predicate WritesEnd(t: string, p: nat, fs: seq<Filler>, last: string) {
    && Fillers(fs) && LastNote(last) && At(t, p, Fill(fs)) && At(t, p + |Fill(fs)|, last)
    && Peek(t, p + |Fill(fs)| + |last|) == '\0'
  }

  // The text from p on writes the tokens, with any fillers before each and at the end.
  ghost predicate Spells(t: string, p: nat, tokens: seq<Token>)
    requires p <= |t|
    decreases |tokens|
  {
    if tokens == [] then exists fs, last :: WritesEnd(t, p, fs, last)
    else exists fs, w :: WritesFirst(t, p, fs, w, tokens[0])
                         && p + |Fill(fs)| + |w| <= |t| && Spells(t, p + |Fill(fs)| + |w|, tokens[1..])
  }

  lemma FirstRead(t: string, p: nat, fs: seq<Filler>, w: string, token: Token)
    requires WritesFirst(t, p, fs, w, token)
    ensures p <= |t| && p + |Fill(fs)| + |w| <= |t| && w != "" && NextToken(t, p) == (token, p + |Fill(fs)| + |w|)
  {
    hide TokenAt, SkipBlank, Fill, Writes, Fillers;
    FillSkipped(t, p, fs);
    TokenComplete(t, p + |Fill(fs)|, w, token);
  }

  lemma EndRead(t: string, p: nat, fs: seq<Filler>, last: string)
    requires WritesEnd(t, p, fs, last)
    ensures p <= |t| && NextToken(t, p).0.kind == End
  {
    hide SkipBlank, Fill, Fillers, LastNote;
    FillSkipped(t, p, fs);
    LastSkipped(t, p + |Fill(fs)|, last);
  }

  // What is read next, written out.
  lemma NextSound(t: string, p: nat) returns (fs: seq<Filler>, w: string)
    requires p <= |t|
    ensures var (token, q) := NextToken(t, p);
            if token.kind == End then WritesEnd(t, p, fs, w) && token.text == ""
            else WritesFirst(t, p, fs, w, token) && q == p + |Fill(fs)| + |w|
  {
    hide TokenAt, SkipBlank, Fill, Fillers, Writes, LastNote;
    var s := SkipBlank(t, p);
    var last;
    fs, last := GapSound(t, p);
    NoNote(t, p);
    TokenSound(t, s);
    SplitGap(t, p, s, Fill(fs), last);
    var (token, q) := TokenAt(t, s);
    if token.kind == End {
      w := last;
    } else {
      NotAtEnd(t, s);
      w := t[s..q];
    }
  }

  lemma SplitGap(t: string, p: nat, s: nat, a: string, b: string)
    requires p <= s <= |t| && t[p..s] == a + b
    ensures At(t, p, a) && At(t, p + |a|, b) && p + |a| + |b| == s
  {
    AtConcat(t, p, a, b);
  }

  lemma NotAtEnd(t: string, s: nat)
    requires s <= |t| && !IsBlank(Peek(t, s)) && TokenAt(t, s).0.kind != End
    ensures Peek(t, s) != '\0'
  {
  }

  // The tokens read are the tokens written.
  lemma {:induction false} SpelledTokens(t: string, p: nat, tokens: seq<Token>)
    requires p <= |t| && Spells(t, p, tokens)
    ensures TokensFrom(t, p) == tokens
    decreases |tokens|
  {
    hide NextToken, WritesFirst, WritesEnd, Fill;
    var (token, q) := NextToken(t, p);
    if tokens == [] {
      var gs, last :| WritesEnd(t, p, gs, last);
      EndRead(t, p, gs, last);
    } else {
      var gs, v :| WritesFirst(t, p, gs, v, tokens[0])
                   && p + |Fill(gs)| + |v| <= |t| && Spells(t, p + |Fill(gs)| + |v|, tokens[1..]);
      FirstRead(t, p, gs, v, tokens[0]);
      NotEnd(tokens[0], v, Peek(t, p + |Fill(gs)| + |v|), t, p, gs);
      SpelledTokens(t, q, tokens[1..]);
    }
  }

  lemma {:induction false} TokensSpelled(t: string, p: nat)
    requires p <= |t|
    ensures Spells(t, p, TokensFrom(t, p))
    decreases |TokensFrom(t, p)|
  {
    hide NextToken, WritesFirst, WritesEnd, Fill;
    var (token, q) := NextToken(t, p);
    var fs, w := NextSound(t, p);
    if token.kind != End {
      assert TokensFrom(t, p)[1..] == TokensFrom(t, q);
      TokensSpelled(t, q);
      assert Spells(t, p + |Fill(fs)| + |w|, TokensFrom(t, q));
    }
  }

  // A text's tokens are a list exactly when it spells them.
  lemma TokensExactly(t: string, p: nat, tokens: seq<Token>)
    requires p <= |t|
    ensures Spells(t, p, tokens) <==> TokensFrom(t, p) == tokens
  {
    hide Spells, TokensFrom;
    TokensSpelled(t, p);
    if Spells(t, p, tokens) {
      SpelledTokens(t, p, tokens);
    }
  }

  lemma NotEnd(token: Token, w: string, next: char, t: string, p: nat, fs: seq<Filler>)
    requires WritesFirst(t, p, fs, w, token)
    ensures token.kind != End
  {
  }
}
