// What the lenient reader makes of a document with comments: trees of values whose parts stand apart by white space,
// comments to the end of the line and comments between marks.
module JsonComments {
  import opened Options
  import opened JsonText
  import opened JsonTree
  import opened JsonLenient
  import opened JsonAgree

  // ---------- Gaps ----------

  datatype Filler = Blank(c: char) | Note(text: string) | Remark(text: string) {
    predicate Valid() {
      match this
      case Blank(c) => c == ' ' || c == '\t' || c == '\r' || c == '\n'
      case Note(text) => '\0' !in text && '\n' !in text
      case Remark(text) => '\0' !in text && forall i :: 0 <= i < |text| - 1 ==> !(text[i] == '*' && text[i + 1] == '/')
    }

    function Text(): string {
      match this
      case Blank(c) => [c]
      case Note(text) => "//" + (text + "\n")
      case Remark(text) => "/*" + (text + "*/")
    }
  }

  ghost predicate AllFillers(fs: seq<Filler>) {
    forall i :: 0 <= i < |fs| ==> fs[i].Valid()
  }

  function Fill(fs: seq<Filler>): string
    decreases |fs|
  {
    if fs == [] then "" else fs[0].Text() + Fill(fs[1..])
  }

  ghost predicate Gap(w: string) {
    exists fs :: AllFillers(fs) && w == Fill(fs)
  }

  // A gap without what ends a number or a word.
  ghost predicate Quiet(w: string) {
    Gap(w) && forall i :: 0 <= i < |w| ==> IsPlain(w[i])
  }

  lemma {:induction false} LinePassed(text: string, x: string)
    requires '\0' !in text && '\n' !in text
    ensures SkipLine(text + ("\n" + x)) == "\n" + x
    decreases |text|
  {
    var t := text + ("\n" + x);
    if text != "" {
      assert t[1..] == text[1..] + ("\n" + x);
      LinePassed(text[1..], x);
    } else {
      assert t == "\n" + x;
    }
  }

  lemma {:induction false} RemarkPassed(text: string, x: string)
    requires Remark(text).Valid()
    ensures SkipBlock(text + ("*/" + x)) == x
    decreases |text|
  {
    var t := text + ("*/" + x);
    if text != "" {
      assert t[1..] == text[1..] + ("*/" + x);
      RemarkPassed(text[1..], x);
      assert t[0] == text[0] && t[1] == if |text| > 1 then text[1] else '*';
      assert t[..2] == [t[0], t[1]];
    } else {
      assert t == "*/" + x;
      assert t[..2] == "*/" && t[2..] == x;
    }
  }

  lemma LineStarts(t: string)
    requires StartsWith(t, "//")
    ensures SkipGap(t) == SkipGap(SkipLine(t))
  {
    assert t[0] == t[..2][0];
  }

  lemma RemarkStarts(t: string)
    requires StartsWith(t, "/*")
    ensures SkipGap(t) == SkipGap(SkipBlock(t[2..]))
  {
    assert t[0] == t[..2][0] && t[1] == t[..2][1];
  }

  lemma BlankPassed(c: char, x: string)
    requires IsWs(c)
    ensures SkipGap([c] + x) == SkipGap(x)
  {
    assert ([c] + x)[1..] == x;
    assert SkipWs([c] + x) == SkipWs(x);
  }

  lemma FillerPassed(f: Filler, x: string)
    requires f.Valid()
    ensures SkipGap(f.Text() + x) == SkipGap(x)
  {
    hide SkipLine, SkipBlock, SkipGap;
    var t := f.Text() + x;
    match f
    case Blank(c) => BlankPassed(c, x);
    case Note(text) =>
      assert t == "//" + (text + ("\n" + x));
      assert t[..2] == "//";
      LineStarts(t);
      NoteText(text, x);
      BlankPassed('\n', x);
    case Remark(text) =>
      assert t == "/*" + (text + ("*/" + x));
      assert t[..2] == "/*" && t[2..] == text + ("*/" + x);
      RemarkStarts(t);
      RemarkPassed(text, x);
  }

  lemma NoteText(text: string, x: string)
    requires '\0' !in text && '\n' !in text
    ensures SkipLine("//" + (text + ("\n" + x))) == "\n" + x
  {
    assert "//" + (text + ("\n" + x)) == ("//" + text) + ("\n" + x);
    LinePassed("//" + text, x);
  }

  lemma {:induction false} FillPassed(fs: seq<Filler>, x: string)
    requires AllFillers(fs)
    ensures SkipGap(Fill(fs) + x) == SkipGap(x)
    decreases |fs|
  {
    hide SkipGap;
    if fs == [] {
      assert "" + x == x;
    } else {
      FillPassed(fs[1..], x);
      FillerPassed(fs[0], Fill(fs[1..]) + x);
      assert Fill(fs) + x == fs[0].Text() + (Fill(fs[1..]) + x);
    }
  }

  // Gaps do not matter.
  lemma GapPassed(w: string, x: string)
    requires Gap(w)
    ensures SkipGap(w + x) == SkipGap(x)
  {
    hide SkipGap, Fill;
    var fs :| AllFillers(fs) && w == Fill(fs);
    FillPassed(fs, x);
  }

  lemma NoGap(x: string)
    requires !IsWs(Peek(x)) && Peek(x) != '/'
    ensures SkipGap(x) == x
  {
  }

  // White space is a gap.
  lemma {:induction false} SpacesAreGap(w: string)
    requires Spaces(w)
    ensures Quiet(w)
    decreases |w|
  {
    if w == "" {
      assert AllFillers([]) && Fill([]) == "";
    } else {
      SpacesAreGap(w[1..]);
      var fs :| AllFillers(fs) && w[1..] == Fill(fs);
      var gs := [Blank(w[0])] + fs;
      assert gs[1..] == fs && AllFillers(gs);
      assert Fill(gs) == w;
    }
  }

  // ---------- Trees with comments ----------

  predicate Scalar(n: Node) {
    n.Word? || n.Numeral?
  }

  // Any gaps between the parts, at any depth; but none with a delimiter behind a number or a word, or where there is
  // nothing between brackets.
  ghost predicate Commented(n: Node)
    decreases n, 1
  {
    match n
    case Word(word) => word in {"true", "false", "null"}
    case Numeral(number) => number.Valid()
    case Text(glyphs) => AllGlyphs(glyphs)
    case Array(inner, items) => Quiet(inner) && CommentedItems(items)
    case Object(inner, members) => Quiet(inner) && CommentedMembers(members)
  }

  ghost predicate CommentedItems(items: Items)
    decreases items, 0
  {
    items.Item? ==>
      && Gap(items.before) && Gap(items.after) && (Scalar(items.value) ==> Quiet(items.after))
      && Commented(items.value) && CommentedItems(items.more)
  }

  ghost predicate CommentedMembers(members: Members)
    decreases members, 0
  {
    members.Member? ==>
      && Gap(members.before) && AllGlyphs(members.key) && Gap(members.middle) && Gap(members.gap) && Gap(members.after)
      && (Scalar(members.value) ==> Quiet(members.after))
      && Commented(members.value) && CommentedMembers(members.more)
  }

  // What the strict parser accepts is such a tree.
  lemma {:induction false} StrictIsCommented(n: Node, depth: nat)
    requires Valid(n, depth)
    ensures Commented(n)
    decreases n, 1
  {
    hide Quiet, Spaces;
    match n
    case Array(inner, items) =>
      SpacesAreGap(inner);
      StrictItems(items, depth);
    case Object(inner, members) =>
      SpacesAreGap(inner);
      StrictMembers(members, depth);
    case _ =>
  }

  lemma QuietIsGap(w: string)
    requires Spaces(w)
    ensures Gap(w) && Quiet(w)
  {
    SpacesAreGap(w);
  }

  lemma {:induction false} StrictItems(s: Items, depth: nat)
    requires ValidItems(s, depth)
    ensures CommentedItems(s)
    decreases s, 0
  {
    hide Quiet, Gap, Spaces;
    if s.Item? {
      QuietIsGap(s.before);
      QuietIsGap(s.after);
      StrictIsCommented(s.value, depth - 1);
      StrictItems(s.more, depth);
    }
  }

  lemma {:induction false} StrictMembers(m: Members, depth: nat)
    requires ValidMembers(m, depth)
    ensures CommentedMembers(m)
    decreases m, 0
  {
    hide Quiet, Gap, Spaces;
    if m.Member? {
      QuietIsGap(m.before);
      QuietIsGap(m.middle);
      QuietIsGap(m.gap);
      QuietIsGap(m.after);
      StrictIsCommented(m.value, depth - 1);
      StrictMembers(m.more, depth);
    }
  }

  // ---------- Skipping a value ----------

  lemma {:induction false} PlainPassed(s: string, r: string)
    requires forall i :: 0 <= i < |s| ==> IsPlain(s[i])
    ensures SkipScalar(s + r) == SkipScalar(r)
    decreases |s|
  {
    if s == "" {
      assert s + r == r;
    } else {
      assert (s + r)[1..] == s[1..] + r;
      PlainPassed(s[1..], r);
    }
  }

  lemma DigitsPassed(ds: string, r: string)
    requires AllDigits(ds)
    ensures SkipScalar(ds + r) == SkipScalar(r)
  {
    PlainPassed(ds, r);
  }

  lemma PowerPassed(p: Power, r: string)
    requires p.Valid()
    ensures SkipScalar(p.Text(r)) == SkipScalar(r)
  {
    hide SkipScalar;
    if p.Power? {
      DigitsPassed(p.digits, r);
      PlainPassed(p.sign, p.digits + r);
      PlainPassed([p.letter], p.sign + (p.digits + r));
    }
  }

  lemma NumberPassed(n: Number, r: string)
    requires n.Valid()
    ensures SkipScalar(n.Text(r)) == SkipScalar(r)
  {
    hide SkipScalar;
    PowerPassed(n.power, r);
    DigitsPassed(n.fraction, n.power.Text(r));
    PlainPassed(".", n.fraction + n.power.Text(r));
    DigitsPassed(n.whole, n.Fractional(r));
    PlainPassed("-", n.whole + n.Fractional(r));
    assert "" + (n.whole + n.Fractional(r)) == n.whole + n.Fractional(r);
  }

  lemma ScalarPassed(n: Node, r: string)
    requires Scalar(n) && Commented(n)
    ensures SkipScalar(NodeText(n, r)) == SkipScalar(r)
  {
    hide SkipScalar;
    if n.Word? {
      PlainPassed(n.word, r);
    } else {
      NumberPassed(n.number, r);
    }
  }

  lemma NumberStarts(n: Number, r: string)
    requires n.Valid()
    ensures var c := Peek(n.Text(r)); c == '-' || IsDigit(c)
  {
  }

  // How a value starts.
  lemma ValueStarts(n: Node, r: string)
    requires Commented(n)
    ensures var c := Peek(NodeText(n, r));
            match n
            case Word(w) => c == w[0] && (c == 't' || c == 'f' || c == 'n')
            case Numeral(_) => c == '-' || IsDigit(c)
            case Text(_) => c == '"'
            case Array(_, _) => c == '['
            case Object(_, _) => c == '{'
    ensures SkipGap(NodeText(n, r)) == NodeText(n, r)
  {
    hide GlyphsText, ItemsText, MembersText, Quiet, SkipGap, Fill;
    match n
    case Word(word) => NoGap(NodeText(n, r));
    case Numeral(number) =>
      NumberStarts(number, r);
      NoGap(NodeText(n, r));
    case _ => NoGap(NodeText(n, r));
  }

  lemma SameGap(a: string, b: string)
    requires SkipGap(a) == SkipGap(b)
    ensures SkipValue(a) == SkipValue(b) && SkipMembers(a) == SkipMembers(b) && SkipItems(a) == SkipItems(b)
  {
  }

  // Past a gap to what is no gap.
  lemma GapTo(w: string, x: string)
    requires Gap(w) && !IsWs(Peek(x)) && Peek(x) != '/'
    ensures SkipGap(w + x) == x
  {
    GapPassed(w, x);
    NoGap(x);
  }

  // From behind a value to the delimiter behind its gap.
  lemma AfterValue(n: Node, w: string, x: string)
    requires Commented(n) && Gap(w) && (Scalar(n) ==> Quiet(w))
    requires Peek(x) == ',' || Peek(x) == '}' || Peek(x) == ']'
    ensures SkipGap(if Scalar(n) then SkipScalar(w + x) else w + x) == x
  {
    hide Gap, Fill, SkipGap;
    if Scalar(n) {
      PlainPassed(w, x);
      assert SkipScalar(x) == x;
      NoGap(x);
    } else {
      GapTo(w, x);
    }
  }

  // The lenient skip lands behind a string, an array or an object; behind a number or a word, at the next delimiter.
  lemma {:induction false} ValuePassed(n: Node, r: string)
    requires Commented(n)
    ensures SkipValue(NodeText(n, r)) == if Scalar(n) then SkipScalar(r) else r
    decreases n, 1
  {
    ValueStarts(n, r);
    hide SkipGap, Quiet, Gap, ItemsText, MembersText, SkipMembers, SkipItems, SkipScalar, GlyphsText, SkipChars;
    match n
    case Text(glyphs) => GlyphsPassed(glyphs, r);
    case Array(inner, items) =>
      assert NodeText(n, r)[1..] == if items.NoItems? then inner + ("]" + r) else ItemsText(items, r);
      if items.NoItems? {
        EmptyPassed(inner, r);
      } else {
        ItemsPassed(items, r);
      }
    case Object(inner, members) =>
      assert NodeText(n, r)[1..] == if members.NoMembers? then inner + ("}" + r) else MembersText(members, r);
      if members.NoMembers? {
        EmptyPassed(inner, r);
      } else {
        MembersPassed(members, r);
      }
    case _ => ScalarPassed(n, r);
  }

  lemma GlyphsPassed(gs: seq<Glyph>, r: string)
    requires AllGlyphs(gs)
    ensures SkipChars(GlyphsText(gs, r)) == r && SkipString("\"" + GlyphsText(gs, r)) == r
    ensures KeyEnd(GlyphsText(gs, r)) == "\"" + r
  {
    hide GlyphsText, SkipChars, KeyEnd;
    var t := GlyphsText(gs, r);
    CharsComplete(gs, r);
    CharsAgree(t);
    assert ("\"" + t)[1..] == t;
    assert KeyEnd(t) == [KeyEnd(t)[0]] + KeyEnd(t)[1..];
  }

  lemma EmptyPassed(inner: string, r: string)
    requires Gap(inner)
    ensures SkipItems(inner + ("]" + r)) == r && SkipMembers(inner + ("}" + r)) == r
  {
    GapTo(inner, "]" + r);
    GapTo(inner, "}" + r);
    assert ("]" + r)[1..] == r && ("}" + r)[1..] == r;
  }

  lemma {:induction false} ItemsPassed(s: Items, r: string)
    requires s.Item? && CommentedItems(s)
    ensures SkipItems(ItemsText(s, r)) == r
    decreases s, 0
  {
    hide SkipGap, Quiet, Gap, SkipScalar, NodeText;
    var x := if s.more.NoItems? then "]" + r else "," + ItemsText(s.more, r);
    var v := NodeText(s.value, s.after + x);
    GapPassed(s.before, v);
    ValueStarts(s.value, s.after + x);
    SameGap(ItemsText(s, r), v);
    hide ItemsText;
    ValuePassed(s.value, s.after + x);
    AfterValue(s.value, s.after, x);
    assert x[1..] == if s.more.NoItems? then r else ItemsText(s.more, r);
    if s.more.Item? {
      ItemsPassed(s.more, r);
    }
  }

  // A member's text is its gap, its key, and the rest.
  lemma MemberStarts(m: Members, r: string)
    requires m.Member? && CommentedMembers(m)
    ensures SkipGap(MembersText(m, r)) == "\"" + GlyphsText(m.key, MemberRest(m, r))
  {
    hide GlyphsText, NodeText, Gap, Quiet;
    GapTo(m.before, "\"" + GlyphsText(m.key, MemberRest(m, r)));
  }

  // What follows a member's value and the gap behind it.
  function MemberEnd(m: Members, r: string): string
    requires m.Member?
  {
    if m.more.NoMembers? then "}" + r else "," + MembersText(m.more, r)
  }

  // A member's value, and what follows.
  function MemberValue(m: Members, r: string): string
    requires m.Member?
  {
    NodeText(m.value, m.after + MemberEnd(m, r))
  }

  // What follows the key's closing quote.
  function MemberRest(m: Members, r: string): string
    requires m.Member?
  {
    m.middle + (":" + (m.gap + MemberValue(m, r)))
  }

  lemma ColonThen(m: Members, r: string)
    requires m.Member? && CommentedMembers(m)
    ensures SkipGap(MemberRest(m, r)) == ":" + (m.gap + MemberValue(m, r))
    ensures SkipGap(m.gap + MemberValue(m, r)) == MemberValue(m, r)
    ensures SkipValue(m.gap + MemberValue(m, r)) == SkipValue(MemberValue(m, r))
    ensures SkipGap(SkipValue(MemberValue(m, r))) == SkipGap(if Scalar(m.value) then SkipScalar(m.after + MemberEnd(m, r))
                                                             else m.after + MemberEnd(m, r))
    decreases m, 0
  {
    hide NodeText, Gap, Quiet, SkipGap, SkipValue;
    GapTo(m.middle, ":" + (m.gap + MemberValue(m, r)));
    GapPassed(m.gap, MemberValue(m, r));
    ValueStarts(m.value, m.after + MemberEnd(m, r));
    SameGap(m.gap + MemberValue(m, r), MemberValue(m, r));
    ValuePassed(m.value, m.after + MemberEnd(m, r));
  }

  lemma {:induction false} MembersPassed(m: Members, r: string)
    requires m.Member? && CommentedMembers(m)
    ensures SkipMembers(MembersText(m, r)) == r
    decreases m, 1
  {
    hide NodeText, Gap, Quiet, SkipGap, SkipValue, MembersText, GlyphsText, MemberRest, MemberValue;
    var x := MemberEnd(m, r);
    MemberStarts(m, r);
    GlyphsPassed(m.key, MemberRest(m, r));
    ColonThen(m, r);
    AfterValue(m.value, m.after, x);
    assert x[1..] == if m.more.NoMembers? then r else MembersText(m.more, r);
    var y := ":" + (m.gap + MemberValue(m, r));
    assert y[1..] == m.gap + MemberValue(m, r);
    if m.more.Member? {
      MembersPassed(m.more, r);
    }
  }

  // ---------- Finding a member ----------

  // The first member written with a key.
  function Named(m: Members, key: string): Option<Node>
    decreases m
  {
    if m.NoMembers? then None
    else if Written(m.key) == key then Some(m.value)
    else Named(m.more, key)
  }

  // The text from its value on.
  function NamedText(m: Members, key: string, r: string): string
    requires Named(m, key).Some?
    decreases m
  {
    if Written(m.key) == key then MemberValue(m, r) else NamedText(m.more, key, r)
  }

  lemma {:induction false} MembersFound(m: Members, key: string, r: string)
    requires m.Member? && CommentedMembers(m)
    ensures FindFrom(MembersText(m, r), key) ==
            if Named(m, key).Some? then Some(NamedText(m, key, r)) else None
    decreases m
  {
    hide NodeText, Gap, Quiet, SkipGap, SkipValue, MembersText, GlyphsText, MemberRest, MemberValue, KeyEnd, Written;
    var x := MemberEnd(m, r);
    var start := GlyphsText(m.key, MemberRest(m, r));
    MemberStarts(m, r);
    assert ("\"" + start)[1..] == start;
    GlyphsPassed(m.key, MemberRest(m, r));
    KeyTaken(m.key, MemberRest(m, r));
    ColonThen(m, r);
    AfterValue(m.value, m.after, x);
    var y := ":" + (m.gap + MemberValue(m, r));
    assert y[1..] == m.gap + MemberValue(m, r);
    assert ("\"" + MemberRest(m, r))[1..] == MemberRest(m, r);
    if m.more.Member? {
      assert x[1..] == MembersText(m.more, r);
      MembersFound(m.more, key, r);
    }
  }

  lemma KeyTaken(gs: seq<Glyph>, r: string)
    ensures var start := GlyphsText(gs, r);
            |start| > |r| && start[..|start| - (1 + |r|)] == Written(gs)
  {
  }

  // The lookup in an object finds its first member of that name, in any value else nothing.
  lemma MemberIsNamed(w: string, n: Node, key: string, r: string)
    requires Gap(w) && Commented(n)
    ensures FindMember(w + NodeText(n, r), key) ==
            if n.Object? && Named(n.members, key).Some? then Some(NamedText(n.members, key, r)) else None
  {
    hide Gap, SkipGap, MembersText, FindFrom, NamedText, Named;
    GapPassed(w, NodeText(n, r));
    ValueStarts(n, r);
    if n.Object? {
      var t := if n.members.NoMembers? then n.inner + ("}" + r) else MembersText(n.members, r);
      assert NodeText(n, r)[1..] == t;
      if n.members.NoMembers? {
        NothingNamed(n.inner, key, r);
      } else {
        MembersFound(n.members, key, r);
      }
    }
  }

  lemma NothingNamed(inner: string, key: string, r: string)
    requires Gap(inner)
    ensures FindFrom(inner + ("}" + r), key).None? && Named(NoMembers, key).None?
  {
    GapTo(inner, "}" + r);
  }

  // ---------- Delimiters in comments ----------

  lemma {:induction false} NoNulInFill(fs: seq<Filler>)
    requires AllFillers(fs)
    ensures '\0' !in Fill(fs)
    decreases |fs|
  {
    if fs != [] {
      NoNulInFill(fs[1..]);
      assert '\0' !in fs[0].Text();
    }
  }

  lemma {:induction false} StopsInside(w: string, x: string)
    requires '\0' !in w && exists i :: 0 <= i < |w| && !IsPlain(w[i])
    ensures |SkipScalar(w + x)| > |x| && SkipGap(SkipScalar(w + x)) == SkipScalar(w + x)
    decreases |w|
  {
    var t := w + x;
    if IsPlain(w[0]) {
      var i :| 0 <= i < |w| && !IsPlain(w[i]);
      assert w[1..][i - 1] == w[i] && t[1..] == w[1..] + x;
      StopsInside(w[1..], x);
    } else {
      assert SkipScalar(t) == t;
      NoGap(t);
    }
  }

  // From a number or a word the lenient reader comes to the delimiter behind the gap exactly when no comment in the gap
  // has a delimiter.
  lemma ScalarGapExactly(n: Node, w: string, x: string)
    requires Commented(n) && Scalar(n) && Gap(w) && (Peek(x) == ',' || Peek(x) == '}' || Peek(x) == ']')
    ensures SkipGap(SkipValue(NodeText(n, w + x))) == x <==> Quiet(w)
  {
    hide SkipGap, SkipScalar, SkipValue, NodeText;
    ValuePassed(n, w + x);
    if Quiet(w) {
      AfterValue(n, w, x);
    } else {
      var fs :| AllFillers(fs) && w == Fill(fs);
      NoNulInFill(fs);
      StopsInside(w, x);
    }
  }
}
