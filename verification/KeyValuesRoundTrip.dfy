// Parsing serialised KeyValues text gives back exactly the well-formed lists.
module KeyValuesRoundTrip {
  import opened KeyValues
  import opened Substrings

  // No quote is unescaped and no backslash is left without a character to carry.
  predicate QuoteSafe(s: string) {
    s == "" ||
    (s[0] != NUL && s[0] != '"' &&
     if s[0] == '\\' then |s| >= 2 && s[1] != NUL && QuoteSafe(s[2..]) else QuoteSafe(s[1..]))
  }

  predicate BareSafe(s: string) {
    forall i :: 0 <= i < |s| ==> !EndsBare(s[i])
  }

  predicate KeySafe(key: string) {
    if key != "" && key[0] == '#' then BareSafe(key) else QuoteSafe(key)
  }

  predicate ConditionSafe(s: string) {
    forall i :: 0 <= i < |s| ==> s[i] != NUL && s[i] != ']'
  }

  predicate WellFormed(e: KeyValue, depth: nat)
    decreases e, 1
  {
    && KeySafe(e.key) && ConditionSafe(e.condition)
    && if e.isBlock then e.value == "" && WellFormedList(e.children, depth + 1)
       else e.children == [] && QuoteSafe(e.value)
  }

  // A list at nesting level `depth`.
  predicate WellFormedList(list: seq<KeyValue>, depth: nat)
    decreases list, 0
  {
    depth <= MAX_DEPTH && (list == [] || (WellFormed(list[0], depth) && WellFormedList(list[1..], depth)))
  }

  // ---------- Single tokens ----------

  lemma BlankSkips(t: string, p: nat)
    requires p < |t| && IsBlank(t[p])
    ensures NextToken(t, p) == NextToken(t, p + 1)
  {
    hide TokenAt;
  }

  lemma BlankSkipsBlock(t: string, p: nat, depth: nat)
    requires p < |t| && IsBlank(t[p])
    ensures ParseBlock(t, p, depth) == ParseBlock(t, p + 1, depth)
  {
    hide ParseEntry, NextToken;
    BlankSkips(t, p);
  }

  lemma {:induction false} TabsSkip(t: string, p: nat, n: nat)
    requires At(t, p, Tabs(n))
    ensures NextToken(t, p) == NextToken(t, p + n)
    decreases n
  {
    hide NextToken;
    if n > 0 {
      assert t[p] == t[p..p + n][0];
      BlankSkips(t, p);
      assert t[p..p + n][1..] == Tabs(n - 1);
      TabsSkip(t, p + 1, n - 1);
    }
  }

  lemma IndentSkips(t: string, p: nat, n: nat, useIndent: bool)
    requires At(t, p, Indent(n, useIndent))
    ensures NextToken(t, p) == NextToken(t, p + |Indent(n, useIndent)|)
  {
    hide NextToken;
    if useIndent {
      TabsSkip(t, p, n);
    }
  }

  lemma {:induction false} QuotedExact(t: string, p: nat, s: string)
    requires At(t, p, s) && p + |s| < |t| && t[p + |s|] == '"'
    ensures QuoteEnd(t, p) == p + |s| <==> QuoteSafe(s)
    decreases |s|
  {
    if s != "" {
      assert t[p] == t[p..p + |s|][0] && t[p..p + |s|][1..] == t[p + 1..p + |s|];
      if s[0] == NUL || s[0] == '"' {
      } else if s[0] != '\\' {
        QuotedExact(t, p + 1, s[1..]);
      } else if |s| >= 2 {
        assert t[p + 1] == t[p..p + |s|][1] && t[p..p + |s|][2..] == t[p + 2..p + |s|];
        if s[1] != NUL {
          QuotedExact(t, p + 2, s[2..]);
        }
      }
    }
  }

  lemma {:induction false} BareExact(t: string, p: nat, s: string)
    requires At(t, p, s) && EndsBare(Peek(t, p + |s|))
    ensures BareEnd(t, p) == p + |s| <==> BareSafe(s)
    decreases |s|
  {
    if s != "" {
      assert t[p] == t[p..p + |s|][0] && t[p..p + |s|][1..] == t[p + 1..p + |s|];
      if !EndsBare(s[0]) {
        BareExact(t, p + 1, s[1..]);
        assert BareSafe(s) <==> BareSafe(s[1..]) by {
          assert forall i :: 0 < i < |s| ==> s[i] == s[1..][i - 1];
        }
      }
    }
  }

  lemma {:induction false} ConditionExact(t: string, p: nat, s: string)
    requires At(t, p, s) && Peek(t, p + |s|) == ']'
    ensures ConditionSafe(s) ==> ConditionEnd(t, p) == p + |s|
    decreases |s|
  {
    if s != "" && ConditionSafe(s) {
      assert t[p] == t[p..p + |s|][0] && t[p..p + |s|][1..] == t[p + 1..p + |s|];
      ConditionExact(t, p + 1, s[1..]);
    }
  }

  // A slice that starts with s equals it just when it ends where s does.
  lemma SliceIs(t: string, p: nat, s: string, e: nat)
    requires At(t, p, s) && p <= e <= |t|
    ensures t[p..e] == s <==> e == p + |s|
  {
  }

  lemma QuoteStarts(t: string, p: nat)
    requires p < |t| && t[p] == '"'
    ensures NextToken(t, p) == (Token(Text, t[p + 1..QuoteEnd(t, p + 1)]), Past(t, QuoteEnd(t, p + 1), '"'))
  {
    hide QuoteEnd, Past;
  }

  lemma QuotedToken(t: string, p: nat, s: string)
    requires At(t, p, Quoted(s))
    ensures NextToken(t, p).0.kind == Text && (NextToken(t, p).0.text == s <==> QuoteSafe(s))
    ensures QuoteSafe(s) ==> NextToken(t, p) == (Token(Text, s), p + |s| + 2)
  {
    hide QuoteSafe, QuoteEnd, NextToken, At;
    AtConcat3(t, p, "\"", s, "\"");
    OneAt(t, p, '"');
    OneAt(t, p + 1 + |s|, '"');
    QuotedExact(t, p + 1, s);
    SliceIs(t, p + 1, s, QuoteEnd(t, p + 1));
    QuoteStarts(t, p);
  }

  lemma DirectiveStarts(t: string, p: nat)
    requires p < |t| && t[p] == '#'
    ensures NextToken(t, p) == (Token(Text, t[p..BareEnd(t, p + 1)]), BareEnd(t, p + 1))
  {
    hide BareEnd;
  }

  lemma DirectiveToken(t: string, p: nat, key: string)
    requires key != "" && key[0] == '#' && At(t, p, key) && IsBlank(Peek(t, p + |key|))
    ensures NextToken(t, p).0.kind == Text && (NextToken(t, p).0.text == key <==> BareSafe(key))
    ensures BareSafe(key) ==> NextToken(t, p) == (Token(Text, key), p + |key|)
  {
    hide BareEnd, NextToken;
    assert [key[0]] + key[1..] == key;
    AtConcat(t, p, [key[0]], key[1..]);
    OneAt(t, p, '#');
    BareExact(t, p + 1, key[1..]);
    assert BareSafe(key) <==> BareSafe(key[1..]) by {
      assert forall i :: 0 < i < |key| ==> key[i] == key[1..][i - 1];
    }
    SliceIs(t, p, key, BareEnd(t, p + 1));
    DirectiveStarts(t, p);
  }

  lemma KeyToken(t: string, p: nat, key: string)
    requires At(t, p, KeyText(key)) && IsBlank(Peek(t, p + |KeyText(key)|))
    ensures NextToken(t, p).0.kind == Text && (NextToken(t, p).0.text == key <==> KeySafe(key))
    ensures KeySafe(key) ==> NextToken(t, p) == (Token(Text, key), p + |KeyText(key)|)
  {
    hide QuoteSafe, BareSafe, NextToken, At;
    if key != "" && key[0] == '#' {
      DirectiveToken(t, p, key);
    } else {
      QuotedToken(t, p, key);
    }
  }

  lemma BracketStarts(t: string, p: nat)
    requires p < |t| && t[p] == '['
    ensures NextToken(t, p) == (Token(Condition, t[p + 1..ConditionEnd(t, p + 1)]), Past(t, ConditionEnd(t, p + 1), ']'))
  {
    hide ConditionEnd, Past;
  }

  lemma ConditionToken(t: string, p: nat, s: string)
    requires s != "" && ConditionSafe(s) && At(t, p, ConditionText(s))
    ensures NextToken(t, p) == (Token(Condition, s), p + |s| + 3)
  {
    hide ConditionSafe, ConditionEnd, NextToken, At;
    AtConcat3(t, p, " [", s, "]");
    assert " [" == " " + "[";
    AtConcat(t, p, " ", "[");
    OneAt(t, p, ' ');
    BlankSkips(t, p);
    OneAt(t, p + 1, '[');
    BracketStarts(t, p + 1);
    OneAt(t, p + 2 + |s|, ']');
    ConditionExact(t, p + 2, s);
    SliceIs(t, p + 2, s, p + 2 + |s|);
  }

  lemma {:induction false} ConditionEndSafe(t: string, p: nat)
    requires p <= |t|
    ensures ConditionSafe(t[p..ConditionEnd(t, p)])
    decreases |t| - p
  {
    if ConditionEnd(t, p) > p {
      ConditionEndSafe(t, p + 1);
      assert t[p..ConditionEnd(t, p)] == [t[p]] + t[p + 1..ConditionEnd(t, p + 1)];
    }
  }

  // No token the scanner reads as a conditional is unsafe to write back.
  lemma ConditionTokensSafe(t: string, p: nat)
    requires p <= |t| && NextToken(t, p).0.kind == Condition
    ensures ConditionSafe(NextToken(t, p).0.text)
  {
    hide ConditionSafe, ConditionEnd;
    ConditionEndSafe(t, SkipBlank(t, p) + 1);
  }

  lemma PunctuationToken(t: string, p: nat)
    requires p < |t|
    ensures t[p] == '{' ==> NextToken(t, p) == (Token(Open, ""), p + 1)
    ensures t[p] == '}' ==> NextToken(t, p) == (Token(Close, ""), p + 1)
  {
  }

  // ---------- Entries ----------

  // The text at p is not a conditional, so an entry that ends there has no more to take.
  ghost predicate NoTrailing(t: string, p: nat) {
    p <= |t| && NextToken(t, p).0.kind != Condition
  }

  lemma NewlineSkips(t: string, p: nat)
    requires At(t, p, "\n")
    ensures NextToken(t, p) == NextToken(t, p + 1)
    ensures forall depth :: ParseBlock(t, p, depth) == ParseBlock(t, p + 1, depth)
  {
    hide NextToken, ParseBlock;
    OneAt(t, p, '\n');
    BlankSkips(t, p);
    forall depth
      ensures ParseBlock(t, p, depth) == ParseBlock(t, p + 1, depth)
    {
      BlankSkipsBlock(t, p, depth);
    }
  }

  // Where the parts of an entry's text stand.
  lemma EntryParts(t: string, p: nat, e: KeyValue, indent: nat, useIndent: bool) returns (k: nat, v: nat)
    requires At(t, p, EntryText(e, indent, useIndent))
    ensures k == p + |Indent(indent, useIndent)| && v == k + |KeyText(e.key)|
    ensures NextToken(t, p) == NextToken(t, k) && At(t, k, KeyText(e.key)) && IsBlank(Peek(t, v))
    ensures e.isBlock ==> At(t, v, BodyText(e, indent, useIndent))
    ensures !e.isBlock ==> At(t, v, ValueText(e))
    ensures p + |EntryText(e, indent, useIndent)| ==
            v + if e.isBlock then |BodyText(e, indent, useIndent)| else |ValueText(e)|
  {
    hide NextToken, KeyText, Indent, At, Quoted;
    k := p + |Indent(indent, useIndent)|;
    v := k + |KeyText(e.key)|;
    var rest := if e.isBlock then BodyText(e, indent, useIndent) else ValueText(e);
    AtConcat3(t, p, Indent(indent, useIndent), KeyText(e.key), rest);
    IndentSkips(t, p, indent, useIndent);
    BlankFollowsKey(t, v, e, rest, indent, useIndent);
  }

  lemma BlankFollowsKey(t: string, v: nat, e: KeyValue, rest: string, indent: nat, useIndent: bool)
    requires At(t, v, rest) && rest == if e.isBlock then BodyText(e, indent, useIndent) else ValueText(e)
    ensures IsBlank(Peek(t, v))
  {
    hide Quoted, Indent, ListText;
    assert rest != "" && IsBlank(rest[0]);
    assert t[v] == t[v..v + |rest|][0];
  }

  // A key starts with a token that is text, whatever the key is.
  lemma KeyIsText(t: string, p: nat, e: KeyValue, indent: nat, useIndent: bool)
    requires At(t, p, EntryText(e, indent, useIndent))
    ensures NextToken(t, p).0.kind == Text
  {
    hide EntryText, NextToken;
    var k, v := EntryParts(t, p, e, indent, useIndent);
    KeyToken(t, k, e.key);
  }

  lemma ListStart(t: string, p: nat, list: seq<KeyValue>, indent: nat, useIndent: bool)
    requires At(t, p, ListText(list, indent, useIndent))
    requires list == [] ==> NoTrailing(t, p)
    ensures NoTrailing(t, p)
  {
    hide EntryText, NextToken;
    if list != [] {
      AtConcat(t, p, EntryText(list[0], indent, useIndent), ListText(list[1..], indent, useIndent));
      KeyIsText(t, p, list[0], indent, useIndent);
    }
  }

  // The value entry's text after its key, read back.
  lemma ValueExact(t: string, p: nat, e: KeyValue, depth: nat)
    requires !e.isBlock && e.children == [] && QuoteSafe(e.value) && ConditionSafe(e.condition)
    requires At(t, p, ValueText(e)) && NoTrailing(t, p + |ValueText(e)|)
    ensures ParseEntry(t, p, e.key, depth) == ParsedEntry(p + |ValueText(e)| - 1, e)
    ensures At(t, p + |ValueText(e)| - 1, "\n")
  {
    hide NextToken, Quoted, QuoteSafe, ConditionSafe, At, ParseBlock;
    var v, c := Quoted(e.value), ConditionText(e.condition);
    AtConcat(t, p, " " + v + c, "\n");
    AtConcat3(t, p, " ", v, c);
    OneAt(t, p, ' ');
    BlankSkips(t, p);
    QuotedToken(t, p + 1, e.value);
    QuotedLength(e.value);
    var q := p + 1 + |v|;
    if e.condition == "" {
      NewlineSkips(t, q);
    } else {
      ConditionToken(t, q, e.condition);
    }
  }

  lemma QuotedLength(s: string)
    ensures |Quoted(s)| == |s| + 2
  {
  }

  // Where a block entry's braces and children stand: the opening brace token ends at `inner`, the
  // children's text starts one further, and the closing brace token ends just before the last newline.
  lemma BodyParts(t: string, p: nat, e: KeyValue, indent: nat, useIndent: bool) returns (open: nat, list: nat, close: nat)
    requires At(t, p, BodyText(e, indent, useIndent))
    ensures p <= open == p + |ConditionText(e.condition)| && At(t, p, ConditionText(e.condition))
    ensures open < list <= |t| && NextToken(t, open) == (Token(Open, ""), list - 1)
    ensures At(t, list - 1, "\n") && At(t, list, ListText(e.children, indent + 1, useIndent))
    ensures close == list + |ListText(e.children, indent + 1, useIndent)|
    ensures close <= |t| && NextToken(t, close) == (Token(Close, ""), p + |BodyText(e, indent, useIndent)| - 1)
    ensures list < p + |BodyText(e, indent, useIndent)| - 1
    ensures At(t, p + |BodyText(e, indent, useIndent)| - 1, "\n")
  {
    hide NextToken, Indent, At, ListText, ConditionText;
    var c, i, l := ConditionText(e.condition), Indent(indent, useIndent), ListText(e.children, indent + 1, useIndent);
    open := p + |c|;
    list := open + 1 + |i| + 2;
    close := list + |l|;
    AtConcat(t, p, c + "\n" + i + "{\n" + l + i, "}\n");
    AtConcat(t, p, c + "\n" + i + "{\n" + l, i);
    AtConcat(t, p, c + "\n" + i + "{\n", l);
    AtConcat(t, p, c + "\n" + i, "{\n");
    AtConcat3(t, p, c, "\n", i);
    AtConcat(t, open + 1 + |i|, "{", "\n");
    AtConcat(t, close + |i|, "}", "\n");
    assert "{\n" == "{" + "\n" && "}\n" == "}" + "\n";
    NewlineSkips(t, open);
    IndentSkips(t, open + 1, indent, useIndent);
    OneAt(t, open + 1 + |i|, '{');
    PunctuationToken(t, open + 1 + |i|);
    IndentSkips(t, close, indent, useIndent);
    OneAt(t, close + |i|, '}');
    PunctuationToken(t, close + |i|);
  }

  // Reading a block entry comes down to reading its children.
  lemma BlockStep(t: string, p: nat, e: KeyValue, depth: nat, open: nat, inner: nat)
    requires ConditionSafe(e.condition) && At(t, p, ConditionText(e.condition))
    requires open == p + |ConditionText(e.condition)| && NextToken(t, open) == (Token(Open, ""), inner)
    requires inner <= |t|
    ensures ParseEntry(t, p, e.key, depth) ==
            match ParseBlock(t, inner, depth + 1)
            case Failed(error) => EntryFailed(error)
            case Parsed(q, children) => Trailing(t, q, KeyValue(e.key, "", e.condition, children, true))
  {
    hide NextToken, ConditionSafe, At, ParseBlock, Trailing;
    if e.condition != "" {
      ConditionToken(t, p, e.condition);
    }
  }

  lemma TrailingNone(t: string, q: nat, e: KeyValue)
    requires At(t, q, "\n") && NoTrailing(t, q + 1)
    ensures Trailing(t, q, e) == ParsedEntry(q, e)
  {
    hide NextToken;
    NewlineSkips(t, q);
  }

  // ---------- Lists ----------

  // A well-formed list is read back entry by entry.
  lemma {:induction false} ListExact(t: string, p: nat, list: seq<KeyValue>, depth: nat, indent: nat, useIndent: bool)
    requires WellFormedList(list, depth) && At(t, p, ListText(list, indent, useIndent))
    requires NoTrailing(t, p + |ListText(list, indent, useIndent)|)
    ensures p <= p + |ListText(list, indent, useIndent)| <= |t|
    ensures ParseBlock(t, p, depth) == Prepend(list, ParseBlock(t, p + |ListText(list, indent, useIndent)|, depth))
    decreases list, 0
  {
    hide NextToken, At, EntryText, WellFormed, NoTrailing, ParseEntry;
    var q := p + |ListText(list, indent, useIndent)|;
    AtBound(t, p, ListText(list, indent, useIndent));
    if list == [] {
      PrependNone(ParseBlock(t, q, depth));
    } else {
      hide ParseBlock;
      var e, text := list[0], EntryText(list[0], indent, useIndent);
      AtConcat(t, p, text, ListText(list[1..], indent, useIndent));
      ListStart(t, p + |text|, list[1..], indent, useIndent);
      EntryExact(t, p, e, depth, indent, useIndent);
      ListExact(t, p + |text|, list[1..], depth, indent, useIndent);
      PrependTwice([e], list[1..], ParseBlock(t, q, depth));
      assert [e] + list[1..] == list;
    }
  }

  lemma PrependNone(r: Parsed)
    ensures Prepend([], r) == r
  {
    if r.Parsed? {
      assert [] + r.entries == r.entries;
    }
  }

  // One well-formed entry at the head of a block.
  lemma {:induction false} EntryExact(t: string, p: nat, e: KeyValue, depth: nat, indent: nat, useIndent: bool)
    requires WellFormed(e, depth) && depth <= MAX_DEPTH
    requires At(t, p, EntryText(e, indent, useIndent)) && NoTrailing(t, p + |EntryText(e, indent, useIndent)|)
    ensures p + |EntryText(e, indent, useIndent)| <= |t|
    ensures ParseBlock(t, p, depth) == Prepend([e], ParseBlock(t, p + |EntryText(e, indent, useIndent)|, depth))
    decreases e, 1
  {
    hide NextToken, At, EntryText, BodyText, ValueText, KeySafe, QuoteSafe, ConditionSafe, WellFormedList, NoTrailing, ParseEntry;
    var k, v := EntryParts(t, p, e, indent, useIndent);
    var end := p + |EntryText(e, indent, useIndent)|;
    KeyToken(t, k, e.key);
    if e.isBlock {
      BlockExact(t, v, e, depth, indent, useIndent);
    } else {
      ValueExact(t, v, e, depth);
    }
    AtBound(t, end - 1, "\n");
    NewlineSkips(t, end - 1);
  }

  lemma {:induction false} BlockExact(t: string, p: nat, e: KeyValue, depth: nat, indent: nat, useIndent: bool)
    requires e.isBlock && e.value == "" && ConditionSafe(e.condition) && WellFormedList(e.children, depth + 1)
    requires At(t, p, BodyText(e, indent, useIndent)) && NoTrailing(t, p + |BodyText(e, indent, useIndent)|)
    ensures ParseEntry(t, p, e.key, depth) == ParsedEntry(p + |BodyText(e, indent, useIndent)| - 1, e)
    ensures At(t, p + |BodyText(e, indent, useIndent)| - 1, "\n")
    decreases e, 0
  {
    hide NextToken, At, BodyText, ConditionSafe, ParseEntry, Trailing, ListText;
    var end := p + |BodyText(e, indent, useIndent)|;
    var open, list, close := BodyParts(t, p, e, indent, useIndent);
    BlockStep(t, p, e, depth, open, list - 1);
    NewlineSkips(t, list - 1);
    ListExact(t, list, e.children, depth + 1, indent + 1, useIndent);
    CloseBlock(t, close, depth + 1, end - 1);
    assert e.children + [] == e.children;
    TrailingNone(t, end - 1, e);
  }

  lemma CloseBlock(t: string, p: nat, depth: nat, q: nat)
    requires 1 <= depth <= MAX_DEPTH && p <= |t| && NextToken(t, p) == (Token(Close, ""), q)
    ensures ParseBlock(t, p, depth) == Parsed(q, [])
  {
    hide NextToken;
  }

  // ---------- Back again ----------

  // What a successful read of an entry's text says about its parts.
  lemma EntryFields(t: string, p: nat, key: string, depth: nat)
    requires p <= |t| && ParseEntry(t, p, key, depth).ParsedEntry?
    ensures var e := ParseEntry(t, p, key, depth).entry;
            && e.key == key && ConditionSafe(e.condition)
            && (if e.isBlock then e.value == "" else e.children == [])
    ensures NextToken(t, p).0.kind == Text ==>
      !ParseEntry(t, p, key, depth).entry.isBlock && ParseEntry(t, p, key, depth).entry.value == NextToken(t, p).0.text
  {
    hide NextToken, ParseBlock;
    forall q: nat | q <= |t| && NextToken(t, q).0.kind == Condition
      ensures ConditionSafe(NextToken(t, q).0.text)
    {
      ConditionTokensSafe(t, q);
    }
  }

  // A list that is read back from its own text is well formed.
  lemma {:induction false} ListBack(t: string, p: nat, list: seq<KeyValue>, depth: nat, indent: nat, useIndent: bool)
    requires At(t, p, ListText(list, indent, useIndent)) && p <= |t|
    requires ParseBlock(t, p, depth).Parsed? && list <= ParseBlock(t, p, depth).entries
    ensures WellFormedList(list, depth)
    decreases list, 0
  {
    hide NextToken, At, EntryText, WellFormed, NoTrailing, ParseEntry, ParseBlock;
    DepthBound(t, p, depth);
    if list != [] {
      var e, text, rest := list[0], EntryText(list[0], indent, useIndent), list[1..];
      AtConcat(t, p, text, ListText(rest, indent, useIndent));
      EntryBack(t, p, e, depth, indent, useIndent);
      if rest != [] {
        ListStart(t, p + |text|, rest, indent, useIndent);
        EntryExact(t, p, e, depth, indent, useIndent);
        var r := ParseBlock(t, p + |text|, depth);
        assert ([e] + r.entries)[1..] == r.entries;
        assert rest <= r.entries;
        ListBack(t, p + |text|, rest, depth, indent, useIndent);
      }
    }
  }

  lemma DepthBound(t: string, p: nat, depth: nat)
    requires p <= |t| && ParseBlock(t, p, depth).Parsed?
    ensures depth <= MAX_DEPTH
  {
  }

  // The first entry of a successful read, as the reader got it.
  lemma FirstEntry(t: string, p: nat, depth: nat)
    requires p <= |t| && ParseBlock(t, p, depth).Parsed? && NextToken(t, p).0.kind == Text
    ensures var (key, k) := NextToken(t, p);
            var r := ParseEntry(t, k, key.text, depth);
            r.ParsedEntry? && |ParseBlock(t, p, depth).entries| >= 1 && ParseBlock(t, p, depth).entries[0] == r.entry
  {
    hide NextToken, ParseEntry;
  }

  lemma {:induction false} EntryBack(t: string, p: nat, e: KeyValue, depth: nat, indent: nat, useIndent: bool)
    requires At(t, p, EntryText(e, indent, useIndent)) && p <= |t|
    requires ParseBlock(t, p, depth).Parsed?
    requires |ParseBlock(t, p, depth).entries| >= 1 && ParseBlock(t, p, depth).entries[0] == e
    ensures WellFormed(e, depth)
    decreases e, 1
  {
    hide NextToken, At, EntryText, BodyText, ValueText, KeySafe, QuoteSafe, ConditionSafe, WellFormedList, ParseEntry, ParseBlock;
    var k, v := EntryParts(t, p, e, indent, useIndent);
    KeyToken(t, k, e.key);
    FirstEntry(t, p, depth);
    var (key, k') := NextToken(t, p);
    EntryFields(t, k', key.text, depth);
    assert k' == v;
    if e.isBlock {
      BlockBack(t, v, e, depth, indent, useIndent);
    } else {
      ValueStarts(t, v, e);
      QuotedToken(t, v + 1, e.value);
    }
  }

  lemma ValueStarts(t: string, p: nat, e: KeyValue)
    requires At(t, p, ValueText(e))
    ensures At(t, p + 1, Quoted(e.value)) && NextToken(t, p) == NextToken(t, p + 1)
  {
    hide NextToken, Quoted, At, ConditionText;
    AtConcat(t, p, " " + Quoted(e.value) + ConditionText(e.condition), "\n");
    AtConcat3(t, p, " ", Quoted(e.value), ConditionText(e.condition));
    OneAt(t, p, ' ');
    BlankSkips(t, p);
  }

  lemma {:induction false} BlockBack(t: string, p: nat, e: KeyValue, depth: nat, indent: nat, useIndent: bool)
    requires e.isBlock && ConditionSafe(e.condition) && At(t, p, BodyText(e, indent, useIndent)) && p <= |t|
    requires ParseEntry(t, p, e.key, depth).ParsedEntry? && ParseEntry(t, p, e.key, depth).entry == e
    ensures WellFormedList(e.children, depth + 1)
    decreases e, 0
  {
    hide NextToken, At, BodyText, ConditionSafe, ParseEntry, ParseBlock, ListText;
    var open, list, close := BodyParts(t, p, e, indent, useIndent);
    BlockStep(t, p, e, depth, open, list - 1);
    NewlineSkips(t, list - 1);
    ListBack(t, list, e.children, depth + 1, indent + 1, useIndent);
  }

  // Serialising and parsing returns the list exactly when it is well formed, indented or not.
  lemma RoundTrip(list: seq<KeyValue>, useIndent: bool)
    ensures (var r := Parse(ListText(list, 0, useIndent)); r.Parsed? && r.entries == list) <==> WellFormedList(list, 0)
  {
    hide NextToken, ListText, WellFormedList, ParseBlock;
    var t := ListText(list, 0, useIndent);
    assert At(t, 0, t);
    EndOfText(t);
    if WellFormedList(list, 0) {
      ListExact(t, 0, list, 0, 0, useIndent);
      assert list + [] == list;
    }
    if Parse(t).Parsed? && Parse(t).entries == list {
      ListBack(t, 0, list, 0, 0, useIndent);
    }
  }

  lemma EndOfText(t: string)
    ensures NoTrailing(t, |t|) && ParseBlock(t, |t|, 0) == Parsed(|t|, [])
  {
  }
}
