// The documents the parser accepts, as written out by their author: token by token, conditions on either side of a value.
module KeyValuesGrammar {
  import opened Options
  import opened KeyValues
  import opened KeyValuesTokens
  import opened KeyValuesRoundTrip
  import opened Substrings

  // An entry with the condition before its value, after it, or both: one before it counts unless it is empty.
  datatype Item =
    | Value(key: string, before: Option<string>, value: string, after: Option<string>)
    | Block(key: string, before: Option<string>, children: seq<Item>, after: Option<string>)
  {
    // The condition of an entry.
    function Condition(): string {
      if after.Some? then after.value else if before.Some? then before.value else ""
    }

    // A condition after the value is only read where there was none before it.
    predicate Placed() {
      after.Some? ==> before.None? || before.value == ""
    }
  }

  function ConditionTokens(c: Option<string>): seq<Token> {
    if c.None? then [] else [Token(Condition, c.value)]
  }

  const OPEN: Token := Token(Open, "")
  const CLOSE: Token := Token(Close, "")

  function ItemTokens(i: Item): seq<Token>
    decreases i, 1
  {
    [Token(Kind.Text, i.key)] + ConditionTokens(i.before) + BodyTokens(i) + ConditionTokens(i.after)
  }

  function BodyTokens(i: Item): seq<Token>
    decreases i, 0
  {
    if i.Value? then [Token(Kind.Text, i.value)] else [OPEN] + (ListTokens(i.children) + [CLOSE])
  }

  function ListTokens(items: seq<Item>): seq<Token>
    decreases items, 0
  {
    if items == [] then [] else ItemTokens(items[0]) + ListTokens(items[1..])
  }

  // Every condition is where it is read, and blocks are nested within `depth` more levels.
  ghost predicate ValidItem(i: Item, depth: nat)
    decreases i, 1
  {
    i.Placed() && (i.Block? ==> depth > 0 && ValidList(i.children, depth - 1))
  }

  ghost predicate ValidList(items: seq<Item>, depth: nat)
    decreases items, 0
  {
    items != [] ==> ValidItem(items[0], depth) && ValidList(items[1..], depth)
  }

  function ItemMeaning(i: Item): KeyValue
    decreases i, 1
  {
    if i.Value? then KeyValue(i.key, i.value, i.Condition(), [], false)
    else KeyValue(i.key, "", i.Condition(), Meaning(i.children), true)
  }

  // The list the items stand for.
  function Meaning(items: seq<Item>): seq<KeyValue>
    decreases items, 0
  {
    if items == [] then [] else [ItemMeaning(items[0])] + Meaning(items[1..])
  }

  // ---------- Reading token by token ----------

  // The next token is the first of those left.
  lemma NextOf(t: string, p: nat)
    requires p <= |t|
    ensures TokensFrom(t, p) == [] <==> NextToken(t, p).0.kind == End
    ensures TokensFrom(t, p) != [] ==>
              NextToken(t, p).0 == TokensFrom(t, p)[0] && TokensFrom(t, NextToken(t, p).1) == TokensFrom(t, p)[1..]
  {
    hide NextToken;
  }

  lemma EndStays(t: string, p: nat)
    requires p <= |t| && NextToken(t, p).0.kind == End
    ensures TokensFrom(t, NextToken(t, p).1) == []
  {
  }

  // What is left after an entry, up to the end of its list.
  function Ending(depth: nat, rest: seq<Token>): seq<Token> {
    if depth == 0 then [] else [CLOSE] + rest
  }

  // No entry and no end of a list starts with a condition.
  lemma NoConditionNext(items: seq<Item>, depth: nat, rest: seq<Token>)
    ensures var ts := ListTokens(items) + Ending(depth, rest); ts == [] || ts[0].kind != Kind.Condition
  {
    hide BodyTokens;
  }

  lemma {:induction false} BlockSound(t: string, p: nat, depth: nat) returns (items: seq<Item>)
    requires p <= |t| && ParseBlock(t, p, depth).Parsed?
    ensures depth <= MAX_DEPTH && ValidList(items, MAX_DEPTH - depth) && Meaning(items) == ParseBlock(t, p, depth).entries
    ensures var q := ParseBlock(t, p, depth).pos;
            && TokensFrom(t, p) == ListTokens(items) + Ending(depth, TokensFrom(t, q)) && (depth == 0 ==> TokensFrom(t, q) == [])
    decreases |t| - p, 1
  {
    hide NextToken, ParseEntry;
    NextOf(t, p);
    var (key, p1) := NextToken(t, p);
    items := [];
    if key.kind == Kind.Text {
      var entry := ParseEntry(t, p1, key.text, depth);
      var item := EntrySound(t, p1, key.text, depth);
      var more := BlockSound(t, entry.pos, depth);
      items := [item] + more;
      JoinList(key, item, more, depth, TokensFrom(t, ParseBlock(t, p, depth).pos), TokensFrom(t, p1), TokensFrom(t, p));
    } else if key.kind == End {
      EndStays(t, p);
    } else {
      PlainClose(t, p);
    }
  }

  // Braces carry no text.
  lemma PlainClose(t: string, p: nat)
    requires p <= |t|
    ensures NextToken(t, p).0.kind == Close ==> NextToken(t, p).0 == CLOSE
    ensures NextToken(t, p).0.kind == Open ==> NextToken(t, p).0 == OPEN
  {
  }

  lemma ListTokensMore(item: Item, more: seq<Item>)
    ensures ListTokens([item] + more) == ItemTokens(item) + ListTokens(more)
  {
    assert ([item] + more)[1..] == more;
    hide ItemTokens;
  }

  lemma KeyFirst(item: Item)
    ensures ItemTokens(item) == [Token(Kind.Text, item.key)] + ItemTokens(item)[1..]
  {
    hide BodyTokens, ConditionTokens;
    assert ItemTokens(item)[0] == Token(Kind.Text, item.key);
  }

  lemma {:induction false} JoinList(key: Token, item: Item, more: seq<Item>, depth: nat, rest: seq<Token>, after: seq<Token>, all: seq<Token>)
    requires key == Token(Kind.Text, item.key) && all != [] && all[0] == key && all[1..] == after
    requires after == ItemTokens(item)[1..] + (ListTokens(more) + Ending(depth, rest))
    ensures all == ListTokens([item] + more) + Ending(depth, rest)
  {
    hide ItemTokens, ListTokens, Ending;
    ListTokensMore(item, more);
    KeyFirst(item);
    assert all == [key] + after;
  }

  function TextOf(c: Option<string>): string {
    if c.Some? then c.value else ""
  }

  // The entry from its value or its brace on.
  function BodyFrom(t: string, p: nat, key: string, condition: string, depth: nat): ParsedEntry
    requires p <= |t|
  {
    var (next, q) := NextToken(t, p);
    if next.kind == Open then
      match ParseBlock(t, q, depth + 1)
      case Failed(e) => EntryFailed(e)
      case Parsed(r, children) => Trailing(t, r, KeyValue(key, "", condition, children, true))
    else if next.kind == Kind.Text then
      Trailing(t, q, KeyValue(key, next.text, condition, [], false))
    else EntryFailed(NoValue)
  }

  // The condition before it, if there is one.
  lemma HeadRead(t: string, p: nat, key: string, depth: nat) returns (before: Option<string>, at: nat)
    requires p <= |t|
    ensures p <= at <= |t| && TokensFrom(t, p) == ConditionTokens(before) + TokensFrom(t, at)
    ensures before.Some? <==> TokensFrom(t, p) != [] && TokensFrom(t, p)[0].kind == Kind.Condition
    ensures ParseEntry(t, p, key, depth) == BodyFrom(t, at, key, TextOf(before), depth)
  {
    hide NextToken, ParseBlock, TokensFrom, Trailing;
    NextOf(t, p);
    var (first, q) := NextToken(t, p);
    before, at := None, p;
    if first.kind == Kind.Condition {
      before, at := Some(first.text), q;
      assert TokensFrom(t, p) == [first] + TokensFrom(t, q);
    }
  }

  lemma BlockTokens(item: Item, all: seq<Token>, inner: seq<Token>, behind: seq<Token>)
    requires item.Block? && all != [] && all[0] == OPEN && all[1..] == inner
    requires inner == ListTokens(item.children) + ([CLOSE] + behind)
    ensures all == BodyTokens(item) + behind
  {
    hide ListTokens;
    assert all == [OPEN] + inner;
  }

  lemma ValueTokens(item: Item, all: seq<Token>, behind: seq<Token>)
    requires item.Value? && all != [] && all[0] == Token(Kind.Text, item.value) && all[1..] == behind
    ensures all == BodyTokens(item) + behind
  {
    assert all == [all[0]] + behind;
  }

  // The entry whose key has been read.
  lemma {:induction false} EntrySound(t: string, p: nat, key: string, depth: nat) returns (item: Item)
    requires p <= |t| && depth <= MAX_DEPTH && ParseEntry(t, p, key, depth).ParsedEntry?
    ensures item.key == key && ValidItem(item, MAX_DEPTH - depth) && ItemMeaning(item) == ParseEntry(t, p, key, depth).entry
    ensures TokensFrom(t, p) == ItemTokens(item)[1..] + TokensFrom(t, ParseEntry(t, p, key, depth).pos)
    decreases |t| - p, 0
  {
    hide NextToken, ParseBlock, ParseEntry, TokensFrom, Trailing, Meaning, ItemTokens, BodyTokens, ListTokens;
    var before, at := HeadRead(t, p, key, depth);
    var rest := ParseEntryRest(t, p, key, depth);
    NextOf(t, at);
    var (next, p2) := NextToken(t, at);
    if next.kind == Open {
      PlainClose(t, at);
      var children := BlockSound(t, p2, depth + 1);
      var q := ParseBlock(t, p2, depth + 1).pos;
      var after := TrailingSound(t, q, KeyValue(key, "", TextOf(before), Meaning(children), true));
      item := Block(key, before, children, after);
      BlockTokens(item, TokensFrom(t, at), TokensFrom(t, p2), TokensFrom(t, q));
      JoinItem(item, TokensFrom(t, p), TokensFrom(t, q), rest);
    } else {
      var after := TrailingSound(t, p2, KeyValue(key, next.text, TextOf(before), [], false));
      item := Value(key, before, next.text, after);
      ValueTokens(item, TokensFrom(t, at), TokensFrom(t, p2));
      JoinItem(item, TokensFrom(t, p), TokensFrom(t, p2), rest);
    }
  }

  function ParseEntryRest(t: string, p: nat, key: string, depth: nat): seq<Token>
    requires p <= |t| && ParseEntry(t, p, key, depth).ParsedEntry?
  {
    TokensFrom(t, ParseEntry(t, p, key, depth).pos)
  }

  // What is read is the condition before, the body and the condition after.
  lemma {:induction false} JoinItem(item: Item, all: seq<Token>, behind: seq<Token>, rest: seq<Token>)
    requires all == ConditionTokens(item.before) + BodyTokens(item) + behind && behind == ConditionTokens(item.after) + rest
    ensures all == ItemTokens(item)[1..] + rest
  {
    hide BodyTokens;
  }

  lemma TrailingSound(t: string, p: nat, entry: KeyValue) returns (after: Option<string>)
    requires p <= |t|
    ensures after.Some? ==> entry.condition == ""
    ensures var r := Trailing(t, p, entry);
            && r.entry == entry.(condition := if after.Some? then after.value else entry.condition)
            && TokensFrom(t, p) == ConditionTokens(after) + TokensFrom(t, r.pos)
  {
    hide NextToken;
    NextOf(t, p);
    var (trailing, q) := NextToken(t, p);
    after := if entry.condition == "" && trailing.kind == Kind.Condition then Some(trailing.text) else None;
  }

  // ---------- Every document is read ----------

  lemma {:induction false} BlockComplete(t: string, p: nat, items: seq<Item>, depth: nat, rest: seq<Token>)
    requires p <= |t| && depth <= MAX_DEPTH && ValidList(items, MAX_DEPTH - depth)
    requires TokensFrom(t, p) == ListTokens(items) + Ending(depth, rest)
    ensures var r := ParseBlock(t, p, depth);
            && r.Parsed? && r.entries == Meaning(items)
            && TokensFrom(t, r.pos) == if depth == 0 then [] else rest
    decreases items, 2
  {
    hide NextToken, ParseEntry, BodyTokens, TokensFrom;
    NextOf(t, p);
    if items == [] {
      if depth == 0 {
        EndStays(t, p);
      }
    } else {
      var item, more := items[0], items[1..];
      var later := ListTokens(more) + Ending(depth, rest);
      FirstItem(items, depth, rest);
      var (key, p1) := NextToken(t, p);
      EntryComplete(t, p1, item, depth, later, more, rest);
      BlockComplete(t, ParseEntry(t, p1, item.key, depth).pos, more, depth, rest);
    }
  }

  lemma {:induction false} Regroup(a: seq<Token>, b: seq<Token>, c: seq<Token>)
    requires a != []
    ensures var all := a + b + c; all != [] && all[0] == a[0] && all[1..] == a[1..] + (b + c)
  {
  }

  lemma {:induction false} FirstItem(items: seq<Item>, depth: nat, rest: seq<Token>)
    requires items != []
    ensures var all := ListTokens(items) + Ending(depth, rest);
            && all != [] && all[0] == Token(Kind.Text, items[0].key)
            && all[1..] == ItemTokens(items[0])[1..] + (ListTokens(items[1..]) + Ending(depth, rest))
  {
    var i := ItemTokens(items[0]);
    assert i[0] == Token(Kind.Text, items[0].key) && ListTokens(items) == i + ListTokens(items[1..]);
    hide *;
    Regroup(i, ListTokens(items[1..]), Ending(depth, rest));
  }

  lemma SameCondition(b: Option<string>, x: seq<Token>, c: Option<string>, y: seq<Token>)
    requires ConditionTokens(b) + x == ConditionTokens(c) + y && y != [] && y[0].kind != Kind.Condition
    requires b.Some? <==> (ConditionTokens(b) + x)[0].kind == Kind.Condition
    ensures b == c && x == y
  {
    var all := ConditionTokens(b) + x;
    assert b.None? ==> all == x;
    assert c.None? ==> all == y;
    assert b.Some? ==> all[0] == Token(Condition, b.value) && all[1..] == x;
    assert c.Some? ==> all[0] == Token(Condition, c.value) && all[1..] == y;
  }

  lemma {:induction false} EntryComplete(t: string, p: nat, item: Item, depth: nat, later: seq<Token>, more: seq<Item>, rest: seq<Token>)
    requires p <= |t| && depth <= MAX_DEPTH && ValidItem(item, MAX_DEPTH - depth)
    requires later == ListTokens(more) + Ending(depth, rest) && TokensFrom(t, p) == ItemTokens(item)[1..] + later
    ensures var r := ParseEntry(t, p, item.key, depth);
            r.ParsedEntry? && r.entry == ItemMeaning(item) && TokensFrom(t, r.pos) == later
    decreases item, 1
  {
    hide NextToken, ParseBlock, ParseEntry, TokensFrom, BodyTokens, ItemTokens, ListTokens, Trailing, Meaning;
    var behind := ConditionTokens(item.after) + later;
    SplitItem(item, later);
    BodyFirst(item);
    var before, at := HeadRead(t, p, item.key, depth);
    NoConditionNext(more, depth, rest);
    SameCondition(before, TokensFrom(t, at), item.before, BodyTokens(item) + behind);
    assert before == item.before && TokensFrom(t, at) == BodyTokens(item) + behind;
    NextOf(t, at);
    var p2 := NextToken(t, at).1;
    if item.Block? {
      BlockBody(item, behind);
      BlockComplete(t, p2, item.children, depth + 1, behind);
      TrailingComplete(t, ParseBlock(t, p2, depth + 1).pos, KeyValue(item.key, "", TextOf(before), Meaning(item.children), true), item, later);
    } else {
      ValueBody(item, behind);
      TrailingComplete(t, p2, KeyValue(item.key, item.value, TextOf(before), [], false), item, later);
    }
  }

  lemma {:induction false} SplitItem(item: Item, later: seq<Token>)
    ensures ItemTokens(item)[1..] + later == ConditionTokens(item.before) + (BodyTokens(item) + (ConditionTokens(item.after) + later))
  {
    hide BodyTokens;
  }

  lemma BodyFirst(item: Item)
    ensures BodyTokens(item) != [] && BodyTokens(item)[0] == if item.Block? then OPEN else Token(Kind.Text, item.value)
  {
  }

  lemma BlockBody(item: Item, behind: seq<Token>)
    requires item.Block?
    ensures (BodyTokens(item) + behind)[1..] == ListTokens(item.children) + ([CLOSE] + behind)
  {
  }

  lemma ValueBody(item: Item, behind: seq<Token>)
    requires item.Value?
    ensures (BodyTokens(item) + behind)[1..] == behind
  {
  }

  lemma TrailingComplete(t: string, p: nat, entry: KeyValue, item: Item, later: seq<Token>)
    requires p <= |t| && TokensFrom(t, p) == ConditionTokens(item.after) + later && item.Placed()
    requires later == [] || later[0].kind != Kind.Condition
    requires entry.condition == if item.before.Some? then item.before.value else ""
    ensures var r := Trailing(t, p, entry);
            r.entry == entry.(condition := item.Condition()) && TokensFrom(t, r.pos) == later
  {
    hide NextToken, TokensFrom;
    NextOf(t, p);
  }

  // ---------- Exactly the documents ----------

  // A text is parsed to a list exactly when it writes, token by token and with any blanks and comments between them, a
  // document that stands for that list, nested at most 32 levels deep.
  lemma ParsedExactly(t: string, entries: seq<KeyValue>)
    ensures (Parse(t).Parsed? && Parse(t).entries == entries) <==>
            exists items :: Spells(t, 0, ListTokens(items)) && ValidList(items, 32) && Meaning(items) == entries
  {
    hide ParseBlock, ListTokens, ValidList, Meaning, TokensFrom, Spells;
    if Parse(t).Parsed? && Parse(t).entries == entries {
      var items := BlockSound(t, 0, 0);
      assert ListTokens(items) + Ending(0, []) == ListTokens(items);
      TokensExactly(t, 0, ListTokens(items));
    }
    forall items | Spells(t, 0, ListTokens(items)) && ValidList(items, 32) && Meaning(items) == entries
      ensures Parse(t).Parsed? && Parse(t).entries == entries
    {
      TokensExactly(t, 0, ListTokens(items));
      assert ListTokens(items) + Ending(0, []) == ListTokens(items);
      BlockComplete(t, 0, items, 0, []);
    }
  }

  // ---------- The same tokens, the same outcome ----------

  // The same list with the same tokens left, or the same error.
  ghost predicate SameOutcome(t: string, a: Parsed, u: string, b: Parsed) {
    match (a, b)
    case (Parsed(p, es), Parsed(q, fs)) => p <= |t| && q <= |u| && es == fs && TokensFrom(t, p) == TokensFrom(u, q)
    case (Failed(e), Failed(f)) => e == f
    case _ => false
  }

  ghost predicate SameEntry(t: string, a: ParsedEntry, u: string, b: ParsedEntry) {
    match (a, b)
    case (ParsedEntry(p, e), ParsedEntry(q, f)) => p <= |t| && q <= |u| && e == f && TokensFrom(t, p) == TokensFrom(u, q)
    case (EntryFailed(e), EntryFailed(f)) => e == f
    case _ => false
  }

  lemma {:induction false} SameBlock(t: string, p: nat, u: string, q: nat, depth: nat)
    requires p <= |t| && q <= |u| && TokensFrom(t, p) == TokensFrom(u, q)
    ensures SameOutcome(t, ParseBlock(t, p, depth), u, ParseBlock(u, q, depth))
    decreases |t| - p, 1
  {
    hide NextToken, ParseEntry, TokensFrom;
    NextOf(t, p);
    NextOf(u, q);
    var (key, p1) := NextToken(t, p);
    var (other, q1) := NextToken(u, q);
    if TokensFrom(t, p) == [] {
      EndStays(t, p);
      EndStays(u, q);
    } else if key.kind == Kind.Text && depth <= MAX_DEPTH {
      SameEntries(t, p1, u, q1, key.text, depth);
      var a, b := ParseEntry(t, p1, key.text, depth), ParseEntry(u, q1, key.text, depth);
      if a.ParsedEntry? {
        SameBlock(t, a.pos, u, b.pos, depth);
      }
    }
  }

  lemma {:induction false} SameEntries(t: string, p: nat, u: string, q: nat, key: string, depth: nat)
    requires p <= |t| && q <= |u| && TokensFrom(t, p) == TokensFrom(u, q)
    ensures SameEntry(t, ParseEntry(t, p, key, depth), u, ParseEntry(u, q, key, depth))
    decreases |t| - p, 0
  {
    hide NextToken, ParseBlock, TokensFrom, Trailing;
    NextOf(t, p);
    NextOf(u, q);
    var (first, p1) := NextToken(t, p);
    var (other, q1) := NextToken(u, q);
    if TokensFrom(t, p) != [] {
      NextOf(t, p1);
      NextOf(u, q1);
      var condition := if first.kind == Kind.Condition then first.text else "";
      var (next, p2) := if first.kind == Kind.Condition then NextToken(t, p1) else (first, p1);
      var (same, q2) := if first.kind == Kind.Condition then NextToken(u, q1) else (other, q1);
      if next.kind == Open {
        SameBlock(t, p2, u, q2, depth + 1);
        var a, b := ParseBlock(t, p2, depth + 1), ParseBlock(u, q2, depth + 1);
        if a.Parsed? {
          SameTrailing(t, a.pos, u, b.pos, KeyValue(key, "", condition, a.entries, true));
        }
      } else if next.kind == Kind.Text {
        SameTrailing(t, p2, u, q2, KeyValue(key, next.text, condition, [], false));
      }
    }
  }

  lemma SameTrailing(t: string, p: nat, u: string, q: nat, entry: KeyValue)
    requires p <= |t| && q <= |u| && TokensFrom(t, p) == TokensFrom(u, q)
    ensures SameEntry(t, Trailing(t, p, entry), u, Trailing(u, q, entry))
  {
    hide NextToken, TokensFrom;
    NextOf(t, p);
    NextOf(u, q);
  }

  // ---------- Comments and blanks anywhere ----------

  // The position behind the next k tokens.
  function Behind(t: string, p: nat, k: nat): (q: nat)
    requires p <= |t| && k <= |TokensFrom(t, p)|
    ensures p <= q <= |t|
    decreases k
  {
    if k == 0 then p else Behind(t, NextToken(t, p).1, k - 1)
  }

  lemma EndShift(t: string, p: nat, u: string, q: nat, fs: seq<Filler>, last: string)
    requires p <= |t| && q <= |u| && t[p..] == u[q..] && WritesEnd(t, p, fs, last)
    ensures WritesEnd(u, q, fs, last)
  {
    hide Fill, Fillers, LastNote, At;
    AtShift(t, p, u, q, 0, Fill(fs));
    AtShift(t, p, u, q, |Fill(fs)|, last);
  }

  lemma FirstShift(t: string, p: nat, u: string, q: nat, fs: seq<Filler>, w: string, token: Token)
    requires p <= |t| && q <= |u| && t[p..] == u[q..] && WritesFirst(t, p, fs, w, token)
    ensures WritesFirst(u, q, fs, w, token)
  {
    hide Fill, Fillers, Writes, At;
    AtShift(t, p, u, q, 0, Fill(fs));
    AtShift(t, p, u, q, |Fill(fs)|, w);
  }

  // Nothing is read but what is left of the text.
  lemma {:induction false} SpellsShift(t: string, p: nat, u: string, q: nat, tokens: seq<Token>)
    requires p <= |t| && q <= |u| && t[p..] == u[q..] && Spells(t, p, tokens)
    ensures Spells(u, q, tokens)
    decreases |tokens|
  {
    hide Fill, WritesFirst, WritesEnd;
    if tokens == [] {
      var fs, last :| WritesEnd(t, p, fs, last);
      EndShift(t, p, u, q, fs, last);
    } else {
      var fs, w :| WritesFirst(t, p, fs, w, tokens[0])
                   && p + |Fill(fs)| + |w| <= |t| && Spells(t, p + |Fill(fs)| + |w|, tokens[1..]);
      FirstShift(t, p, u, q, fs, w, tokens[0]);
      SuffixShift(t, p, u, q, |Fill(fs)| + |w|);
      SpellsShift(t, p + |Fill(fs)| + |w|, u, q + |Fill(fs)| + |w|, tokens[1..]);
      SpellsFirst(u, q, fs, w, tokens);
    }
  }

  lemma SuffixShift(t: string, p: nat, u: string, q: nat, d: nat)
    requires p + d <= |t| && q <= |u| && t[p..] == u[q..]
    ensures q + d <= |u| && t[p + d..] == u[q + d..]
  {
    assert t[p..][d..] == t[p + d..] && u[q..][d..] == u[q + d..];
  }

  lemma AtShift(t: string, p: nat, u: string, q: nat, d: nat, s: string)
    requires p <= |t| && q <= |u| && t[p..] == u[q..] && At(t, p + d, s)
    ensures At(u, q + d, s) && Peek(u, q + d + |s|) == Peek(t, p + d + |s|)
  {
    assert t[p..][d..d + |s|] == t[p + d..p + d + |s|] && u[q..][d..d + |s|] == u[q + d..q + d + |s|];
    assert p + d + |s| < |t| ==> t[p..][d + |s|] == t[p + d + |s|] && u[q..][d + |s|] == u[q + d + |s|];
  }

  // The text with fillers put in at m.
  function With(t: string, m: nat, fs: seq<Filler>): string
    requires m <= |t|
  {
    t[..m] + Fill(fs) + t[m..]
  }

  lemma WithParts(t: string, m: nat, fs: seq<Filler>)
    requires m <= |t|
    ensures var u := With(t, m, fs);
            && |u| == |t| + |Fill(fs)| && At(u, m, Fill(fs)) && u[m + |Fill(fs)|..] == t[m..]
            && forall i :: 0 <= i < m ==> u[i] == t[i]
  {
    hide Fill;
  }

  // A bare word must not be carried on: after one, a blank comes first.
  ghost predicate MayFill(t: string, p: nat, k: nat, fs: seq<Filler>)
    requires p <= |t| && k <= |TokensFrom(t, p)|
  {
    && Fillers(fs)
    && (fs == [] || k == 0 || fs[0].Blank? || TokensFrom(t, p)[k - 1].kind != Kind.Text
        || (Behind(t, p, k) > 0 && t[Behind(t, p, k) - 1] == '"'))
  }

  lemma MayFillLater(t: string, p: nat, k: nat, fs: seq<Filler>)
    requires p <= |t| && 0 < k <= |TokensFrom(t, p)| && MayFill(t, p, k, fs)
    ensures var q := NextToken(t, p).1;
            && k - 1 <= |TokensFrom(t, q)| && Behind(t, p, k) == Behind(t, q, k - 1) && MayFill(t, q, k - 1, fs)
  {
    NextOf(t, p);
    hide NextToken;
  }

  lemma {:induction false} Inserted(t: string, p: nat, k: nat, fs: seq<Filler>)
    requires p <= |t| && k < |TokensFrom(t, p)| && MayFill(t, p, k, fs)
    ensures Spells(With(t, Behind(t, p, k), fs), p, TokensFrom(t, p))
    decreases k
  {
    hide NextToken, Fill, Fillers, Spells, WritesFirst, With;
    var tokens := TokensFrom(t, p);
    var m := Behind(t, p, k);
    var u := With(t, m, fs);
    WithParts(t, m, fs);
    if k == 0 {
      InsertedHere(t, p, fs, tokens);
    } else {
      NextOf(t, p);
      MayFillLater(t, p, k, fs);
      var q := NextToken(t, p).1;
      Inserted(t, q, k - 1, fs);
      var gs, w := NextSound(t, p);
      InsertedLater(t, p, gs, w, q, k, fs);
      SpellsFirst(u, p, gs, w, tokens);
    }
  }

  lemma SpellsFirst(u: string, p: nat, gs: seq<Filler>, w: string, tokens: seq<Token>)
    requires tokens != [] && p <= |u| && WritesFirst(u, p, gs, w, tokens[0])
    requires p + |Fill(gs)| + |w| <= |u| && Spells(u, p + |Fill(gs)| + |w|, tokens[1..])
    ensures Spells(u, p, tokens)
  {
    hide WritesFirst, Fill;
  }

  // In front of the next token.
  lemma InsertedHere(t: string, p: nat, fs: seq<Filler>, tokens: seq<Token>)
    requires p <= |t| && tokens == TokensFrom(t, p) && Fillers(fs)
    ensures p <= |With(t, p, fs)| && Spells(With(t, p, fs), p, tokens)
  {
    hide Fill, TokensFrom, Spells, Fillers;
    var u := With(t, p, fs);
    WithParts(t, p, fs);
    TokensExactly(t, p, tokens);
    SpellsShift(t, p, u, p + |Fill(fs)|, tokens);
    TokensExactly(u, p + |Fill(fs)|, tokens);
    FillSkipped(u, p, fs);
    SameNext(u, p, p + |Fill(fs)|);
    TokensExactly(u, p, tokens);
  }

  lemma SameNext(u: string, p: nat, q: nat)
    requires p <= q <= |u| && SkipBlank(u, p) == SkipBlank(u, q)
    ensures TokensFrom(u, p) == TokensFrom(u, q)
  {
    hide SkipBlank, TokenAt;
  }

  lemma WritesKept(t: string, p: nat, at: nat, w: string, q: nat, k: nat, fs: seq<Filler>)
    requires p <= at && q == at + |w| <= |t| && 0 < k < |TokensFrom(t, p)| && MayFill(t, p, k, fs)
    requires q == NextToken(t, p).1 && At(t, at, w) && Writes(w, TokensFrom(t, p)[0], Peek(t, q)) && w != ""
    requires p <= q <= Behind(t, p, k) <= |t| && Behind(t, p, k) == Behind(t, q, k - 1) && k - 1 <= |TokensFrom(t, q)|
    requires Peek(t, q) != '\0'
    ensures Writes(w, TokensFrom(t, p)[0], Peek(With(t, Behind(t, p, k), fs), q))
  {
    hide NextToken, Fill, QuoteSafe, OpenQuote, NoBracket, With, At, TokensFrom, BareWord, Fillers;
    var m := Behind(t, p, k);
    var u := With(t, m, fs);
    WithParts(t, m, fs);
    NoFill();
    if q == m && fs != [] && fs[0].Blank? {
      FirstChar(u, m, fs);
    } else if q == m && fs != [] {
      assert k == 1 by {
        LaterBehind(t, q, k - 1);
      }
      WordEnds(t, at, w, TokensFrom(t, p)[0]);
    }
  }

  lemma SomeWritten(w: string, token: Token, next: char)
    requires Writes(w, token, next)
    ensures w != ""
  {
  }

  // A token that another follows is written as before.
  lemma InsertedLater(t: string, p: nat, gs: seq<Filler>, w: string, q: nat, k: nat, fs: seq<Filler>)
    requires p <= |t| && 0 < k < |TokensFrom(t, p)| && MayFill(t, p, k, fs)
    requires WritesFirst(t, p, gs, w, TokensFrom(t, p)[0]) && q == p + |Fill(gs)| + |w| && q == NextToken(t, p).1
    ensures p <= q <= Behind(t, p, k) <= |t| && WritesFirst(With(t, Behind(t, p, k), fs), p, gs, w, TokensFrom(t, p)[0])
  {
    hide NextToken, Fill, Writes, With, MayFill;
    var m := Behind(t, p, k);
    var u := With(t, m, fs);
    WithParts(t, m, fs);
    NextOf(t, p);
    assert m == Behind(t, q, k - 1);
    AtKept(t, u, m, p, Fill(gs));
    AtKept(t, u, m, p + |Fill(gs)|, w);
    NotNul(t, q);
    SomeWritten(w, TokensFrom(t, p)[0], Peek(t, q));
    WritesKept(t, p, p + |Fill(gs)|, w, q, k, fs);
  }

  lemma LaterBehind(t: string, p: nat, k: nat)
    requires p <= |t| && k <= |TokensFrom(t, p)|
    ensures k > 0 ==> Behind(t, p, k) > p
  {
    if k > 0 {
      NextOf(t, p);
    }
  }

  // A text token that ends in a quote is no bare word.
  lemma WordEnds(t: string, p: nat, w: string, token: Token)
    requires At(t, p, w) && Writes(w, token, Peek(t, p + |w|)) && Peek(t, p + |w|) != '\0' && w != ""
    requires token.kind != Kind.Text || t[p + |w| - 1] == '"'
    ensures forall next :: Writes(w, token, next)
  {
    hide QuoteSafe, OpenQuote, NoBracket;
    assert t[p + |w| - 1] == t[p..p + |w|][|w| - 1] == w[|w| - 1];
  }

  lemma AtKept(t: string, u: string, m: nat, p: nat, s: string)
    requires At(t, p, s) && p + |s| <= m <= |t| && m <= |u| && forall i :: 0 <= i < m ==> u[i] == t[i]
    ensures At(u, p, s)
  {
  }

  // Before a token the text has not ended.
  lemma NotNul(t: string, q: nat)
    requires q <= |t| && TokensFrom(t, q) != []
    ensures Peek(t, q) != '\0'
  {
  }

  lemma NoFill()
    ensures Fill([]) == ""
  {
  }

  lemma FirstChar(u: string, m: nat, fs: seq<Filler>)
    requires fs != [] && Fillers(fs) && fs[0].Blank? && At(u, m, Fill(fs))
    ensures Peek(u, m) == fs[0].c && EndsWord(Peek(u, m))
  {
    assert Fill(fs)[0] == fs[0].c;
    assert u[m] == u[m..m + |Fill(fs)|][0];
  }

  // Blanks and comments in front of any token change nothing, neither the list nor the error, but that behind a bare word
  // a blank has to come first.
  lemma FillAnywhere(t: string, k: nat, fs: seq<Filler>)
    requires k < |TokensFrom(t, 0)| && MayFill(t, 0, k, fs)
    ensures var u := With(t, Behind(t, 0, k), fs); SameOutcome(u, Parse(u), t, Parse(t))
  {
    hide TokensFrom, Spells, ParseBlock, Fill;
    var u := With(t, Behind(t, 0, k), fs);
    Inserted(t, 0, k, fs);
    TokensExactly(u, 0, TokensFrom(t, 0));
    SameBlock(u, 0, t, 0, 0);
  }

  // A comment line on top of any text changes nothing.
  lemma LeadingNote(c: string, t: string)
    requires OneLine(c)
    ensures var u := "//" + c + "\n" + t; SameOutcome(u, Parse(u), t, Parse(t))
  {
    hide TokensFrom, Spells, ParseBlock;
    var fs := [Note(c)];
    var u := "//" + c + "\n" + t;
    assert fs[1..] == [];
    assert Fill(fs) == Note(c).Text() + Fill([]) == "//" + c + "\n";
    assert With(t, 0, fs) == u;
    InsertedHere(t, 0, fs, TokensFrom(t, 0));
    TokensExactly(u, 0, TokensFrom(t, 0));
    SameBlock(u, 0, t, 0, 0);
  }

  // A condition may stand before its value or behind it: the list is the same.
  lemma EitherSide(t: string, u: string, items: seq<Item>, i: nat, condition: string)
    requires i < |items| && items[i].before == Some(condition) && items[i].after == None && ValidList(items, MAX_DEPTH)
    requires Spells(t, 0, ListTokens(items)) && Spells(u, 0, ListTokens(items[i := Behinds(items[i])]))
    ensures Parse(t).Parsed? && Parse(u).Parsed? && Parse(t).entries == Parse(u).entries == Meaning(items)
  {
    hide ParseBlock, ListTokens, ValidList, Meaning, Spells;
    MovedBehind(items, i, MAX_DEPTH);
    ParsedExactly(t, Meaning(items));
    ParsedExactly(u, Meaning(items));
  }

  // The item with its condition behind its value.
  function Behinds(item: Item): Item {
    item.(before := None, after := item.before)
  }

  lemma {:induction false} MovedBehind(items: seq<Item>, i: nat, depth: nat)
    requires i < |items| && items[i].after == None && items[i].before.Some? && ValidList(items, depth)
    ensures ValidList(items[i := Behinds(items[i])], depth) && Meaning(items[i := Behinds(items[i])]) == Meaning(items)
    decreases i
  {
    var moved := items[i := Behinds(items[i])];
    if i == 0 {
      assert moved[1..] == items[1..];
    } else {
      assert moved[1..] == items[1..][i - 1 := Behinds(items[1..][i - 1])];
      MovedBehind(items[1..], i - 1, depth);
    }
  }
}
