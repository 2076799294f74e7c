// Valve KeyValues text: the scanner, the parser and the serialiser.
module KeyValues {
  const MAX_DEPTH: nat := 32
  const NUL: char := '\0'

  // `value` is meaningful when !isBlock, `children` when isBlock; `condition` is a platform conditional
  // without its brackets.
  datatype KeyValue = KeyValue(key: string, value: string, condition: string, children: seq<KeyValue>, isBlock: bool)

  datatype Kind = End | Open | Close | Text | Condition
  datatype Token = Token(kind: Kind, text: string)

  datatype Error = TooDeep | UnexpectedClose | UnexpectedOpen | StrayCondition | NoValue | Unbalanced
  datatype Parsed = Parsed(pos: nat, entries: seq<KeyValue>) | Failed(error: Error)
  datatype ParsedEntry = ParsedEntry(pos: nat, entry: KeyValue) | EntryFailed(error: Error)

  // ---------- Scanning ----------

  // The character at p of a NUL-terminated text.
  function Peek(t: string, p: nat): char {
    if p < |t| then t[p] else NUL
  }

  predicate IsBlank(c: char) {
    c == ' ' || c == '\t' || c == '\r' || c == '\n'
  }

  predicate EndsBare(c: char) {
    c == NUL || IsBlank(c) || c == '{' || c == '}' || c == '"' || c == '['
  }

  function LineEnd(t: string, p: nat): (q: nat)
    requires p <= |t|
    ensures p <= q <= |t|
    decreases |t| - p
  {
    if Peek(t, p) == NUL || Peek(t, p) == '\n' then p else LineEnd(t, p + 1)
  }

  // Past blanks and line comments.
  function SkipBlank(t: string, p: nat): (q: nat)
    requires p <= |t|
    ensures p <= q <= |t| && !IsBlank(Peek(t, q))
    decreases |t| - p
  {
    if IsBlank(Peek(t, p)) then SkipBlank(t, p + 1)
    else if Peek(t, p) == '/' && Peek(t, p + 1) == '/' then SkipBlank(t, LineEnd(t, p + 1))
    else p
  }

  function ConditionEnd(t: string, p: nat): (q: nat)
    requires p <= |t|
    ensures p <= q <= |t|
    decreases |t| - p
  {
    if Peek(t, p) == NUL || Peek(t, p) == ']' then p else ConditionEnd(t, p + 1)
  }

  // The closing quote, or the end of the text; a backslash carries the next character along.
  function QuoteEnd(t: string, p: nat): (q: nat)
    requires p <= |t|
    ensures p <= q <= |t|
    decreases |t| - p
  {
    if Peek(t, p) == NUL || Peek(t, p) == '"' then p
    else if Peek(t, p) == '\\' && Peek(t, p + 1) != NUL then QuoteEnd(t, p + 2)
    else QuoteEnd(t, p + 1)
  }

  function BareEnd(t: string, p: nat): (q: nat)
    requires p <= |t|
    ensures p <= q <= |t|
    decreases |t| - p
  {
    if EndsBare(Peek(t, p)) then p else BareEnd(t, p + 1)
  }

  // Past the terminating character c, if it is there.
  function Past(t: string, p: nat, c: char): (q: nat)
    requires p <= |t| && c != NUL
    ensures p <= q <= |t|
  {
    if Peek(t, p) == c then p + 1 else p
  }

  function TokenAt(t: string, p: nat): (r: (Token, nat))
    requires p <= |t| && !IsBlank(Peek(t, p))
    ensures p <= r.1 <= |t|
    ensures r.0.kind != End ==> p < r.1
  {
    var c := Peek(t, p);
    if c == NUL then (Token(End, []), p)
    else if c == '{' then (Token(Open, []), p + 1)
    else if c == '}' then (Token(Close, []), p + 1)
    else if c == '[' then
      var e := ConditionEnd(t, p + 1);
      (Token(Condition, t[p + 1..e]), Past(t, e, ']'))
    else if c == '"' then
      var e := QuoteEnd(t, p + 1);
      (Token(Text, t[p + 1..e]), Past(t, e, '"'))
    else
      (Token(Text, t[p..BareEnd(t, p + 1)]), BareEnd(t, p + 1))
  }

  // The next token and the position after it.
  function NextToken(t: string, p: nat): (r: (Token, nat))
    requires p <= |t|
    ensures p <= r.1 <= |t|
    ensures r.0.kind != End ==> p < r.1
  {
    TokenAt(t, SkipBlank(t, p))
  }

  // ---------- Parsing ----------

  // The entry whose key token has just been read.
  function ParseEntry(t: string, p: nat, key: string, depth: nat): (r: ParsedEntry)
    requires p <= |t|
    ensures r.ParsedEntry? ==> p < r.pos <= |t|
    decreases |t| - p, 0
  {
    var (first, p1) := NextToken(t, p);
    var condition := if first.kind == Condition then first.text else "";
    var (next, p2) := if first.kind == Condition then NextToken(t, p1) else (first, p1);
    if next.kind == Open then
      match ParseBlock(t, p2, depth + 1)
      case Failed(e) => EntryFailed(e)
      case Parsed(q, children) => Trailing(t, q, KeyValue(key, "", condition, children, true))
    else if next.kind == Text then
      Trailing(t, p2, KeyValue(key, next.text, condition, [], false))
    else EntryFailed(NoValue)
  }

  // A conditional may follow the value when none came before it.
  function Trailing(t: string, p: nat, entry: KeyValue): (r: ParsedEntry)
    requires p <= |t|
    ensures r.ParsedEntry? && p <= r.pos <= |t|
  {
    var (trailing, q) := NextToken(t, p);
    if entry.condition == "" && trailing.kind == Condition then
      ParsedEntry(q, entry.(condition := trailing.text))
    else ParsedEntry(p, entry)
  }

  // The entries up to the end of the block, or of the text at depth 0.
  function ParseBlock(t: string, p: nat, depth: nat): (r: Parsed)
    requires p <= |t|
    ensures r.Parsed? ==> p <= r.pos <= |t|
    decreases |t| - p, 1
  {
    if depth > MAX_DEPTH then Failed(TooDeep) else
    var (key, p1) := NextToken(t, p);
    match key.kind
    case End => if depth == 0 then Parsed(p1, []) else Failed(Unbalanced)
    case Close => if depth == 0 then Failed(UnexpectedClose) else Parsed(p1, [])
    case Open => Failed(UnexpectedOpen)
    case Condition => Failed(StrayCondition)
    case Text =>
      match ParseEntry(t, p1, key.text, depth)
      case EntryFailed(e) => Failed(e)
      case ParsedEntry(q, entry) => Prepend([entry], ParseBlock(t, q, depth))
  }

  function Prepend(entries: seq<KeyValue>, r: Parsed): Parsed {
    match r
    case Failed(e) => Failed(e)
    case Parsed(pos, rest) => Parsed(pos, entries + rest)
  }

  function Parse(t: string): Parsed {
    ParseBlock(t, 0, 0)
  }

  // ---------- Serialising ----------

  function Tabs(n: nat): (s: string)
    ensures |s| == n
  {
    seq(n, _ => '\t')
  }

  function Indent(n: nat, useIndent: bool): string {
    if useIndent then Tabs(n) else ""
  }

  function Quoted(s: string): string {
    "\"" + s + "\""
  }

  // A directive such as #base is written bare, anything else in quotes.
  function KeyText(key: string): string {
    if key != "" && key[0] == '#' then key else Quoted(key)
  }

  function ConditionText(condition: string): string {
    if condition == "" then "" else " [" + condition + "]"
  }

  function EntryText(e: KeyValue, indent: nat, useIndent: bool): string
    decreases e, 1
  {
    Indent(indent, useIndent) + KeyText(e.key) +
    if e.isBlock then BodyText(e, indent, useIndent)
    else ValueText(e)
  }

  function ValueText(e: KeyValue): string {
    " " + Quoted(e.value) + ConditionText(e.condition) + "\n"
  }

  function BodyText(e: KeyValue, indent: nat, useIndent: bool): string
    decreases e, 0
  {
    ConditionText(e.condition) + "\n" + Indent(indent, useIndent) + "{\n" +
    ListText(e.children, indent + 1, useIndent) + Indent(indent, useIndent) + "}\n"
  }

  function ListText(list: seq<KeyValue>, indent: nat, useIndent: bool): string
    decreases list, 0
  {
    if list == [] then "" else EntryText(list[0], indent, useIndent) + ListText(list[1..], indent, useIndent)
  }

  // ---------- The code ----------

  // The scanner as it runs: one character at a time, copying what belongs to the token.
  method ScanToken(t: string, start: nat) returns (token: Token, p: nat)
    requires start <= |t|
    ensures (token, p) == NextToken(t, start)
  {
    p := SkipBlanks(t, start);
    var c := Peek(t, p);
    var text;
    if c == NUL {
      return Token(End, []), p;
    }
    if c == '{' {
      return Token(Open, []), p + 1;
    }
    if c == '}' {
      return Token(Close, []), p + 1;
    }
    if c == '[' {
      text, p := ScanCondition(t, p + 1);
      return Token(Condition, text), if Peek(t, p) == ']' then p + 1 else p;
    }
    if c == '"' {
      text, p := ScanQuoted(t, p + 1);
      return Token(Text, text), if Peek(t, p) == '"' then p + 1 else p;
    }
    text, p := ScanBare(t, p);
    return Token(Text, text), p;
  }

  method ScanCondition(t: string, from: nat) returns (text: string, p: nat)
    requires from <= |t|
    ensures p == ConditionEnd(t, from) && text == t[from..p]
  {
    text, p := "", from;
    while Peek(t, p) != NUL && Peek(t, p) != ']'
      invariant from <= p <= |t| && text == t[from..p] && ConditionEnd(t, p) == ConditionEnd(t, from)
      decreases |t| - p
    {
      text := text + [t[p]];
      p := p + 1;
    }
  }

  method ScanQuoted(t: string, from: nat) returns (text: string, p: nat)
    requires from <= |t|
    ensures p == QuoteEnd(t, from) && text == t[from..p]
  {
    text, p := "", from;
    while Peek(t, p) != NUL && Peek(t, p) != '"'
      invariant from <= p <= |t| && text == t[from..p] && QuoteEnd(t, p) == QuoteEnd(t, from)
      decreases |t| - p
    {
      if Peek(t, p) == '\\' && Peek(t, p + 1) != NUL {
        text := text + [t[p]];
        text := text + [t[p + 1]];
        p := p + 2;
        continue;
      }
      text := text + [t[p]];
      p := p + 1;
    }
  }

  method ScanBare(t: string, from: nat) returns (text: string, p: nat)
    requires from < |t| && !EndsBare(t[from])
    ensures p == BareEnd(t, from + 1) && text == t[from..p]
  {
    text, p := "", from;
    while !EndsBare(Peek(t, p))
      invariant from <= p <= |t| && text == t[from..p] && BareEnd(t, p) == BareEnd(t, from)
      decreases |t| - p
    {
      text := text + [t[p]];
      p := p + 1;
    }
  }

  method SkipBlanks(t: string, start: nat) returns (p: nat)
    requires start <= |t|
    ensures p == SkipBlank(t, start)
  {
    p := start;
    while true
      invariant start <= p <= |t| && SkipBlank(t, p) == SkipBlank(t, start)
      decreases |t| - p
    {
      while IsBlank(Peek(t, p))
        invariant start <= p <= |t| && SkipBlank(t, p) == SkipBlank(t, start)
        decreases |t| - p
      {
        p := p + 1;
      }
      if Peek(t, p) == '/' && Peek(t, p + 1) == '/' {
        ghost var from := p;
        p := p + 1;
        while Peek(t, p) != NUL && Peek(t, p) != '\n'
          invariant from + 1 <= p <= |t| && LineEnd(t, p) == LineEnd(t, from + 1)
          decreases |t| - p
        {
          p := p + 1;
        }
        continue;
      }
      break;
    }
  }

  class Parser {
    const text: string
    var p: nat

    constructor (text: string)
      ensures this.text == text && p == 0
    {
      this.text := text;
      p := 0;
    }

    // Reads entries up to the end of the block; on failure the position is not meaningful.
    method Block(depth: nat) returns (ok: bool, out: seq<KeyValue>, error: Error)
      requires p <= |text|
      modifies this
      ensures match ParseBlock(text, old(p), depth)
              case Parsed(pos, entries) => ok && p == pos && out == entries
              case Failed(e) => !ok && error == e
      decreases |text| - p, 1
    {
      out, error := [], Unbalanced;
      if depth > MAX_DEPTH {
        return false, out, TooDeep;
      }
      ghost var expected := ParseBlock(text, p, depth);
      while true
        invariant old(p) <= p <= |text| && expected == Prepend(out, ParseBlock(text, p, depth))
        decreases |text| - p
      {
        var key, afterKey := ScanToken(text, p);
        if key.kind == End {
          p := afterKey;
          return depth == 0, out, Unbalanced;
        }
        if key.kind == Close {
          p := afterKey;
          return depth > 0, out, UnexpectedClose;
        }
        if key.kind == Open {
          return false, out, UnexpectedOpen;
        }
        if key.kind == Condition {
          return false, out, StrayCondition;
        }
        ghost var before, rest := out, p;
        p := afterKey;
        var entry;
        ok, entry, error := Entry(key.text, depth);
        if !ok {
          return;
        }
        out := out + [entry];
        PrependTwice(before, [entry], ParseBlock(text, p, depth));
      }
    }

    method Entry(key: string, depth: nat) returns (ok: bool, entry: KeyValue, error: Error)
      requires p <= |text|
      modifies this
      ensures match ParseEntry(text, old(p), key, depth)
              case ParsedEntry(pos, e) => ok && p == pos && entry == e
              case EntryFailed(e) => !ok && error == e
      decreases |text| - p, 0
    {
      error := NoValue;
      entry := KeyValue(key, "", "", [], false);
      var next, afterNext := ScanToken(text, p);
      if next.kind == Condition {
        entry := entry.(condition := next.text);
        p := afterNext;
        next, afterNext := ScanToken(text, p);
      }
      if next.kind == Open {
        p := afterNext;
        var children;
        ok, children, error := Block(depth + 1);
        if !ok {
          return;
        }
        entry := entry.(isBlock := true, children := children);
      } else if next.kind == Text {
        p := afterNext;
        entry := entry.(value := next.text);
      } else {
        return false, entry, NoValue;
      }
      if entry.condition == "" {
        var trailing, afterTrailing := ScanToken(text, p);
        if trailing.kind == Condition {
          entry := entry.(condition := trailing.text);
          p := afterTrailing;
        }
      }
      ok := true;
    }
  }

  lemma PrependTwice(a: seq<KeyValue>, b: seq<KeyValue>, r: Parsed)
    ensures Prepend(a, Prepend(b, r)) == Prepend(a + b, r)
  {
    if r.Parsed? {
      assert a + (b + r.entries) == (a + b) + r.entries;
    }
  }

  method ParseKeyValues(t: string) returns (ok: bool, out: seq<KeyValue>, error: Error)
    ensures match Parse(t)
            case Parsed(_, entries) => ok && out == entries
            case Failed(e) => !ok && error == e
  {
    var parser := new Parser(t);
    ok, out, error := parser.Block(0);
  }

  lemma ConcatAssociates(a: string, b: string, c: string)
    ensures (a + b) + c == a + (b + c)
  {
  }

  // Appends the text of the list to `out`.
  method SerialiseList(list: seq<KeyValue>, out: string, indent: nat, useIndent: bool) returns (r: string)
    ensures r == out + ListText(list, indent, useIndent)
    decreases list, 0
  {
    hide EntryText;
    r := out;
    ghost var done := "";
    var i := 0;
    while i < |list|
      invariant 0 <= i <= |list|
      invariant r == out + done && done + ListText(list[i..], indent, useIndent) == ListText(list, indent, useIndent)
    {
      ghost var text := EntryText(list[i], indent, useIndent);
      r := SerialiseEntry(list[i], r, indent, useIndent);
      assert list[i..][0] == list[i] && list[i..][1..] == list[i + 1..];
      ConcatAssociates(out, done, text);
      ConcatAssociates(done, text, ListText(list[i + 1..], indent, useIndent));
      done := done + text;
      i := i + 1;
    }
    assert list[i..] == [];
    assert done + "" == done;
  }

  method SerialiseEntry(e: KeyValue, out: string, indent: nat, useIndent: bool) returns (r: string)
    ensures r == out + EntryText(e, indent, useIndent)
    decreases e, 1
  {
    hide Tabs, Quoted, ListText, BodyText;
    var head := out;
    if useIndent {
      head := head + Tabs(indent);
    }
    if e.key != "" && e.key[0] == '#' {
      head := head + e.key;
    } else {
      head := head + Quoted(e.key);
    }
    assert head == out + (Indent(indent, useIndent) + KeyText(e.key));
    if e.isBlock {
      r := SerialiseBody(e, head, indent, useIndent);
      ConcatAssociates(out, Indent(indent, useIndent) + KeyText(e.key), BodyText(e, indent, useIndent));
    } else {
      r := SerialiseValue(e, head);
      ConcatAssociates(out, Indent(indent, useIndent) + KeyText(e.key), ValueText(e));
    }
  }

  method SerialiseValue(e: KeyValue, head: string) returns (r: string)
    ensures r == head + ValueText(e)
  {
    hide Quoted;
    r := head + " ";
    r := r + Quoted(e.value);
    if e.condition != "" {
      r := r + (" [" + e.condition + "]");
    }
    r := r + "\n";
  }

  method SerialiseBody(e: KeyValue, head: string, indent: nat, useIndent: bool) returns (r: string)
    ensures r == head + BodyText(e, indent, useIndent)
    decreases e, 0
  {
    hide Tabs, ListText;
    r := head;
    if e.condition != "" {
      r := r + (" [" + e.condition + "]");
    }
    r := r + "\n";
    if useIndent {
      r := r + Tabs(indent);
    }
    r := r + "{\n";
    assert r == head + (ConditionText(e.condition) + "\n" + Indent(indent, useIndent) + "{\n");
    r := SerialiseList(e.children, r, indent + 1, useIndent);
    if useIndent {
      r := r + Tabs(indent);
    }
    r := r + "}\n";
  }

  method Serialise(list: seq<KeyValue>, useIndent: bool) returns (r: string)
    ensures r == ListText(list, 0, useIndent)
  {
    r := SerialiseList(list, "", 0, useIndent);
  }
}
