// An object's text, member by member.
module JsonFields {
  import opened Options
  import opened JsonText
  import opened JsonAgree
  import opened JsonStable

  // A member as it is written: white space around its name, its colon and its value kept.
  datatype Field = Field(before: string, key: string, middle: string, gap: string, value: string, after: string)

  predicate Blank(w: string) {
    SkipWs(w) == []
  }

  function Quoted(key: string): string {
    "\"" + key + "\""
  }

  predicate ValidField(f: Field, depth: nat) {
    && Blank(f.before) && Blank(f.middle) && Blank(f.gap) && Blank(f.after)
    && ReadString(Quoted(f.key)) == Some("")
    && f.value != [] && !IsWs(f.value[0]) && ParseValue(f.value, depth) == Some("")
  }

  ghost predicate ValidFields(fs: seq<Field>, depth: nat) {
    forall i :: 0 <= i < |fs| ==> ValidField(fs[i], depth)
  }

  // The text from the value on.
  function ValueOn(f: Field, x: string): string {
    f.value + (f.after + x)
  }

  function FieldText(f: Field, x: string): string {
    f.before + (Quoted(f.key) + (f.middle + (":" + (f.gap + ValueOn(f, x)))))
  }

  // What follows the first member.
  function Tail(fs: seq<Field>, r: string): string
    requires fs != []
    decreases |fs|, 0
  {
    if |fs| == 1 then "}" + r else "," + Closing(fs[1..], r)
  }

  // Members up to the closing brace, then r.
  function Closing(fs: seq<Field>, r: string): string
    requires fs != []
    decreases |fs|, 1
  {
    FieldText(fs[0], Tail(fs, r))
  }

  function Inside(fs: seq<Field>, ws: string, r: string): string {
    if fs == [] then ws + ("}" + r) else Closing(fs, r)
  }

  // An object; ws is the white space of one without members.
  function Doc(pre: string, fs: seq<Field>, ws: string, r: string): string {
    pre + ("{" + Inside(fs, ws, r))
  }

  // ---------- Reading a member back ----------

  lemma BlankThrough(w: string, x: string)
    requires Blank(w)
    ensures SkipWs(w + x) == SkipWs(x)
  {
    WsThrough(w, x);
  }

  lemma NotBlank(x: string)
    requires x != [] && !IsWs(x[0])
    ensures SkipWs(x) == x
  {
  }

  lemma QuotedReads(key: string, x: string)
    requires ReadString(Quoted(key)) == Some("")
    ensures ReadString(Quoted(key) + x) == Some(x)
  {
    hide ReadString, Quoted;
    StringStable(Quoted(key), x);
    assert "" + x == x;
  }

  lemma FieldReads(f: Field, depth: nat, x: string)
    requires ValidField(f, depth)
    ensures ReadName(FieldText(f, x)) == Some(f.gap + ValueOn(f, x))
    ensures EntryOf(FieldText(f, x)) == Entry(f.key, ValueOn(f, x))
  {
    hide ReadString, ParseValue, SkipWs, ValueOn;
    var rest := f.middle + (":" + (f.gap + ValueOn(f, x)));
    var name := Quoted(f.key) + rest;
    BlankThrough(f.before, name);
    NotBlank(name);
    QuotedReads(f.key, rest);
    BlankThrough(f.middle, ":" + (f.gap + ValueOn(f, x)));
    NotBlank(":" + (f.gap + ValueOn(f, x)));
    assert (":" + (f.gap + ValueOn(f, x)))[1..] == f.gap + ValueOn(f, x);
    assert name[1..|name| - |rest| - 1] == f.key;
    BlankThrough(f.gap, ValueOn(f, x));
    ValueOnStarts(f, depth, x);
    assert SkipWs(FieldText(f, x)) == name && ReadString(name).value == rest;
    assert RawName(FieldText(f, x)) == f.key;
  }

  lemma ValueOnStarts(f: Field, depth: nat, x: string)
    requires ValidField(f, depth)
    ensures SkipWs(ValueOn(f, x)) == ValueOn(f, x) && ValueOn(f, x) != [] && ValueOn(f, x)[0] == f.value[0]
  {
    NotBlank(ValueOn(f, x));
  }

  lemma {:induction false} BlankCloses(w: string, x: string)
    requires Blank(w) && Closes(x)
    ensures Closes(w + x)
  {
    if w == [] {
      assert w + x == x;
    }
  }

  lemma ValueReads(f: Field, depth: nat, x: string)
    requires ValidField(f, depth) && Closes(x)
    ensures ParseValue(ValueOn(f, x), depth) == Some(f.after + x)
    ensures ParseValue(f.gap + ValueOn(f, x), depth) == Some(f.after + x)
    ensures SkipWs(f.after + x) == SkipWs(x)
  {
    hide ReadString;
    BlankCloses(f.after, x);
    ValueStable(f.value, depth, f.after + x);
    assert "" + (f.after + x) == f.after + x;
    BlankThrough(f.gap, ValueOn(f, x));
    ValueOnStarts(f, depth, x);
    BlankThrough(f.after, x);
    hide ParseMembers, ParseItems, ReadScalar, SkipWs;
  }

  lemma TailStarts(fs: seq<Field>, r: string)
    requires fs != []
    ensures var x := Tail(fs, r);
            && Closes(x) && SkipWs(x) == x && x != []
            && (if |fs| == 1 then x[0] == '}' && x[1..] == r else x[0] == ',' && x[1..] == Closing(fs[1..], r))
  {
    hide FieldText;
    NotBlank(Tail(fs, r));
  }

  // The members' text parses, and its entries are the members.
  lemma {:induction false} ClosingParses(fs: seq<Field>, depth: nat, r: string)
    requires fs != [] && ValidFields(fs, depth + 1)
    ensures ParseMembers(Closing(fs, r), depth) == Some(r)
    decreases |fs|
  {
    hide SkipWs, ReadName, ParseValue, FieldText, ValidField, EntryOf, ValueOn;
    var f, x := fs[0], Tail(fs, r);
    TailStarts(fs, r);
    FieldReads(f, depth + 1, x);
    ValueReads(f, depth + 1, x);
    if |fs| > 1 {
      ClosingParses(fs[1..], depth, r);
    }
  }

  // The entries of the members' text.
  function EntriesOf(fs: seq<Field>, r: string): seq<Entry>
    decreases |fs|
  {
    if fs == [] then [] else [Entry(fs[0].key, ValueOn(fs[0], Tail(fs, r)))] + EntriesOf(fs[1..], r)
  }

  lemma {:induction false} ClosingEntries(fs: seq<Field>, depth: nat, r: string)
    requires fs != [] && ValidFields(fs, depth + 1)
    ensures ParseMembers(Closing(fs, r), depth) == Some(r)
    ensures Entries(Closing(fs, r), depth) == EntriesOf(fs, r)
    decreases |fs|
  {
    hide SkipWs, ReadName, ParseValue, FieldText, ValidField, EntryOf, ValueOn;
    var f, x := fs[0], Tail(fs, r);
    ClosingParses(fs, depth, r);
    TailStarts(fs, r);
    FieldReads(f, depth + 1, x);
    ValueReads(f, depth + 1, x);
    if |fs| > 1 {
      ClosingEntries(fs[1..], depth, r);
    } else {
      assert fs[1..] == [];
    }
  }

  lemma DocParses(pre: string, fs: seq<Field>, ws: string, r: string, depth: nat)
    requires Blank(pre) && Blank(ws) && ValidFields(fs, depth + 1) && depth <= MAX_DEPTH
    ensures ParseValue(Doc(pre, fs, ws, r), depth) == Some(r)
    ensures SkipWs(Doc(pre, fs, ws, r)) == "{" + Inside(fs, ws, r)
    ensures MembersOf(Doc(pre, fs, ws, r), depth) == EntriesOf(fs, r)
  {
    hide SkipWs, ParseMembers, ParseItems, ReadString, ReadScalar, FieldText, Entries;
    var u := "{" + Inside(fs, ws, r);
    BlankThrough(pre, u);
    NotBlank(u);
    assert u[1..] == Inside(fs, ws, r);
    if fs == [] {
      BlankThrough(ws, "}" + r);
      NotBlank("}" + r);
      assert ("}" + r)[1..] == r;
    } else {
      ClosingEntries(fs, depth, r);
      ClosingStarts(fs, depth, r);
    }
  }

  // White space before the first name changes nothing.
  lemma ClosingStarts(fs: seq<Field>, depth: nat, r: string)
    requires fs != [] && ValidFields(fs, depth + 1)
    ensures Peek(SkipWs(Closing(fs, r))) == '"'
    ensures ParseMembers(SkipWs(Closing(fs, r)), depth) == ParseMembers(Closing(fs, r), depth)
    ensures ParseMembers(Closing(fs, r), depth).Some? ==> Entries(SkipWs(Closing(fs, r)), depth) == Entries(Closing(fs, r), depth)
  {
    hide ParseValue, SkipWs, ReadString, ValueOn;
    var f, t := fs[0], Closing(fs, r);
    var rest := f.middle + (":" + (f.gap + ValueOn(f, Tail(fs, r))));
    BlankThrough(f.before, Quoted(f.key) + rest);
    NotBlank(Quoted(f.key) + rest);
    WsTwice(t);
  }

  // ---------- Splitting an object ----------

  lemma {:induction false} WsSplit(t: string)
    ensures t == Taken(t, SkipWs(t)) + SkipWs(t) && Blank(Taken(t, SkipWs(t)))
    decreases |t|
  {
    if IsWs(Peek(t)) {
      WsSplit(t[1..]);
      assert Taken(t, SkipWs(t))[1..] == Taken(t[1..], SkipWs(t));
    } else {
      assert Taken(t, t) == [];
    }
  }

  lemma SplitLater(t: string, n: nat, r: string)
    requires n <= |t| && |r| < |t[n..]| && t[n..] == Taken(t[n..], r) + r && t[n..][|t[n..]| - |r| - 1] == '"'
    ensures t == Taken(t, r) + r && t[|t| - |r| - 1] == '"'
  {
    assert t == t[..n] + t[n..];
    assert Taken(t, r) == t[..n] + Taken(t[n..], r);
  }

  lemma {:induction false} CharsSplit(t: string)
    requires ReadChars(t).Some?
    ensures var r := ReadChars(t).value.rest; t == Taken(t, r) + r && Taken(t, r) != [] && t[|t| - |r| - 1] == '"'
    decreases |t|
  {
    if t[0] == '"' {
      assert Taken(t, t[1..]) == [t[0]];
    } else {
      CharsNext(t);
      hide NextPiece, ReadChars;
      var n := NextPiece(t).value.n;
      CharsSplit(t[n..]);
      SplitLater(t, n, ReadChars(t).value.rest);
    }
  }

  lemma StringIs(t: string)
    requires ReadString(t).Some?
    ensures t != "" && t[0] == '"' && ReadChars(t[1..]).Some? && ReadChars(t[1..]).value.rest == ReadString(t).value
  {
    hide ReadChars;
  }

  lemma QuotedIs(t: string, key: string, r: string)
    requires |t| >= |r| + 2 && t[0] == '"' && t[|t| - |r| - 1] == '"' && t[|t| - |r|..] == r
    requires key == t[1..|t| - |r| - 1]
    ensures t == Quoted(key) + r
  {
  }

  lemma StringSplit(t: string) returns (key: string)
    requires ReadString(t).Some?
    ensures t == Quoted(key) + ReadString(t).value && ReadString(Quoted(key)) == Some("")
  {
    hide ReadChars;
    StringIs(t);
    var r := ReadString(t).value;
    CharsSplit(t[1..]);
    key := t[1..|t| - |r| - 1];
    QuotedIs(t, key, r);
    hide ReadString, Quoted, Taken;
    StringCut(Quoted(key), r);
    SameEnd(ReadString(Quoted(key)).value, r);
  }

  lemma SameEnd(a: string, r: string)
    ensures a + r == r ==> a == ""
  {
    assert |a + r| == |a| + |r|;
  }

  lemma {:induction false} ValueSplit(t: string, depth: nat) returns (v: string)
    requires ParseValue(t, depth).Some? && SkipWs(t) == t
    ensures t == v + ParseValue(t, depth).value && v != [] && !IsWs(v[0]) && ParseValue(v, depth) == Some("")
  {
    var r := ParseValue(t, depth).value;
    v := ValueTaken(t, depth, r);
    ValueCut(v, depth, r);
    SameEnd(ParseValue(v, depth).value, r);
    hide ParseValue;
    FirstKept(v, r, t);
  }

  lemma FirstKept(v: string, r: string, t: string)
    requires t == v + r && v != [] && SkipWs(t) == t
    ensures !IsWs(v[0])
  {
    assert !IsWs(Peek(SkipWs(t)));
  }

  // The rest is a suffix of the text.
  lemma {:induction false} ValueTaken(t: string, depth: nat, r: string) returns (v: string)
    requires ParseValue(t, depth) == Some(r)
    ensures t == v + r && v != []
  {
    v := Taken(t, r);
    ValueSuffix(t, depth);
  }

  predicate IsSuffix(r: string, t: string) {
    |r| <= |t| && t == Taken(t, r) + r
  }

  lemma SuffixOf(r: string, s: string, t: string)
    requires IsSuffix(r, s) && IsSuffix(s, t)
    ensures IsSuffix(r, t)
  {
    hide ReadChars;
    var a, b := Taken(t, s), Taken(s, r);
    assert t == a + (b + r);
    assert t[..|t| - |r|] == a + b;
  }

  lemma DropSuffix(t: string, n: nat)
    requires n <= |t|
    ensures IsSuffix(t[n..], t)
  {
  }

  lemma {:induction false} WsSuffix(t: string)
    ensures IsSuffix(SkipWs(t), t)
  {
    WsSplit(t);
  }

  lemma StringSuffix(t: string)
    requires ReadString(t).Some?
    ensures IsSuffix(ReadString(t).value, t)
  {
    var key := StringSplit(t);
  }

  lemma {:induction false} DigitsSuffix(t: string)
    ensures IsSuffix(SkipDigits(t), t)
    decreases |t|
  {
    if IsDigit(Peek(t)) {
      DigitsSuffix(t[1..]);
      DropSuffix(t, 1);
      SuffixOf(SkipDigits(t), t[1..], t);
    }
  }

  lemma ExponentSuffix(t: string)
    requires Exponent(t).Some?
    ensures IsSuffix(Exponent(t).value, t)
  {
    if Peek(t) == 'e' || Peek(t) == 'E' {
      var n := if Peek(t[1..]) == '+' || Peek(t[1..]) == '-' then 2 else 1;
      assert n == 2 ==> t[1..][1..] == t[2..];
      DigitsSuffix(t[n..]);
      hide SkipDigits, IsSuffix;
      DropSuffix(t, n);
      SuffixOf(SkipDigits(t[n..]), t[n..], t);
    }
  }

  lemma FractionSuffix(t: string)
    requires Fraction(t).Some?
    ensures IsSuffix(Fraction(t).value, t)
  {
    hide SkipDigits, IsSuffix, Exponent;
    if Peek(t) == '.' {
      DropSuffix(t, 1);
      DigitsSuffix(t[1..]);
      ExponentSuffix(SkipDigits(t[1..]));
      SuffixOf(SkipDigits(t[1..]), t[1..], t);
      SuffixOf(Fraction(t).value, SkipDigits(t[1..]), t);
    } else {
      ExponentSuffix(t);
    }
  }

  lemma ScalarSuffix(t: string)
    requires ReadScalar(t).Some?
    ensures IsSuffix(ReadScalar(t).value, t)
  {
    if StartsWith(t, "true") || StartsWith(t, "null") {
      DropSuffix(t, 4);
    } else if StartsWith(t, "false") {
      DropSuffix(t, 5);
    } else {
      var n := if Peek(t) == '-' then 1 else 0;
      DropSuffix(t, n);
      DigitsSuffix(t[n..]);
      FractionSuffix(SkipDigits(t[n..]));
      hide IsSuffix, SkipDigits, Fraction;
      assert n == 0 ==> t[n..] == t;
      SuffixOf(SkipDigits(t[n..]), t[n..], t);
      SuffixOf(ReadScalar(t).value, SkipDigits(t[n..]), t);
    }
  }

  lemma {:induction false} ValueSuffix(t: string, depth: nat)
    requires ParseValue(t, depth).Some?
    ensures IsSuffix(ParseValue(t, depth).value, t)
    decreases |t|, 0
  {
    hide IsSuffix, SkipWs, ReadString, ReadScalar, ParseMembers, ParseItems;
    var u, r := SkipWs(t), ParseValue(t, depth).value;
    WsSuffix(t);
    if Peek(u) == '{' || Peek(u) == '[' {
      var v := SkipWs(u[1..]);
      DropSuffix(u, 1);
      WsSuffix(u[1..]);
      SuffixOf(v, u[1..], u);
      if Peek(u) == '{' && Peek(v) != '}' {
        MembersSuffix(v, depth);
      } else if Peek(u) == '[' && Peek(v) != ']' {
        ItemsSuffix(v, depth);
      } else {
        DropSuffix(v, 1);
      }
      SuffixOf(r, v, u);
    } else if Peek(u) == '"' {
      StringSuffix(u);
    } else {
      ScalarSuffix(u);
    }
    SuffixOf(r, u, t);
  }

  lemma NameSuffix(t: string)
    requires ReadName(t).Some?
    ensures IsSuffix(ReadName(t).value, t)
  {
    hide IsSuffix, SkipWs, ReadString;
    var name := SkipWs(t);
    var rest := ReadString(name).value;
    WsSuffix(t);
    StringSuffix(name);
    WsSuffix(rest);
    DropSuffix(SkipWs(rest), 1);
    SuffixOf(ReadName(t).value, SkipWs(rest), rest);
    SuffixOf(ReadName(t).value, rest, name);
    SuffixOf(ReadName(t).value, name, t);
  }

  // What follows a value and a delimiter.
  lemma AfterSuffix(value: string, depth: nat, t: string)
    requires ParseValue(value, depth).Some? && IsSuffix(value, t) && IsSuffix(ParseValue(value, depth).value, value)
    requires SkipWs(ParseValue(value, depth).value) != []
    ensures IsSuffix(SkipWs(ParseValue(value, depth).value)[1..], t)
  {
    hide IsSuffix, SkipWs, ParseValue;
    var rest := ParseValue(value, depth).value;
    WsSuffix(rest);
    DropSuffix(SkipWs(rest), 1);
    SuffixOf(SkipWs(rest)[1..], SkipWs(rest), rest);
    SuffixOf(SkipWs(rest)[1..], rest, value);
    SuffixOf(SkipWs(rest)[1..], value, t);
  }

  lemma {:induction false} MembersSuffix(t: string, depth: nat)
    requires ParseMembers(t, depth).Some?
    ensures IsSuffix(ParseMembers(t, depth).value, t)
    decreases |t|, 1
  {
    hide IsSuffix, SkipWs, ReadName, ParseValue;
    var value := ReadName(t).value;
    NameSuffix(t);
    ValueSuffix(value, depth + 1);
    AfterSuffix(value, depth + 1, t);
    var r := SkipWs(ParseValue(value, depth + 1).value);
    if Peek(r) == ',' {
      MembersSuffix(r[1..], depth);
      SuffixOf(ParseMembers(t, depth).value, r[1..], t);
    }
  }

  lemma {:induction false} ItemsSuffix(t: string, depth: nat)
    requires ParseItems(t, depth).Some?
    ensures IsSuffix(ParseItems(t, depth).value, t)
    decreases |t|, 1
  {
    hide IsSuffix, SkipWs, ParseValue;
    ValueSuffix(t, depth + 1);
    DropSuffix(t, 0);
    assert t[0..] == t;
    AfterSuffix(t, depth + 1, t);
    var r := SkipWs(ParseValue(t, depth + 1).value);
    if Peek(r) == ',' {
      ItemsSuffix(r[1..], depth);
      SuffixOf(ParseItems(t, depth).value, r[1..], t);
    }
  }

  // The first member of accepted members, and what is left.
  lemma FieldSplit(t: string, depth: nat) returns (f: Field, x: string)
    requires ParseMembers(t, depth).Some?
    ensures ValidField(f, depth + 1) && t == FieldText(f, x)
    ensures x == SkipWs(ParseValue(ReadName(t).value, depth + 1).value)
  {
    hide ParseValue, ReadString, SkipWs, ParseMembers;
    NameThere(t, depth);
    var name := SkipWs(t);
    WsSplit(t);
    var key := StringSplit(name);
    var rest := ReadString(name).value;
    WsSplit(rest);
    var colon := SkipWs(rest);
    var value := colon[1..];
    WsSplit(value);
    WsTwice(value);
    var u := SkipWs(value);
    SameFromWs(value, depth + 1);
    var v := ValueSplit(u, depth + 1);
    var after := ParseValue(u, depth + 1).value;
    WsSplit(after);
    x := SkipWs(after);
    f := Field(Taken(t, name), key, Taken(rest, colon), Taken(value, u), v, Taken(after, x));
    hide ReadName, Quoted;
    assert colon == ":" + value;
    Assembled(t, f, x, name, rest, colon, value, u, after);
  }

  lemma NameThere(t: string, depth: nat)
    requires ParseMembers(t, depth).Some?
    ensures ReadName(t).Some? && ParseValue(ReadName(t).value, depth + 1).Some?
    ensures ReadString(SkipWs(t)).Some? && SkipWs(ReadString(SkipWs(t)).value) != []
    ensures SkipWs(ReadString(SkipWs(t)).value)[0] == ':' && ReadName(t).value == SkipWs(ReadString(SkipWs(t)).value)[1..]
  {
    hide SkipWs, ReadString, ParseValue;
  }

  lemma SameFromWs(t: string, depth: nat)
    ensures ParseValue(SkipWs(t), depth) == ParseValue(t, depth)
  {
    hide ParseMembers, ParseItems, ReadString, ReadScalar, SkipWs;
    WsTwice(t);
  }

  lemma Assembled(t: string, f: Field, x: string, name: string, rest: string, colon: string, value: string, u: string,
                  after: string)
    requires t == f.before + name && name == Quoted(f.key) + rest && rest == f.middle + colon && colon == ":" + value
    requires value == f.gap + u && u == f.value + after && after == f.after + x
    ensures t == FieldText(f, x)
  {
    hide Quoted;
  }

  lemma {:induction false} ClosingSplit(t: string, depth: nat) returns (fs: seq<Field>)
    requires ParseMembers(t, depth).Some?
    ensures fs != [] && ValidFields(fs, depth + 1) && t == Closing(fs, ParseMembers(t, depth).value)
    decreases |t|
  {
    hide FieldText, ValidField, ParseValue, ReadName, SkipWs;
    var f, x := FieldSplit(t, depth);
    var r := ParseMembers(t, depth).value;
    if Peek(x) == ',' {
      var rest := ClosingSplit(x[1..], depth);
      fs := [f] + rest;
      assert fs[1..] == rest;
      assert x == "," + x[1..];
    } else {
      fs := [f];
      assert x == "}" + x[1..];
    }
  }

  // The text of an accepted object is its members' text.
  lemma DocSplit(t: string, depth: nat) returns (pre: string, fs: seq<Field>, ws: string)
    requires ParseValue(t, depth).Some? && Peek(SkipWs(t)) == '{'
    ensures Blank(pre) && Blank(ws) && ValidFields(fs, depth + 1) && depth <= MAX_DEPTH
    ensures t == Doc(pre, fs, ws, ParseValue(t, depth).value)
    ensures fs != [] ==> ws == ""
  {
    hide ParseMembers, ParseItems, ReadString, ReadScalar, SkipWs, ValidField, Closing;
    var u, r := SkipWs(t), ParseValue(t, depth).value;
    WsSplit(t);
    pre := Taken(t, u);
    assert u == "{" + u[1..];
    WsSplit(u[1..]);
    var v := SkipWs(u[1..]);
    if Peek(v) == '}' {
      fs, ws := [], Taken(u[1..], v);
      assert v == "}" + v[1..];
    } else {
      var gs := ClosingSplit(v, depth);
      fs, ws := [gs[0].(before := Taken(u[1..], v) + gs[0].before)] + gs[1..], "";
      FirstGap(gs, Taken(u[1..], v), depth, r);
      BlankNothing();
    }
  }

  lemma BlankNothing()
    ensures Blank("")
  {
  }

  lemma LongerGap(f: Field, w: string, x: string)
    ensures FieldText(f.(before := w + f.before), x) == w + FieldText(f, x)
  {
    hide Quoted;
    var rest := Quoted(f.key) + (f.middle + (":" + (f.gap + ValueOn(f, x))));
    assert w + f.before + rest == w + (f.before + rest);
  }

  lemma SameTail(gs: seq<Field>, fs: seq<Field>, r: string)
    requires gs != [] && fs != [] && fs[1..] == gs[1..]
    ensures Tail(fs, r) == Tail(gs, r)
    ensures Closing(fs, r) == FieldText(fs[0], Tail(gs, r)) && Closing(gs, r) == FieldText(gs[0], Tail(gs, r))
  {
    assert |fs[1..]| == |gs[1..]|;
    hide FieldText;
  }

  lemma FirstGap(gs: seq<Field>, w: string, depth: nat, r: string)
    requires gs != [] && ValidFields(gs, depth + 1) && Blank(w)
    ensures var fs := [gs[0].(before := w + gs[0].before)] + gs[1..];
            ValidFields(fs, depth + 1) && Closing(fs, r) == w + Closing(gs, r)
  {
    var fs := [gs[0].(before := w + gs[0].before)] + gs[1..];
    hide ParseValue, ReadString, ValueOn, Closing, SkipWs;
    BlankThrough(w, gs[0].before);
    assert fs[1..] == gs[1..];
    forall i | 0 <= i < |fs| ensures ValidField(fs[i], depth + 1) {
      assert i > 0 ==> fs[i] == gs[i];
    }
    hide ValidField;
    LongerGap(gs[0], w, Tail(gs, r));
    SameTail(gs, fs, r);
  }
}
