// The enabled-mods file: setting one mod's entry in its text and reading entries back.
module Settings {
  import opened Options
  import opened JsonText
  import opened JsonLenient
  import opened JsonAgree
  import opened JsonStable
  import opened JsonFields

  // ---------- The code's operations, on text ----------

  // Nothing that would need an escape.
  predicate KeySupported(key: string) {
    key != "" && forall i :: 0 <= i < |key| ==> key[i] >= ' ' && key[i] != '"' && key[i] != '\\'
  }

  // The text from `start` to where `end` begins, in a text that both end.
  function Between(start: string, end: string): string
    requires |end| <= |start|
  {
    start[..|start| - |end|]
  }

  // The text with a member's value replaced, or the member added at the front of the object.
  function Replaced(s: string, key: string, value: string): Option<string> {
    if !KeySupported(key) then None else
      var start := SkipGap(s);
      if Peek(start) != '{' then None else
        var end := SkipValue(start);
        if |end| >= |start| || start[|start| - |end| - 1] != '}' || Peek(SkipGap(end)) != '\0' then None else
          match FindMember(start, key)
          case Some(at) =>
            var rest := SkipValue(at);
            if |rest| >= |at| then None else Some(Between(s, at) + value + rest)
          case None =>
            var empty := Peek(SkipGap(start[1..])) == '}';
            Some(Between(s, start[1..]) + (Quoted(key) + ":" + value + (if empty then "" else ",")) + start[1..])
  }

  function Word(b: bool): string {
    if b then "true" else "false"
  }

  // The versions object of a mod, empty if it has none.
  function Versions(s: string, name: string): string {
    match FindMember(s, name)
    case None => "{}"
    case Some(at) => if Peek(SkipGap(at)) == '{' then Between(SkipGap(at), SkipValue(SkipGap(at))) else "{}"
  }

  function SetEnabled(s: string, name: string, version: string, enabled: bool): Option<string> {
    if !KeySupported(name) || !KeySupported(version) || name == "Version" then None else
      match Replaced(Versions(s, name), version, Word(enabled))
      case None => None
      case Some(versions) =>
        match Replaced(s, name, versions)
        case None => None
        case Some(next) => Replaced(next, "Version", "1")
  }

  // The word true, followed by a delimiter of an object.
  predicate IsTrue(t: string) {
    var t := SkipGap(t);
    StartsWith(t, "true") && (Peek(SkipGap(t[4..])) == ',' || Peek(SkipGap(t[4..])) == '}')
  }

  // A mod is enabled unless its entry, or its version's, says otherwise.
  predicate IsEnabled(s: string, name: string, version: string) {
    match FindMember(s, name)
    case None => true
    case Some(at) =>
      if Peek(SkipGap(at)) == '{' then
        match FindMember(at, version)
        case None => true
        case Some(v) => IsTrue(v)
      else IsTrue(at)
  }

  // ---------- The same, on members ----------

  predicate Has(fs: seq<Field>, key: string) {
    exists i :: 0 <= i < |fs| && fs[i].key == key
  }

  // The first value with a key.
  function Get(fs: seq<Field>, key: string): Option<string>
    decreases |fs|
  {
    if fs == [] then None else if fs[0].key == key then Some(fs[0].value) else Get(fs[1..], key)
  }

  function SetValue(f: Field, v: string): Field {
    f.(value := v, after := if IsBracketed(f.value) then f.after else "")
  }

  function PutIn(fs: seq<Field>, key: string, v: string): (r: seq<Field>)
    requires fs != []
    ensures |r| == |fs|
    decreases |fs|
  {
    if fs[0].key == key then [SetValue(fs[0], v)] + fs[1..]
    else if |fs| == 1 then fs
    else [fs[0]] + PutIn(fs[1..], key, v)
  }

  function Put(fs: seq<Field>, ws: string, key: string, v: string): seq<Field> {
    if Get(fs, key).Some? then PutIn(fs, key, v)
    else [Field("", key, "", "", v, if fs == [] then ws else "")] + fs
  }

  lemma {:induction false} GetPutIn(fs: seq<Field>, key: string, v: string, other: string)
    requires fs != []
    ensures Get(PutIn(fs, key, v), other) ==
            if other == key && Get(fs, key).Some? then Some(v) else Get(fs, other)
    decreases |fs|
  {
    if fs[0].key != key && |fs| > 1 {
      GetPutIn(fs[1..], key, v, other);
    }
    assert fs == [fs[0]] + fs[1..];
  }

  // Setting one key changes what is found for that key and for no other.
  lemma GetPut(fs: seq<Field>, ws: string, key: string, v: string, other: string)
    ensures Get(Put(fs, ws, key, v), other) == if other == key then Some(v) else Get(fs, other)
  {
    if Get(fs, key).Some? {
      GetPutIn(fs, key, v, other);
    } else {
      var f := Field("", key, "", "", v, if fs == [] then ws else "");
      assert ([f] + fs)[1..] == fs;
    }
  }

  lemma {:induction false} PutInValid(fs: seq<Field>, key: string, v: string, depth: nat)
    requires fs != [] && ValidFields(fs, depth) && v != [] && !IsWs(v[0]) && ParseValue(v, depth) == Some("")
    ensures ValidFields(PutIn(fs, key, v), depth)
    decreases |fs|
  {
    hide ParseValue, ReadString;
    BlankNothing();
    if fs[0].key != key && |fs| > 1 {
      PutInValid(fs[1..], key, v, depth);
    }
  }

  lemma KeyReads(key: string)
    requires KeySupported(key)
    ensures ReadString(Quoted(key)) == Some("")
  {
    assert Quoted(key)[1..] == key + "\"";
    PlainReads(key);
    assert '\0' !in key;
  }

  lemma {:induction false} PlainReads(key: string)
    requires forall i :: 0 <= i < |key| ==> key[i] >= ' ' && key[i] != '"' && key[i] != '\\'
    ensures ReadChars(key + "\"") == Some(Literal(key, ""))
    decreases |key|
  {
    if key != [] {
      var t := key + "\"";
      CharsNext(t);
      assert t[1..] == key[1..] + "\"";
      PlainReads(key[1..]);
      assert key == [key[0]] + key[1..];
    }
  }

  lemma PutValid(fs: seq<Field>, ws: string, key: string, v: string, depth: nat)
    requires ValidFields(fs, depth) && Blank(ws) && KeySupported(key)
    requires v != [] && !IsWs(v[0]) && ParseValue(v, depth) == Some("")
    ensures ValidFields(Put(fs, ws, key, v), depth)
  {
    hide ParseValue, ReadString, KeySupported;
    KeyReads(key);
    BlankNothing();
    if Get(fs, key).Some? {
      PutInValid(fs, key, v, depth);
    }
  }

  // ---------- The operations change the members as the text says ----------

  // The text from the first value with a key on.
  function At(fs: seq<Field>, key: string, r: string): string
    requires fs != []
    decreases |fs|
  {
    if fs[0].key == key || |fs| == 1 then ValueOn(fs[0], Tail(fs, r)) else At(fs[1..], key, r)
  }

  lemma {:induction false} LookupAt(fs: seq<Field>, key: string, r: string)
    requires fs != []
    ensures Lookup(EntriesOf(fs, r), key) == if Get(fs, key).Some? then Some(At(fs, key, r)) else None
    decreases |fs|
  {
    hide ValueOn, Tail;
    assert EntriesOf(fs, r)[1..] == EntriesOf(fs[1..], r);
    if fs[0].key != key {
      if |fs| == 1 {
        assert fs[1..] == [];
      } else {
        LookupAt(fs[1..], key, r);
      }
    }
  }

  // The lenient reader stops after the value, or after the white space behind it too.
  lemma SkipsValue(f: Field, depth: nat, x: string)
    requires ValidField(f, depth) && Closes(x) && SkipWs(x) == x && Delimited(x)
    ensures IsBracketed(ValueOn(f, x)) == IsBracketed(f.value) && SkipGap(ValueOn(f, x)) == ValueOn(f, x)
    ensures ValueOn(f, x) != [] && ValueOn(f, x)[0] == f.value[0]
    ensures SkipValue(ValueOn(f, x)) == if IsBracketed(f.value) then f.after + x else x
  {
    hide ParseValue, ReadString, SkipWs, SkipGap, SkipValue;
    ValueReads(f, depth, x);
    ValueOnStarts(f, depth, x);
    NotBlank(f.value);
    ValueAgree(ValueOn(f, x), depth);
    ValueStart(ValueOn(f, x), depth);
    GapIsWs(ValueOn(f, x));
  }

  lemma TailDelimits(fs: seq<Field>, r: string)
    requires fs != []
    ensures Closes(Tail(fs, r)) && SkipWs(Tail(fs, r)) == Tail(fs, r) && Delimited(Tail(fs, r))
  {
    hide SkipWs, FieldText;
    TailStarts(fs, r);
  }

  lemma HeadSplit(f: Field, on: string)
    ensures f.before + (Quoted(f.key) + (f.middle + (":" + (f.gap + on)))) ==
            f.before + (Quoted(f.key) + (f.middle + (":" + f.gap))) + on
  {
    hide Quoted;
    assert ":" + (f.gap + on) == ":" + f.gap + on;
    assert f.middle + (":" + f.gap + on) == f.middle + (":" + f.gap) + on;
    var b := f.middle + (":" + f.gap);
    assert Quoted(f.key) + (b + on) == Quoted(f.key) + b + on;
    assert f.before + (Quoted(f.key) + b + on) == f.before + (Quoted(f.key) + b) + on;
  }

  lemma Spliced(head: string, at: string, rest: string, v: string)
    ensures Between(head + at, at) + v + rest == head + (v + rest)
  {
    assert Between(head + at, at) == head;
    assert head + (v + rest) == head + v + rest;
  }

  lemma FieldReplaced(f: Field, depth: nat, x: string, v: string)
    requires ValidField(f, depth) && Closes(x) && SkipWs(x) == x && Delimited(x)
    ensures var t, at := FieldText(f, x), ValueOn(f, x);
            && |SkipValue(at)| < |at| <= |t|
            && Between(t, at) + v + SkipValue(at) == FieldText(SetValue(f, v), x)
  {
    hide ParseValue, ReadString, SkipWs, SkipValue, Quoted, IsBracketed;
    SkipsValue(f, depth, x);
    var head := f.before + (Quoted(f.key) + (f.middle + (":" + f.gap)));
    HeadSplit(f, ValueOn(f, x));
    var after := if IsBracketed(f.value) then f.after else "";
    var g := SetValue(f, v);
    HeadSplit(g, ValueOn(g, x));
    assert SkipValue(ValueOn(f, x)) == after + x;
    hide FieldText, ValueOn, SetValue, Between;
    Spliced(head, ValueOn(f, x), after + x, v);
  }

  lemma {:induction false} ClosingReplaced(fs: seq<Field>, key: string, v: string, depth: nat, r: string)
    requires fs != [] && ValidFields(fs, depth) && Get(fs, key).Some?
    ensures var t, at := Closing(fs, r), At(fs, key, r);
            && |SkipValue(at)| < |at| <= |t|
            && Between(t, at) + v + SkipValue(at) == Closing(PutIn(fs, key, v), r)
    decreases |fs|
  {
    hide FieldText, ValueOn, SkipValue, ValidField;
    var f, x := fs[0], Tail(fs, r);
    if f.key == key {
      TailDelimits(fs, r);
      FieldReplaced(f, depth, x, v);
      SameTail(fs, PutIn(fs, key, v), r);
    } else {
      var rest := fs[1..];
      ClosingReplaced(rest, key, v, depth, r);
      LaterReplaced(fs, key, v, r);
    }
  }

  lemma LaterReplaced(fs: seq<Field>, key: string, v: string, r: string)
    requires |fs| > 1 && fs[0].key != key
    requires var t, at := Closing(fs[1..], r), At(fs[1..], key, r);
             && |SkipValue(at)| < |at| <= |t|
             && Between(t, at) + v + SkipValue(at) == Closing(PutIn(fs[1..], key, v), r)
    ensures var t, at := Closing(fs, r), At(fs, key, r);
            && |SkipValue(at)| < |at| <= |t|
            && Between(t, at) + v + SkipValue(at) == Closing(PutIn(fs, key, v), r)
  {
    hide FieldText, ValueOn, SkipValue;
    var t, at, put := Closing(fs[1..], r), At(fs[1..], key, r), PutIn(fs[1..], key, v);
    var all := PutIn(fs, key, v);
    assert all[1..] == put && |put| == |fs| - 1;
    assert At(fs, key, r) == at;
    TextSplit(fs[0], "," + t);
    TextSplit(fs[0], "," + Closing(put, r));
    var head := FieldHead(fs[0]);
    hide Closing, PutIn;
    assert Between(head + ("," + t), at) == head + ("," + Between(t, at));
    assert head + ("," + Between(t, at)) + v + SkipValue(at) == head + ("," + (Between(t, at) + v + SkipValue(at)));
  }

  function FieldHead(f: Field): string {
    f.before + (Quoted(f.key) + (f.middle + (":" + (f.gap + (f.value + f.after)))))
  }

  lemma TextSplit(f: Field, x: string)
    ensures FieldText(f, x) == FieldHead(f) + x
  {
    hide Quoted;
    assert f.value + (f.after + x) == f.value + f.after + x;
    assert f.gap + (f.value + f.after + x) == f.gap + (f.value + f.after) + x;
    var a := f.gap + (f.value + f.after);
    assert ":" + (a + x) == ":" + a + x;
    assert f.middle + (":" + a + x) == f.middle + (":" + a) + x;
    var b := f.middle + (":" + a);
    assert Quoted(f.key) + (b + x) == Quoted(f.key) + b + x;
    assert f.before + (Quoted(f.key) + b + x) == f.before + (Quoted(f.key) + b) + x;
  }

  // The object's text ends with its brace.
  lemma {:induction false} ClosingEnds(fs: seq<Field>, r: string)
    requires fs != []
    ensures |Closing(fs, r)| > |r| && Closing(fs, r)[|Closing(fs, r)| - |r| - 1] == '}'
    decreases |fs|
  {
    hide FieldText;
    TextSplit(fs[0], Tail(fs, r));
    if |fs| > 1 {
      ClosingEnds(fs[1..], r);
    }
  }

  lemma InsideEnds(fs: seq<Field>, ws: string, r: string)
    ensures |Inside(fs, ws, r)| > |r| && Inside(fs, ws, r)[|Inside(fs, ws, r)| - |r| - 1] == '}'
  {
    if fs != [] {
      ClosingEnds(fs, r);
    }
    hide Closing;
  }

  // Nothing but white space and the end of the text.
  predicate Ends(t: string) {
    Peek(SkipWs(t)) == '\0'
  }

  // The object itself, as the lenient reader finds it.
  lemma DocStarts(pre: string, fs: seq<Field>, ws: string, post: string, depth: nat)
    requires Blank(pre) && Blank(ws) && ValidFields(fs, depth + 1) && depth <= MAX_DEPTH && Ends(post)
    ensures var u := "{" + Inside(fs, ws, post);
            && SkipGap(Doc(pre, fs, ws, post)) == u && SkipGap(u) == u && u[1..] == Inside(fs, ws, post)
            && SkipValue(u) == post && |post| < |u| && u[|u| - |post| - 1] == '}' && Peek(SkipGap(post)) == '\0'
  {
    hide SkipWs, SkipGap, SkipValue, ParseValue, Inside, ValidField;
    var u := "{" + Inside(fs, ws, post);
    DocParses(pre, fs, ws, post, depth);
    BlankNothing();
    DocParses("", fs, ws, post, depth);
    assert "" + u == u;
    GapIsWs(Doc(pre, fs, ws, post));
    GapIsWs(u);
    ValueAgree(u, depth);
    GapIsWs(post);
    InsideEnds(fs, ws, post);
  }

  lemma DocFinds(pre: string, fs: seq<Field>, ws: string, r: string, depth: nat, key: string)
    requires Blank(pre) && Blank(ws) && ValidFields(fs, depth + 1) && depth <= MAX_DEPTH
    ensures FindMember(Doc(pre, fs, ws, r), key) == if Get(fs, key).Some? then Some(At(fs, key, r)) else None
  {
    hide ParseValue, Doc, FindMember, MembersOf, ValidField, At;
    DocParses(pre, fs, ws, r, depth);
    MemberFound(Doc(pre, fs, ws, r), depth, key);
    if fs != [] {
      LookupAt(fs, key, r);
    }
  }

  lemma EmptyTest(fs: seq<Field>, ws: string, r: string, depth: nat)
    requires Blank(ws) && ValidFields(fs, depth)
    ensures Peek(SkipGap(Inside(fs, ws, r))) == '}' <==> fs == []
  {
    hide SkipGap, SkipWs, ParseValue, ReadString;
    if fs == [] {
      BlankThrough(ws, "}" + r);
      NotBlank("}" + r);
    } else {
      hide ValueOn;
      var f := fs[0];
      var rest := f.middle + (":" + (f.gap + ValueOn(f, Tail(fs, r))));
      BlankThrough(f.before, Quoted(f.key) + rest);
      NotBlank(Quoted(f.key) + rest);
    }
    GapIsWs(Inside(fs, ws, r));
  }

  lemma FoundInside(fs: seq<Field>, ws: string, post: string, depth: nat, key: string)
    requires Blank(ws) && ValidFields(fs, depth + 1) && depth <= MAX_DEPTH
    ensures FindMember("{" + Inside(fs, ws, post), key) == if Get(fs, key).Some? then Some(At(fs, key, post)) else None
  {
    hide FindMember, Inside, ValidField, At;
    BlankNothing();
    DocFinds("", fs, ws, post, depth, key);
    assert "" + ("{" + Inside(fs, ws, post)) == "{" + Inside(fs, ws, post);
  }

  // Replacing on the text of an object is setting the member.
  lemma ReplacedIs(pre: string, fs: seq<Field>, ws: string, post: string, depth: nat, key: string, v: string)
    requires Blank(pre) && Blank(ws) && ValidFields(fs, depth + 1) && depth <= MAX_DEPTH && Ends(post) && KeySupported(key)
    ensures Replaced(Doc(pre, fs, ws, post), key, v) == Some(Doc(pre, Put(fs, ws, key, v), ws, post))
  {
    hide SkipGap, SkipValue, FindMember, KeySupported, ValidField, Inside, Ends, Put, Between, Closing, At;
    DocStarts(pre, fs, ws, post, depth);
    FoundInside(fs, ws, post, depth, key);
    if Get(fs, key).Some? {
      MemberReplaced(pre, fs, ws, post, depth, key, v);
    } else {
      EmptyTest(fs, ws, post, depth + 1);
      MemberAdded(pre, fs, ws, post, key, v);
    }
  }

  lemma Splice(pre: string, t: string, at: string, v: string, rest: string)
    requires |at| <= |t|
    ensures Between(pre + ("{" + t), at) + v + rest == pre + ("{" + (Between(t, at) + v + rest))
  {
    assert Between(pre + ("{" + t), at) == pre + ("{" + Between(t, at));
    var a := Between(t, at);
    assert pre + ("{" + a) + v + rest == pre + ("{" + (a + v + rest));
  }

  lemma PutsThere(fs: seq<Field>, ws: string, key: string, v: string, r: string)
    requires Get(fs, key).Some?
    ensures fs != [] && Put(fs, ws, key, v) == PutIn(fs, key, v)
    ensures Inside(fs, ws, r) == Closing(fs, r) && Inside(PutIn(fs, key, v), ws, r) == Closing(PutIn(fs, key, v), r)
  {
    hide Closing;
  }

  lemma MemberReplaced(pre: string, fs: seq<Field>, ws: string, post: string, depth: nat, key: string, v: string)
    requires ValidFields(fs, depth + 1) && Get(fs, key).Some?
    ensures var s, at := Doc(pre, fs, ws, post), At(fs, key, post);
            && |SkipValue(at)| < |at| <= |s|
            && Between(s, at) + v + SkipValue(at) == Doc(pre, Put(fs, ws, key, v), ws, post)
  {
    hide SkipValue, ValidField, PutIn, At, Get, Closing, IsBracketed;
    PutsThere(fs, ws, key, v, post);
    ClosingReplaced(fs, key, v, depth + 1, post);
    var at := At(fs, key, post);
    Splice(pre, Closing(fs, post), at, v, SkipValue(at));
    hide Put, Between;
  }

  // A member put in front of the others.
  lemma NewMember(fs: seq<Field>, ws: string, r: string, f: Field)
    ensures Inside([f] + fs, ws, r) == FieldText(f, if fs == [] then "}" + r else "," + Inside(fs, ws, r))
  {
    hide FieldText;
    var all := [f] + fs;
    assert all[0] == f && all[1..] == fs && all != [];
    assert Closing(all, r) == FieldText(f, Tail(all, r));
    assert Tail(all, r) == if fs == [] then "}" + r else "," + Closing(all[1..], r);
  }

  lemma NewText(f: Field, inside: string, r: string)
    requires f.before == "" && f.middle == "" && f.gap == ""
    ensures f.after == "" ==> FieldText(f, "," + inside) == Quoted(f.key) + ":" + f.value + "," + inside
    ensures inside == f.after + ("}" + r) ==> FieldText(f, "}" + r) == Quoted(f.key) + ":" + f.value + "" + inside
  {
    hide Quoted;
    NothingInFront(f, "," + inside);
    NothingInFront(f, "}" + r);
    var q := Quoted(f.key);
    if f.after == "" {
      assert f.after + ("," + inside) == "," + inside;
      assert q + (":" + (f.value + ("," + inside))) == q + ":" + f.value + "," + inside;
    }
    assert q + (":" + (f.value + (f.after + ("}" + r)))) == q + ":" + f.value + "" + (f.after + ("}" + r));
  }

  lemma NothingInFront(f: Field, x: string)
    requires f.before == "" && f.middle == "" && f.gap == ""
    ensures FieldText(f, x) == Quoted(f.key) + (":" + (f.value + (f.after + x)))
  {
    hide Quoted;
    var a := f.value + (f.after + x);
    assert "" + a == a;
    assert "" + (":" + a) == ":" + a;
    assert "" + (Quoted(f.key) + (":" + a)) == Quoted(f.key) + (":" + a);
  }

  lemma MemberAdded(pre: string, fs: seq<Field>, ws: string, post: string, key: string, v: string)
    requires Get(fs, key).None?
    ensures var s, inside := Doc(pre, fs, ws, post), Inside(fs, ws, post);
            && |inside| <= |s|
            && Between(s, inside) + (Quoted(key) + ":" + v + (if fs == [] then "" else ",")) + inside ==
               Doc(pre, Put(fs, ws, key, v), ws, post)
  {
    var f, inside := Field("", key, "", "", v, if fs == [] then ws else ""), Inside(fs, ws, post);
    hide Closing, Quoted, FieldText, Get;
    NewMember(fs, ws, post, f);
    assert Between(pre + ("{" + inside), inside) == pre + "{";
    NewText(f, inside, post);
    hide Inside;
    var added := Quoted(key) + ":" + v + if fs == [] then "" else ",";
    assert pre + "{" + added + inside == pre + ("{" + (added + inside));
  }
}
