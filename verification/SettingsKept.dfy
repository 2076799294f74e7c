// Setting a mod's entry and reading entries back agree, on every settings object the strict parser accepts.
module SettingsKept {
  import opened Options
  import opened JsonText
  import opened JsonLenient
  import opened JsonAgree
  import opened JsonStable
  import opened JsonFields
  import opened Settings

  // ---------- What the entries mean ----------

  // The text of the first member written with a key, if the value at t is an object with one.
  function MemberText(t: string, depth: nat, key: string): Option<string> {
    if ParseValue(t, depth).None? then None else
      match Lookup(MembersOf(t, depth), key)
      case None => None
      case Some(at) =>
        match ParseValue(at, depth + 1)
        case None => None
        case Some(rest) => if |rest| <= |at| then Some(Between(at, rest)) else None
  }

  // Enabled, unless an entry for the name, or for the version in it, is not the word true.
  predicate Enabled(t: string, name: string, version: string) {
    match MemberText(t, 0, name)
    case None => true
    case Some(v) =>
      if Peek(v) == '{' then
        match MemberText(v, 1, version)
        case None => true
        case Some(w) => w == "true"
      else v == "true"
  }

  // ---------- Members of a text ----------

  // The first member with a key, and the text from its value on.
  lemma {:induction false} AtField(fs: seq<Field>, key: string, r: string) returns (f: Field, x: string)
    requires fs != [] && Get(fs, key).Some?
    ensures f in fs && Get(fs, key) == Some(f.value) && At(fs, key, r) == ValueOn(f, x)
    ensures Closes(x) && SkipWs(x) == x && Delimited(x) && (Peek(x) == ',' || Peek(x) == '}')
    decreases |fs|
  {
    hide ValueOn, SkipWs, FieldText;
    TailStarts(fs, r);
    if fs[0].key == key {
      f, x := fs[0], Tail(fs, r);
    } else {
      assert |fs| > 1;
      f, x := AtField(fs[1..], key, r);
    }
  }

  lemma MemberTextIs(pre: string, fs: seq<Field>, ws: string, r: string, depth: nat, key: string)
    requires Blank(pre) && Blank(ws) && ValidFields(fs, depth + 1) && depth <= MAX_DEPTH
    ensures MemberText(Doc(pre, fs, ws, r), depth, key) == Get(fs, key)
  {
    hide ParseValue, Doc, MembersOf, ReadString, SkipWs;
    DocParses(pre, fs, ws, r, depth);
    if fs != [] {
      LookupAt(fs, key, r);
      if Get(fs, key).Some? {
        var f, x := AtField(fs, key, r);
        ValueReads(f, depth + 1, x);
        TakenValue(f, x);
      }
    }
  }

  lemma TakenValue(f: Field, x: string)
    ensures Between(ValueOn(f, x), f.after + x) == f.value && |f.after + x| <= |ValueOn(f, x)|
  {
  }

  lemma {:induction false} ClosingMore(fs: seq<Field>, r: string, y: string)
    requires fs != []
    ensures Closing(fs, r) + y == Closing(fs, r + y)
    decreases |fs|
  {
    hide FieldText;
    TextSplit(fs[0], Tail(fs, r));
    TextSplit(fs[0], Tail(fs, r + y));
    var head := FieldHead(fs[0]);
    if |fs| == 1 {
      assert head + ("}" + r) + y == head + ("}" + (r + y));
    } else {
      ClosingMore(fs[1..], r, y);
      assert head + ("," + Closing(fs[1..], r)) + y == head + ("," + (Closing(fs[1..], r) + y));
    }
  }

  lemma DocMore(pre: string, fs: seq<Field>, ws: string, r: string, y: string)
    ensures Doc(pre, fs, ws, r) + y == Doc(pre, fs, ws, r + y)
  {
    hide Closing;
    if fs == [] {
      assert pre + ("{" + (ws + ("}" + r))) + y == pre + ("{" + (ws + ("}" + (r + y))));
    } else {
      ClosingMore(fs, r, y);
      assert pre + ("{" + Closing(fs, r)) + y == pre + ("{" + (Closing(fs, r) + y));
    }
  }

  // A nested object's text, member by member.
  lemma NestedSplit(v: string, depth: nat) returns (gs: seq<Field>, ws: string)
    requires ParseValue(v, depth) == Some("") && Peek(v) == '{'
    ensures Blank(ws) && ValidFields(gs, depth + 1) && depth <= MAX_DEPTH && v == Doc("", gs, ws, "")
  {
    hide ParseValue, ValidField, Inside;
    NotBlank(v);
    var pre;
    pre, gs, ws := DocSplit(v, depth);
    BlankStart(pre, "{" + Inside(gs, ws, ""));
  }

  lemma FirstOf(a: string, x: string)
    ensures a != "" ==> Peek(a + x) == a[0]
  {
  }

  lemma BlankStart(pre: string, x: string)
    requires Blank(pre) && !IsWs(Peek(pre + x))
    ensures pre == ""
  {
    FirstOf(pre, x);
  }

  // ---------- Reading an entry ----------

  lemma TrueExactly(f: Field, depth: nat, x: string)
    requires ValidField(f, depth) && Closes(x) && SkipWs(x) == x && (Peek(x) == ',' || Peek(x) == '}')
    ensures IsTrue(ValueOn(f, x)) <==> f.value == "true"
  {
    hide ParseValue, ReadString, SkipWs, SkipGap, SkipValue;
    SkipsValue(f, depth, x);
    ValueReads(f, depth, x);
    var t := ValueOn(f, x);
    if f.value == "true" {
      assert t[..4] == "true" && t[4..] == f.after + x;
      GapIsWs(f.after + x);
    } else {
      NotTrue(f, depth, x);
    }
  }

  lemma TrueWhole(v: string, depth: nat)
    requires v != "" && v[0] == 't' && SkipWs(v) == v && ParseValue(v, depth) == Some("")
    ensures v == "true"
  {
    hide SkipWs;
    ScalarTrue(v);
    assert ReadScalar(v) == Some(v[4..]);
    hide ReadScalar, ReadNumber;
    assert v == v[..4] + v[4..];
  }

  lemma NotTrue(f: Field, depth: nat, x: string)
    requires ValidField(f, depth) && f.value != "true" && Closes(x)
    ensures !StartsWith(ValueOn(f, x), "true")
  {
    NotBlank(f.value);
    WordStart(ValueOn(f, x), "true");
    if f.value[0] == 't' {
      TrueWhole(f.value, depth);
    }
  }

  lemma ScalarTrue(v: string)
    requires v != "" && v[0] == 't' && ReadScalar(v).Some?
    ensures StartsWith(v, "true")
  {
    WordStart(v, "false");
    WordStart(v, "null");
  }

  // What the code reads of an entry is what the entry means.
  lemma EntryExactly(f: Field, x: string, version: string)
    requires ValidField(f, 1) && Closes(x) && SkipWs(x) == x && Delimited(x) && (Peek(x) == ',' || Peek(x) == '}')
    ensures Peek(SkipGap(ValueOn(f, x))) == Peek(f.value)
    ensures Peek(f.value) == '{' ==>
              var found, meant := FindMember(ValueOn(f, x), version), MemberText(f.value, 1, version);
              (found.None? || IsTrue(found.value)) == (meant.None? || meant.value == "true")
    ensures IsTrue(ValueOn(f, x)) <==> f.value == "true"
  {
    hide ParseValue, ReadString, SkipWs, SkipGap, FindMember, IsTrue, MemberText, Doc;
    SkipsValue(f, 1, x);
    TrueExactly(f, 1, x);
    if Peek(f.value) == '{' {
      var gs, ws := NestedSplit(f.value, 1);
      BlankNothing();
      DocMore("", gs, ws, "", f.after + x);
      assert "" + (f.after + x) == f.after + x;
      DocFinds("", gs, ws, f.after + x, 1, version);
      MemberTextIs("", gs, ws, "", 1, version);
      if Get(gs, version).Some? {
        var g, y := AtField(gs, version, f.after + x);
        TrueExactly(g, 2, y);
      }
    }
  }

  lemma EnabledOnDoc(pre: string, fs: seq<Field>, ws: string, post: string, name: string, version: string)
    requires Blank(pre) && Blank(ws) && ValidFields(fs, 1)
    ensures IsEnabled(Doc(pre, fs, ws, post), name, version) == Enabled(Doc(pre, fs, ws, post), name, version)
  {
    hide ParseValue, ReadString, SkipWs, SkipGap, FindMember, IsTrue, MemberText, Doc, At, ValueOn;
    DocFinds(pre, fs, ws, post, 0, name);
    MemberTextIs(pre, fs, ws, post, 0, name);
    if Get(fs, name).Some? {
      var f, x := AtField(fs, name, post);
      EntryExactly(f, x, version);
      hide ValidField;
    }
  }

  // On every accepted document, the code's answer is what the entries mean.
  lemma IsEnabledExactly(t: string, name: string, version: string)
    requires Accepts(t)
    ensures IsEnabled(t, name, version) == Enabled(t, name, version)
  {
    hide ParseValue, SkipWs, FindMember, Doc, IsTrue, MembersOf;
    if Start(t) == '{' {
      var pre, fs, ws := DocSplit(t, 0);
      EnabledOnDoc(pre, fs, ws, ParseValue(t, 0).value, name, version);
    } else {
      MemberFound(t, 0, name);
      NoMembers(t, 0);
    }
  }

  lemma NoMembers(t: string, depth: nat)
    requires ParseValue(t, depth).Some? && Start(t) != '{'
    ensures MembersOf(t, depth) == []
  {
  }

  // ---------- Setting an entry ----------

  // The versions object the entry becomes.
  lemma VersionsOf(pre: string, fs: seq<Field>, ws: string, post: string, name: string) returns (gs: seq<Field>, w: string)
    requires Blank(pre) && Blank(ws) && ValidFields(fs, 1)
    ensures Blank(w) && ValidFields(gs, 2) && Versions(Doc(pre, fs, ws, post), name) == Doc("", gs, w, "")
    ensures var was := Get(fs, name);
            if was.Some? && Peek(was.value) == '{' then was.value == Doc("", gs, w, "") else gs == []
  {
    hide ParseValue, ReadString, SkipWs, SkipGap, FindMember, SkipValue, Doc, At;
    DocFinds(pre, fs, ws, post, 0, name);
    BlankNothing();
    gs, w := [], "";
    EmptyDoc();
    if Get(fs, name).Some? {
      var f, x := AtField(fs, name, post);
      SkipsValue(f, 1, x);
      if Peek(f.value) == '{' {
        NotBlank(f.value);
        TakenValue(f, x);
        gs, w := NestedSplit(f.value, 1);
      }
    }
  }

  lemma EmptyDoc()
    ensures Doc("", [], "", "") == "{}"
  {
  }

  lemma DocSolid(fs: seq<Field>, ws: string)
    ensures Doc("", fs, ws, "") != [] && !IsWs(Doc("", fs, ws, "")[0]) && Peek(Doc("", fs, ws, "")) == '{'
  {
    hide Inside;
    assert "" + ("{" + Inside(fs, ws, "")) == "{" + Inside(fs, ws, "");
  }

  lemma WordParses(b: bool, depth: nat)
    requires depth <= MAX_DEPTH
    ensures ParseValue(Word(b), depth) == Some("") && Word(b) != [] && !IsWs(Word(b)[0]) && Peek(Word(b)) != '{'
  {
    var w := Word(b);
    NotBlank(w);
    assert w[..|w|] == w && w[|w|..] == "";
    if !b {
      assert w[..4] == "fals" && "fals"[0] != "true"[0];
    }
  }

  lemma OneParses(depth: nat)
    requires depth <= MAX_DEPTH
    ensures ParseValue("1", depth) == Some("")
  {
    NotBlank("1");
    assert SkipDigits("1") == "" by {
      assert "1"[1..] == "";
      assert SkipDigits("") == "";
    }
    assert !StartsWith("1", "true") && !StartsWith("1", "false") && !StartsWith("1", "null");
  }

  // Setting an entry sets two members: the mod's versions, with this version in them, and the file's own version.
  lemma SetOnDoc(pre: string, fs: seq<Field>, ws: string, post: string, name: string, version: string, enabled: bool)
    returns (gs: seq<Field>, w: string, hs: seq<Field>)
    requires Blank(pre) && Blank(ws) && ValidFields(fs, 1) && Ends(post)
    requires KeySupported(name) && KeySupported(version) && name != "Version"
    ensures Blank(w) && ValidFields(gs, 2) && ValidFields(hs, 1)
    ensures SetEnabled(Doc(pre, fs, ws, post), name, version, enabled) == Some(Doc(pre, hs, ws, post))
    ensures var was := Get(fs, name);
            if was.Some? && Peek(was.value) == '{' then was.value == Doc("", gs, w, "") else gs == []
    ensures var v := Doc("", Put(gs, w, version, Word(enabled)), w, "");
            hs == Put(Put(fs, ws, name, v), ws, "Version", "1") && Peek(v) == '{'
    ensures ValidFields(Put(gs, w, version, Word(enabled)), 2)
  {
    hide ParseValue, ReadString, Replaced, Versions, Doc, Put, KeySupported, ValidField, Get, SkipWs, Word;
    var s := Doc(pre, fs, ws, post);
    gs, w := VersionsOf(pre, fs, ws, post, name);
    BlankNothing();
    NothingEnds();
    WordParses(enabled, 2);
    ReplacedIs("", gs, w, "", 1, version, Word(enabled));
    PutValid(gs, w, version, Word(enabled), 2);
    var inner := Put(gs, w, version, Word(enabled));
    var v := Doc("", inner, w, "");
    DocParses("", inner, w, "", 1);
    DocSolid(inner, w);
    ReplacedIs(pre, fs, ws, post, 0, name, v);
    PutValid(fs, ws, name, v, 1);
    var next := Put(fs, ws, name, v);
    OneParses(1);
    VersionSupported();
    ReplacedIs(pre, next, ws, post, 0, "Version", "1");
    PutValid(next, ws, "Version", "1", 1);
    hs := Put(next, ws, "Version", "1");
  }

  lemma NothingEnds()
    ensures Ends("")
  {
  }

  lemma VersionSupported()
    ensures KeySupported("Version")
  {
  }

  // The answer for a name depends on its own entry alone.
  predicate Allows(v: Option<string>, version: string) {
    match v
    case None => true
    case Some(v) => if Peek(v) == '{' then MemberText(v, 1, version).None? || MemberText(v, 1, version).value == "true" else v == "true"
  }

  lemma EnabledIs(pre: string, fs: seq<Field>, ws: string, post: string, name: string, version: string)
    requires Blank(pre) && Blank(ws) && ValidFields(fs, 1)
    ensures IsEnabled(Doc(pre, fs, ws, post), name, version) == Allows(Get(fs, name), version)
  {
    hide MemberText, Doc, ValidField, FindMember, IsTrue, SkipGap;
    EnabledOnDoc(pre, fs, ws, post, name, version);
    MemberTextIs(pre, fs, ws, post, 0, name);
  }

  // The versions object after setting one version.
  lemma VersionSet(gs: seq<Field>, w: string, version: string, enabled: bool, v: string, other: string)
    requires Blank(w) && ValidFields(gs, 2) && ValidFields(Put(gs, w, version, Word(enabled)), 2)
    requires v == Doc("", Put(gs, w, version, Word(enabled)), w, "") && Peek(v) == '{'
    ensures Allows(Some(v), version) == enabled
    ensures other != version ==> Allows(Some(v), other) == (Get(gs, other).None? || Get(gs, other).value == "true")
  {
    hide Doc, ValidField, MemberText, Put, Get;
    BlankNothing();
    MemberTextIs("", Put(gs, w, version, Word(enabled)), w, "", 1, version);
    MemberTextIs("", Put(gs, w, version, Word(enabled)), w, "", 1, other);
    GetPut(gs, w, version, Word(enabled), version);
    GetPut(gs, w, version, Word(enabled), other);
  }

  // The same for the entry as it was.
  lemma VersionWas(gs: seq<Field>, w: string, was: Option<string>, other: string)
    requires Blank(w) && ValidFields(gs, 2)
    requires if was.Some? && Peek(was.value) == '{' then was.value == Doc("", gs, w, "") else gs == []
    requires was.None? || Peek(was.value) == '{'
    ensures Allows(was, other) == (Get(gs, other).None? || Get(gs, other).value == "true")
  {
    hide Doc, ValidField, MemberText;
    BlankNothing();
    MemberTextIs("", gs, w, "", 1, other);
  }

  // An entry that is a bare value other than the word true.
  predicate BareRefusal(v: Option<string>) {
    v.Some? && Peek(v.value) != '{' && v.value != "true"
  }

  // What setting one version does to the answers for the mod's other versions.
  lemma OtherVersions(gs: seq<Field>, w: string, was: Option<string>, version: string, enabled: bool, v: string, other: string)
    requires Blank(w) && ValidFields(gs, 2) && ValidFields(Put(gs, w, version, Word(enabled)), 2)
    requires if was.Some? && Peek(was.value) == '{' then was.value == Doc("", gs, w, "") else gs == []
    requires v == Doc("", Put(gs, w, version, Word(enabled)), w, "") && Peek(v) == '{' && other != version
    ensures Allows(Some(v), other) == Allows(was, other) <==> !BareRefusal(was)
  {
    hide Doc, ValidField, MemberText, Put;
    VersionSet(gs, w, version, enabled, v, other);
    if was.None? || Peek(was.value) == '{' {
      VersionWas(gs, w, was, other);
    }
  }

  // After setting a mod's entry: its version reads as set; every other mod but "Version" reads as before; so do the
  // mod's other versions, exactly when its old entry was not a bare value other than true; and the text is still an
  // accepted object.
  lemma SetThenGet(s: string, name: string, version: string, enabled: bool) returns (t: string)
    requires Accepts(s) && Start(s) == '{' && KeySupported(name) && KeySupported(version) && name != "Version"
    ensures SetEnabled(s, name, version, enabled) == Some(t)
    ensures Accepts(t) && Start(t) == '{'
    ensures IsEnabled(t, name, version) == enabled
    ensures forall other, v :: other != name && other != "Version" ==> IsEnabled(t, other, v) == IsEnabled(s, other, v)
    ensures forall v :: v != version ==>
              (IsEnabled(t, name, v) == IsEnabled(s, name, v) <==> !BareRefusal(MemberText(s, 0, name)))
  {
    hide ParseValue, SkipWs, Doc, IsEnabled, SetEnabled, MemberText, Put, Get, Allows, ValidField, KeySupported, BareRefusal;
    var post := ParseValue(s, 0).value;
    var pre, fs, ws := DocSplit(s, 0);
    var gs, w, hs := SetOnDoc(pre, fs, ws, post, name, version, enabled);
    t := Doc(pre, hs, ws, post);
    DocParses(pre, hs, ws, post, 0);
    var versions := Doc("", Put(gs, w, version, Word(enabled)), w, "");
    OthersGet(fs, ws, name, versions);
    EnabledIs(pre, hs, ws, post, name, version);
    VersionSet(gs, w, version, enabled, versions, version);
    MemberTextIs(pre, fs, ws, post, 0, name);
    forall other, v | other != name && other != "Version" ensures IsEnabled(t, other, v) == IsEnabled(s, other, v) {
      EnabledIs(pre, hs, ws, post, other, v);
      EnabledIs(pre, fs, ws, post, other, v);
    }
    forall v | v != version
      ensures IsEnabled(t, name, v) == IsEnabled(s, name, v) <==> !BareRefusal(MemberText(s, 0, name))
    {
      EnabledIs(pre, hs, ws, post, name, v);
      EnabledIs(pre, fs, ws, post, name, v);
      OtherVersions(gs, w, Get(fs, name), version, enabled, versions, v);
    }
  }

  lemma OthersGet(fs: seq<Field>, ws: string, name: string, v: string)
    requires name != "Version"
    ensures var hs := Put(Put(fs, ws, name, v), ws, "Version", "1");
            && Get(hs, name) == Some(v)
            && forall other :: other != name && other != "Version" ==> Get(hs, other) == Get(fs, other)
  {
    hide Put, Get;
    var next := Put(fs, ws, name, v);
    GetPut(next, ws, "Version", "1", name);
    GetPut(fs, ws, name, v, name);
    forall other | other != name && other != "Version" ensures Get(Put(next, ws, "Version", "1"), other) == Get(fs, other) {
      GetPut(next, ws, "Version", "1", other);
      GetPut(fs, ws, name, v, other);
    }
  }

  // On an accepted document, setting fails exactly for an unusable name or version, and where there is no object.
  lemma SetExactly(s: string, name: string, version: string, enabled: bool)
    requires Accepts(s)
    ensures SetEnabled(s, name, version, enabled).Some? <==>
            KeySupported(name) && KeySupported(version) && name != "Version" && Start(s) == '{'
  {
    hide ParseValue, SkipWs, KeySupported, Versions;
    if KeySupported(name) && KeySupported(version) && name != "Version" {
      if Start(s) == '{' {
        hide SetEnabled;
        var t := SetThenGet(s, name, version, enabled);
      } else {
        ValueStart(s, 0);
        GapIsWs(s);
      }
    }
  }

  // ---------- The code ----------

  method ReplaceSettingsMember(text: string, key: string, value: string) returns (r: Option<string>)
    ensures r == Replaced(text, key, value)
  {
    hide SkipGap, SkipValue, FindMember;
    if !KeySupported(key) {
      return None;
    }
    var start := SkipGapAt(text, 0);
    assert text[0..] == text;
    if start == |text| || text[start] != '{' {
      return None;
    }
    var end := SkipValueAt(text, start);
    var after := SkipGapAt(text, end);
    if end <= start || text[end - 1] != '}' || (after < |text| && text[after] != '\0') {
      return None;
    }
    var was := FindMemberAt(text, start, key);
    if was.Some? {
      var oldEnd := SkipValueAt(text, was.value);
      if oldEnd <= was.value {
        return None;
      }
      assert Between(text, text[was.value..]) == text[..was.value];
      r := Some(text[..was.value] + value + text[oldEnd..]);
    } else {
      assert text[start..][1..] == text[start + 1..];
      var inside := SkipGapAt(text, start + 1);
      var empty := inside < |text| && text[inside] == '}';
      var member := Quoted(key) + ":" + value + (if empty then "" else ",");
      assert Between(text, text[start + 1..]) == text[..start + 1];
      r := Some(text[..start + 1] + member + text[start + 1..]);
    }
  }

  method FindVersions(next: string, name: string) returns (versions: string)
    ensures versions == Versions(next, name)
  {
    hide SkipGap, SkipValue, FindMember;
    versions := "{}";
    assert next[0..] == next;
    var was := FindMemberAt(next, 0, name);
    if was.Some? {
      var at := SkipGapAt(next, was.value);
      if at < |next| && next[at] == '{' {
        var end := SkipValueAt(next, at);
        assert Between(next[at..], next[end..]) == next[at..end];
        versions := next[at..end];
      }
    }
  }

  // The settings are replaced only when every step succeeds.
  method SetEnabledSetting(settings: string, name: string, version: string, enabled: bool)
    returns (ok: bool, result: string)
    ensures ok <==> SetEnabled(settings, name, version, enabled).Some?
    ensures result == if ok then SetEnabled(settings, name, version, enabled).value else settings
  {
    hide Replaced, Versions, KeySupported;
    if !KeySupported(name) || !KeySupported(version) || name == "Version" {
      return false, settings;
    }
    var found := FindVersions(settings, name);
    var versions := ReplaceSettingsMember(found, version, if enabled then "true" else "false");
    if versions.None? {
      return false, settings;
    }
    var next := ReplaceSettingsMember(settings, name, versions.value);
    if next.None? {
      return false, settings;
    }
    next := ReplaceSettingsMember(next.value, "Version", "1");
    if next.None? {
      return false, settings;
    }
    return true, next.value;
  }

  method IsTrueAt(settings: string, at: nat) returns (b: bool)
    requires at <= |settings|
    ensures b == IsTrue(settings[at..])
  {
    hide SkipGap;
    var p := SkipGapAt(settings, at);
    b := StartsWithAt(settings, p, "true");
    Long(settings[p..], "true");
    if b {
      assert settings[p..][4..] == settings[p + 4..];
      var q := SkipGapAt(settings, p + 4);
      b := q < |settings| && (settings[q] == ',' || settings[q] == '}');
    }
  }

  method IsModEnabled(settings: string, name: string, version: string) returns (b: bool)
    ensures b == IsEnabled(settings, name, version)
  {
    hide SkipGap, FindMember, IsTrue;
    assert settings[0..] == settings;
    var value := FindMemberAt(settings, 0, name);
    if value.None? {
      return true;
    }
    var p := SkipGapAt(settings, value.value);
    if p < |settings| && settings[p] == '{' {
      value := FindMemberAt(settings, value.value, version);
      if value.None? {
        return true;
      }
    }
    b := IsTrueAt(settings, value.value);
  }
}
