// A persistence definition as it may be written, comments, blanks and all, and what reading it gives.
module PdefDefinition {
  import opened Options
  import opened PdefText
  import opened PdefApply
  import PdefEnums

  // ---------- Lines ----------

  predicate Blanks(s: string) {
    forall i :: 0 <= i < |s| ==> s[i] as nat in {9, 10, 11, 12, 13, 32}
  }

  // Nothing, or a comment.
  predicate Note(s: string) {
    s == "" || (|s| >= 2 && s[0] == '/' && s[1] == '/')
  }

  // No blanks around it and no comment in it.
  predicate Bare(line: string) {
    && (line == "" || (!Blanks([line[0]]) && !Blanks([line[|line| - 1]])))
    && forall i :: 0 <= i < |line| - 1 ==> !(line[i] == '/' && line[i + 1] == '/')
  }

  // A line with blanks around it and perhaps a comment behind; blanks part a last slash from the comment.
  ghost predicate Dressed(raw: string, line: string) {
    exists before, after, note ::
      && Blanks(before) && Blanks(after) && Note(note) && raw == before + line + after + note
      && (note != "" && line != "" && line[|line| - 1] == '/' ==> after != "")
  }

  // The lines, each dressed, and any number of empty ones.
  ghost predicate Dress(raws: seq<string>, lines: seq<string>)
    decreases |raws|
  {
    if raws == [] then lines == [] else
      || (Dressed(raws[0], "") && Dress(raws[1..], lines))
      || (lines != [] && Dressed(raws[0], lines[0]) && Dress(raws[1..], lines[1..]))
  }

  lemma SpaceIs(c: char)
    ensures IsSpace(c) <==> Blanks([c])
  {
    assert [c][0] == c;
  }

  lemma BlankAt(s: string, i: nat)
    requires Blanks(s) && i < |s|
    ensures IsSpace(s[i]) && s[i] != '/'
  {
  }

  lemma {:induction false} CommentAt(s: string, from: nat, at: nat)
    requires from <= at <= |s| && (at == |s| || (at + 1 < |s| && s[at] == '/' && s[at + 1] == '/'))
    requires forall i :: from <= i < at && i + 1 < |s| ==> !(s[i] == '/' && s[i + 1] == '/')
    ensures Comment(s, from) == at
    decreases at - from
  {
    if from < at {
      CommentAt(s, from + 1, at);
    }
  }

  lemma {:induction false} LeftTrimmed(before: string, s: string)
    requires Blanks(before) && (s == "" || !IsSpace(s[0]))
    ensures TrimLeft(before + s) == s
    decreases |before|
  {
    if before == "" {
      assert before + s == s;
    } else {
      BlankAt(before, 0);
      assert (before + s)[1..] == before[1..] + s;
      LeftTrimmed(before[1..], s);
    }
  }

  lemma {:induction false} RightTrimmed(s: string, after: string)
    requires Blanks(after) && (s == "" || !IsSpace(s[|s| - 1]))
    ensures TrimRight(s + after) == s
    decreases |after|
  {
    if after == "" {
      assert s + after == s;
    } else {
      var n := |after| - 1;
      BlankAt(after, n);
      assert (s + after)[..|s + after| - 1] == s + after[..n];
      RightTrimmed(s, after[..n]);
    }
  }

  lemma AllTrimmed(before: string, line: string, after: string)
    requires Blanks(before) && Blanks(after) && (line == "" || (!IsSpace(line[0]) && !IsSpace(line[|line| - 1])))
    ensures Trim(before + line + after) == line
  {
    assert before + line + after == before + (line + after);
    if line == "" {
      assert line + after == after && before + after == before + after + "";
      BothBlank(before, after);
      LeftTrimmed(before + after, "");
      assert TrimRight("") == "";
    } else {
      LeftTrimmed(before, line + after);
      RightTrimmed(line, after);
    }
  }

  lemma BothBlank(a: string, b: string)
    requires Blanks(a) && Blanks(b)
    ensures Blanks(a + b)
  {
  }

  // The line is what counts.
  lemma DressedIs(raw: string, line: string)
    requires Bare(line) && Dressed(raw, line)
    ensures Significant(raw) == line
  {
    var before, after, note :| && Blanks(before) && Blanks(after) && Note(note) && raw == before + line + after + note
                               && (note != "" && line != "" && line[|line| - 1] == '/' ==> after != "");
    var at := |before + line + after|;
    forall i | 0 <= i < at && i + 1 < |raw| ensures !(raw[i] == '/' && raw[i + 1] == '/') {
      NoteLater(before, line, after, note, i);
    }
    hide Blanks, Note, Bare;
    NoteStarts(note, raw, at);
    CommentAt(raw, 0, at);
    assert raw[..at] == before + line + after;
    BareEnds(line);
    AllTrimmed(before, line, after);
  }

  lemma NoteStarts(note: string, raw: string, at: nat)
    requires Note(note) && at + |note| == |raw| && raw[at..] == note
    ensures at == |raw| || (at + 1 < |raw| && raw[at] == '/' && raw[at + 1] == '/')
  {
    if note != "" {
      assert raw[at] == note[0] && raw[at + 1] == note[1];
    }
  }

  lemma BareEnds(line: string)
    requires Bare(line)
    ensures line == "" || (!IsSpace(line[0]) && !IsSpace(line[|line| - 1]))
  {
    if line != "" {
      SpaceIs(line[0]);
      SpaceIs(line[|line| - 1]);
    }
  }

  lemma NoteLater(before: string, line: string, after: string, note: string, i: nat)
    requires Blanks(before) && Blanks(after) && Bare(line) && i < |before + line + after|
    requires i + 1 < |before + line + after + note|
    requires note != "" && line != "" && line[|line| - 1] == '/' ==> after != ""
    ensures var raw := before + line + after + note; !(raw[i] == '/' && raw[i + 1] == '/')
  {
    if i < |before| {
      BlankAt(before, i);
    } else if i < |before| + |line| {
      var k := i - |before|;
      if k == |line| - 1 && after != "" {
        BlankAt(after, 0);
      }
    } else {
      BlankAt(after, i - |before| - |line|);
    }
  }

  // ---------- Names ----------

  const CAPITALS: string := "ABCDEFGHIJKLMNOPQRSTUVWXYZ"
  const SMALL: string := "abcdefghijklmnopqrstuvwxyz"
  const DIGITS: string := "0123456789"

  predicate Letter(c: char) {
    c in CAPITALS || c in SMALL || c == '_'
  }

  predicate Name(s: string) {
    s != "" && Letter(s[0]) && forall i :: 0 <= i < |s| ==> Letter(s[i]) || s[i] in DIGITS
  }

  lemma CapitalIs(c: char)
    ensures c in CAPITALS <==> 'A' <= c <= 'Z'
  {
    assert forall k :: 0 <= k < |CAPITALS| ==> CAPITALS[k] as int == 'A' as int + k;
    if 'A' <= c <= 'Z' {
      assert CAPITALS[c as int - 'A' as int] == c;
    }
  }

  lemma SmallIs(c: char)
    ensures c in SMALL <==> 'a' <= c <= 'z'
  {
    assert forall k :: 0 <= k < |SMALL| ==> SMALL[k] as int == 'a' as int + k;
    if 'a' <= c <= 'z' {
      assert SMALL[c as int - 'a' as int] == c;
    }
  }

  lemma LetterIs(c: char)
    ensures Letter(c) <==> IsAlpha(c) || c == '_'
  {
    hide CAPITALS, SMALL;
    CapitalIs(c);
    SmallIs(c);
  }

  lemma DigitIs(c: char)
    ensures c in DIGITS <==> IsDigit(c)
  {
    if IsDigit(c) {
      assert DIGITS[c as nat - '0' as nat] == c;
    }
  }

  // A name is a letter or an underscore, then such and digits.
  lemma NameExactly(s: string)
    ensures IsIdentifier(s) <==> Name(s)
  {
    hide IsAlpha, IsDigit, Letter, DIGITS;
    forall i | 0 <= i < |s|
      ensures Letter(s[i]) <==> IsAlpha(s[i]) || s[i] == '_'
      ensures s[i] in DIGITS <==> IsDigit(s[i])
    {
      LetterIs(s[i]);
      DigitIs(s[i]);
    }
  }

  // ---------- Declarations ----------

  // A field as it is written: its type, a gap and its name.
  datatype Declared = Declared(kind: string, gap: string, name: string) {
    predicate Valid() {
      && Wide(gap) && (forall i :: 0 <= i < |kind| ==> kind[i] as nat !in {9, 10, 11, 12, 13, 32})
      && kind != "" && name != "" && Bare(name) && Bare(Line()) && PdefEnums.Member(Line())
    }

    function Line(): string {
      kind + (gap + name)
    }
  }

  // Between words: at least one blank or tabulator.
  predicate Wide(gap: string) {
    gap != "" && forall i :: 0 <= i < |gap| ==> gap[i] == ' ' || gap[i] == '\t'
  }

  datatype Part =
    | Enumeration(gap: string, name: string, members: seq<string>)
    | Structure(gap: string, name: string, fields: seq<Declared>)
    | Property(field: Declared)
  {
    predicate Valid() {
      match this
      case Enumeration(gap, name, members) =>
        Wide(gap) && Name(name) && forall i :: 0 <= i < |members| ==> Bare(members[i]) && PdefEnums.Member(members[i])
      case Structure(gap, name, fields) => Wide(gap) && Name(name) && forall i :: 0 <= i < |fields| ==> fields[i].Valid()
      case Property(field) => field.Valid()
    }

    function Lines(): seq<string> {
      match this
      case Enumeration(gap, name, members) => ["$ENUM_START" + (gap + name)] + members + ["$ENUM_END"]
      case Structure(gap, name, fields) => ["$STRUCT_START" + (gap + name)] + FieldLines(fields) + ["$STRUCT_END"]
      case Property(field) => [field.Line()]
    }

    // An enumeration counts its members, a structure has its fields; the last block of a name holds.
    function Into(d: Defs): Defs {
      match this
      case Enumeration(_, name, members) => d.(enums := d.enums[name := |members|])
      case Structure(_, name, fields) => d.(structs := d.structs[name := Fields(fields)])
      case Property(field) => d.(top := d.top + [Field(field.kind, field.name)])
    }
  }

  function FieldLines(fields: seq<Declared>): (lines: seq<string>)
    ensures |lines| == |fields| && forall i :: 0 <= i < |fields| ==> lines[i] == fields[i].Line()
  {
    seq(|fields|, i requires 0 <= i < |fields| => fields[i].Line())
  }

  function Fields(fields: seq<Declared>): (fs: seq<Field>)
    ensures |fs| == |fields| && forall i :: 0 <= i < |fields| ==> fs[i] == Field(fields[i].kind, fields[i].name)
  {
    seq(|fields|, i requires 0 <= i < |fields| => Field(fields[i].kind, fields[i].name))
  }

  function AllLines(parts: seq<Part>): seq<string>
    decreases |parts|
  {
    if parts == [] then [] else parts[0].Lines() + AllLines(parts[1..])
  }

  function Meaning(d: Defs, parts: seq<Part>): Defs
    decreases |parts|
  {
    if parts == [] then d else Meaning(parts[0].Into(d), parts[1..])
  }

  ghost predicate AllValid(parts: seq<Part>) {
    forall i :: 0 <= i < |parts| ==> parts[i].Valid()
  }

  // ---------- Reading bare lines ----------

  function ReadBare(s: State, lines: seq<string>): State
    decreases |lines|
  {
    if lines == [] then s else ReadBare(Read(s, lines[0]), lines[1..])
  }

  lemma {:induction false} BareAppended(s: State, a: seq<string>, b: seq<string>)
    ensures ReadBare(s, a + b) == ReadBare(ReadBare(s, a), b)
    decreases |a|
  {
    hide Read;
    if a == [] {
      assert a + b == b;
    } else {
      assert (a + b)[1..] == a[1..] + b;
      BareAppended(Read(s, a[0]), a[1..], b);
    }
  }

  lemma {:induction false} DressRead(s: State, raws: seq<string>, lines: seq<string>)
    requires Dress(raws, lines) && forall i :: 0 <= i < |lines| ==> Bare(lines[i])
    ensures ReadAll(s, raws) == ReadBare(s, lines)
    decreases |raws|
  {
    hide Read, Significant, Dressed, Bare;
    if raws != [] {
      if Dressed(raws[0], "") && Dress(raws[1..], lines) {
        NothingBare();
        DressedIs(raws[0], "");
        NothingRead(s);
        DressRead(s, raws[1..], lines);
      } else {
        DressedIs(raws[0], lines[0]);
        DressRead(Read(s, lines[0]), raws[1..], lines[1..]);
      }
    }
  }

  lemma NothingBare()
    ensures Bare("")
  {
  }

  lemma NothingRead(s: State)
    ensures Read(s, "") == s
  {
  }

  // ---------- Reading a part ----------

  lemma {:induction false} MembersRead(s: State, members: seq<string>)
    requires s.Reading? && s.inEnum != [] && s.inEnum in s.defs.enums
    requires forall i :: 0 <= i < |members| ==> PdefEnums.Member(members[i])
    ensures ReadBare(s, members) ==
            s.(defs := s.defs.(enums := s.defs.enums[s.inEnum := s.defs.enums[s.inEnum] + |members|]))
    decreases |members|
  {
    hide IsDirective, FieldOf;
    var e, n := s.defs.enums, s.inEnum;
    if members == [] {
      assert e[n := e[n]] == e;
    } else {
      assert PdefEnums.Member(members[0]);
      MembersRead(Read(s, members[0]), members[1..]);
      assert e[n := e[n] + 1][n := e[n] + 1 + (|members| - 1)] == e[n := e[n] + |members|];
    }
  }

  lemma FieldRead(f: Declared)
    requires f.Valid()
    ensures FieldOf(f.Line()) == Some(Field(f.kind, f.name))
  {
    var line := f.Line();
    forall i | 0 <= i < |f.kind| ensures line[i] != ' ' && line[i] != '\t' {
      assert line[i] == f.kind[i];
    }
    assert line[|f.kind|] == f.gap[0];
    PdefEnums.GapFrom(line, |f.kind|, 0);
    hide FindGap;
    assert line[..|f.kind|] == f.kind && line[|f.kind| + 1..] == f.gap[1..] + f.name;
    WideBlanks(f.gap);
    BareEnds(f.name);
    hide Bare, Wide, Blanks;
    NoBlanks();
    AllTrimmed(f.gap[1..], f.name, "");
    assert f.gap[1..] + f.name + "" == f.gap[1..] + f.name;
  }

  lemma WideBlanks(gap: string)
    requires Wide(gap)
    ensures Blanks(gap) && Blanks(gap[1..])
  {
  }

  lemma NoBlanks()
    ensures Blanks("")
  {
  }

  lemma {:induction false} StructRead(s: State, fields: seq<Declared>)
    requires s.Reading? && s.inEnum == [] && s.inStruct != [] && s.inStruct in s.defs.structs
    requires forall i :: 0 <= i < |fields| ==> fields[i].Valid()
    ensures ReadBare(s, FieldLines(fields)) ==
            s.(defs := s.defs.(structs := s.defs.structs[s.inStruct := s.defs.structs[s.inStruct] + Fields(fields)]))
    decreases |fields|
  {
    hide IsDirective, FieldOf;
    var m, n := s.defs.structs, s.inStruct;
    if fields == [] {
      assert m[n] + Fields([]) == m[n];
      assert m[n := m[n]] == m;
    } else {
      var f := fields[0];
      FieldRead(f);
      assert PdefEnums.Member(f.Line());
      assert FieldLines(fields)[1..] == FieldLines(fields[1..]);
      var next := Read(s, f.Line());
      StructRead(next, fields[1..]);
      var one := Field(f.kind, f.name);
      assert m[n] + [one] + Fields(fields[1..]) == m[n] + Fields(fields);
      assert m[n := m[n] + [one]][n := m[n] + Fields(fields)] == m[n := m[n] + Fields(fields)];
    }
  }

  lemma EnumStart(s: State, gap: string, name: string)
    requires s.Reading? && Wide(gap) && Name(name)
    ensures Read(s, "$ENUM_START" + (gap + name)) == Reading(s.defs.(enums := s.defs.enums[name := 0]), [], name)
  {
    hide Name, IsIdentifier, Trim, FieldOf;
    var e := "$ENUM_START" + (gap + name);
    assert e[..11] == "$ENUM_START" && e[11] == gap[0] && e[11..] == gap + name;
    NameTrimmed(gap, name);
    NameExactly(name);
  }

  lemma StructStart(s: State, gap: string, name: string)
    requires s.Reading? && Wide(gap) && Name(name)
    ensures Read(s, "$STRUCT_START" + (gap + name)) == Reading(s.defs.(structs := s.defs.structs[name := []]), name, [])
  {
    hide Name, IsIdentifier, Trim, FieldOf;
    var t := "$STRUCT_START" + (gap + name);
    assert t[..13] == "$STRUCT_START" && t[13] == gap[0] && t[13..] == gap + name;
    assert t[1] == 'S' && t != "$ENUM_END";
    assert !IsDirective(t, "$ENUM_START") by {
      assert t[..11][1] == 'S' && "$ENUM_START"[1] == 'E';
    }
    NameTrimmed(gap, name);
    NameExactly(name);
  }

  lemma NameTrimmed(gap: string, name: string)
    requires Wide(gap) && Name(name)
    ensures Trim(gap + name) == name
  {
    NameExactly(name);
    PdefEnums.Characters(name);
    WideBlanks(gap);
    hide Blanks;
    NoBlanks();
    AllTrimmed(gap, name, "");
    assert gap + name + "" == gap + name;
  }

  lemma EndsRead(s: State)
    requires s.Reading?
    ensures Read(s, "$ENUM_END") == s.(inEnum := [])
    ensures Read(s, "$STRUCT_END") == s.(inStruct := [])
  {
    assert "$ENUM_END"[6] != "$ENUM_START"[6] && "$STRUCT_END"[8] != "$STRUCT_START"[8];
    assert !IsDirective("$ENUM_END", "$ENUM_START");
    assert |"$STRUCT_END"| < 13;
    assert !IsDirective("$STRUCT_END", "$ENUM_START") by {
      assert "$STRUCT_END"[..11][1] == 'S' && "$ENUM_START"[1] == 'E';
    }
  }

  lemma OneBare(s: State, line: string)
    ensures ReadBare(s, [line]) == Read(s, line)
  {
    hide Read;
    assert [line][1..] == [];
  }

  lemma ThreeBare(s: State, first: string, lines: seq<string>, last: string)
    ensures ReadBare(s, [first] + lines + [last]) == Read(ReadBare(Read(s, first), lines), last)
  {
    hide Read;
    BareAppended(s, [first] + lines, [last]);
    BareAppended(s, [first], lines);
    OneBare(s, first);
    OneBare(ReadBare(Read(s, first), lines), last);
  }

  lemma EnumRead(d: Defs, gap: string, name: string, members: seq<string>)
    requires Enumeration(gap, name, members).Valid()
    ensures var p := Enumeration(gap, name, members); ReadBare(Reading(d, [], []), p.Lines()) == Reading(p.Into(d), [], [])
  {
    hide Read, ReadBare, Wide, Bare, Name, PdefEnums.Member;
    ThreeBare(Reading(d, [], []), "$ENUM_START" + (gap + name), members, "$ENUM_END");
    EnumStart(Reading(d, [], []), gap, name);
    NameIsSome(name);
    MembersRead(Reading(d.(enums := d.enums[name := 0]), [], name), members);
    assert d.enums[name := 0][name := |members|] == d.enums[name := |members|];
    EndsRead(Reading(d.(enums := d.enums[name := |members|]), [], name));
  }

  lemma StructureRead(d: Defs, gap: string, name: string, fields: seq<Declared>)
    requires Structure(gap, name, fields).Valid()
    ensures var p := Structure(gap, name, fields); ReadBare(Reading(d, [], []), p.Lines()) == Reading(p.Into(d), [], [])
  {
    hide Read, ReadBare, Wide, Bare, Name, Declared.Valid, Declared.Line;
    ThreeBare(Reading(d, [], []), "$STRUCT_START" + (gap + name), FieldLines(fields), "$STRUCT_END");
    StructStart(Reading(d, [], []), gap, name);
    NameIsSome(name);
    StructRead(Reading(d.(structs := d.structs[name := []]), name, []), fields);
    assert [] + Fields(fields) == Fields(fields);
    assert d.structs[name := []][name := Fields(fields)] == d.structs[name := Fields(fields)];
    EndsRead(Reading(d.(structs := d.structs[name := Fields(fields)]), name, []));
  }

  lemma PartRead(d: Defs, p: Part)
    requires p.Valid()
    ensures ReadBare(Reading(d, [], []), p.Lines()) == Reading(p.Into(d), [], [])
  {
    hide Read, ReadBare, Wide, Bare, Name, PdefEnums.Member, FieldOf, Declared.Valid, Part.Into;
    match p
    case Enumeration(gap, name, members) => EnumRead(d, gap, name, members);
    case Structure(gap, name, fields) => StructureRead(d, gap, name, fields);
    case Property(field) => PropertyRead(d, field);
  }

  lemma PropertyRead(d: Defs, f: Declared)
    requires f.Valid()
    ensures ReadBare(Reading(d, [], []), Property(f).Lines()) == Reading(Property(f).Into(d), [], [])
  {
    hide Read, ReadBare, Declared.Valid;
    OneBare(Reading(d, [], []), f.Line());
    FieldRead(f);
    TopRead(d, f);
  }

  lemma NameIsSome(name: string)
    requires Name(name)
    ensures name != ""
  {
  }

  lemma TopRead(d: Defs, f: Declared)
    requires f.Valid() && FieldOf(f.Line()) == Some(Field(f.kind, f.name))
    ensures Read(Reading(d, [], []), f.Line()) == Reading(Property(f).Into(d), [], [])
  {
    hide FieldOf, IsDirective, Bare;
  }

  lemma {:induction false} PartsRead(d: Defs, parts: seq<Part>)
    requires AllValid(parts)
    ensures ReadBare(Reading(d, [], []), AllLines(parts)) == Reading(Meaning(d, parts), [], [])
    decreases |parts|
  {
    hide Read;
    if parts != [] {
      assert parts[0].Valid();
      PartRead(d, parts[0]);
      BareAppended(Reading(d, [], []), parts[0].Lines(), AllLines(parts[1..]));
      PartsRead(parts[0].Into(d), parts[1..]);
    }
  }

  // ---------- The text ----------

  lemma SlashlessBare(line: string)
    requires line != "" && !IsSpace(line[0]) && !IsSpace(line[|line| - 1]) && forall i :: 0 <= i < |line| ==> line[i] != '/'
    ensures Bare(line)
  {
    SpaceIs(line[0]);
    SpaceIs(line[|line| - 1]);
    hide Blanks;
  }

  lemma WordsBare()
    ensures Bare("$ENUM_END") && Bare("$STRUCT_END")
  {
    SlashlessBare("$ENUM_END");
    SlashlessBare("$STRUCT_END");
  }

  lemma StartBare(word: string, gap: string, name: string)
    requires word != "" && word[0] == '$' && (forall i :: 0 <= i < |word| ==> word[i] != '/')
    requires Wide(gap) && Name(name)
    ensures Bare(word + (gap + name))
  {
    NameExactly(name);
    PdefEnums.Characters(name);
    NoSlash(name);
    NameIsSome(name);
    hide IsIdentifier, Name, Bare;
    var line := word + (gap + name);
    assert line[|line| - 1] == name[|name| - 1] && line[0] == '$';
    SlashlessBare(line);
  }

  lemma NoSlash(name: string)
    requires IsIdentifier(name)
    ensures forall i :: 0 <= i < |name| ==> name[i] != '/'
  {
  }

  lemma PartBare(p: Part)
    requires p.Valid()
    ensures forall i :: 0 <= i < |p.Lines()| ==> Bare(p.Lines()[i])
  {
    hide Bare, Wide, Name, PdefEnums.Member;
    WordsBare();
    match p
    case Enumeration(gap, name, _) => StartBare("$ENUM_START", gap, name);
    case Structure(gap, name, _) => StartBare("$STRUCT_START", gap, name);
    case Property(_) =>
  }

  lemma {:induction false} AllBare(parts: seq<Part>)
    requires AllValid(parts)
    ensures forall i :: 0 <= i < |AllLines(parts)| ==> Bare(AllLines(parts)[i])
    decreases |parts|
  {
    hide Bare;
    if parts != [] {
      assert parts[0].Valid();
      PartBare(parts[0]);
      AllBare(parts[1..]);
    }
  }

  // The text of the lines, the last line feed there or not.
  ghost predicate TextOf(text: string, raws: seq<string>) {
    && OneLiners(raws)
    && (text == Joined(raws) || (text != "" && text[|text| - 1] != '\n' && text + "\n" == Joined(raws)))
  }

  lemma {:induction false} DroppedRead(s: State, raws: seq<string>)
    ensures ReadAll(s, Dropped(raws)) == ReadAll(s, raws)
    decreases |raws|
  {
    hide Read, Significant, DropCr;
    if raws != [] {
      SignificantCr(raws[0]);
      assert Dropped(raws)[1..] == Dropped(raws[1..]);
      DroppedRead(Read(s, Significant(raws[0])), raws[1..]);
    }
  }

  // Declarations are read as they are meant, whatever blanks, comments and empty lines there are.
  lemma DefinitionRead(text: string, raws: seq<string>, parts: seq<Part>)
    requires AllValid(parts) && Dress(raws, AllLines(parts)) && TextOf(text, raws)
    ensures ReadText(text) == Reading(Meaning(Defs(map[], map[], []), parts), [], [])
  {
    hide Bare, Dress, ReadAll, ReadBare, Lines, Joined;
    JoinedLines(raws);
    if text != Joined(raws) {
      hide LinesFrom;
      EndLineLines(text);
    }
    DroppedRead(NOTHING, raws);
    AllBare(parts);
    DressRead(NOTHING, raws, AllLines(parts));
    PartsRead(Defs(map[], map[], []), parts);
  }
}
