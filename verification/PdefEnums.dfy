// What additions to an enumeration do to a persistence definition.
module PdefEnums {
  import opened Options
  import opened PdefText
  import opened PdefSize
  import opened PdefApply

  // A line that counts as a member inside an enumeration.
  predicate Member(line: string) {
    line != [] && !Directive(line)
  }

  predicate Directive(line: string) {
    IsDirective(line, "$ENUM_START") || line == "$ENUM_END" || IsDirective(line, "$STRUCT_START") || line == "$STRUCT_END"
  }

  ghost predicate Members(lines: seq<string>) {
    forall i :: 0 <= i < |lines| ==> Member(Significant(lines[i]))
  }

  // The line starts the enumeration of that name, again perhaps.
  predicate Starts(line: string, name: string) {
    IsDirective(line, "$ENUM_START") && Trim(line[11..]) == name
  }

  ghost predicate Restarts(lines: seq<string>, name: string) {
    exists i :: 0 <= i < |lines| && Starts(Significant(lines[i]), name)
  }

  function CountOf(d: Defs, name: string): nat {
    if name in d.enums then d.enums[name] else 0
  }

  // The same but for n more members of one enumeration.
  function More(s: State, name: string, n: nat): State {
    if s.Broken? then s else s.(defs := s.defs.(enums := s.defs.enums[name := CountOf(s.defs, name) + n]))
  }

  // A block of n member lines adds n to its enumeration's count and changes nothing else.
  lemma {:induction false} MembersRead(s: State, lines: seq<string>)
    requires s.Reading? && s.inEnum != [] && s.inEnum in s.defs.enums && Members(lines)
    ensures ReadAll(s, lines) == More(s, s.inEnum, |lines|)
    decreases |lines|
  {
    hide Significant, IsDirective, FieldOf;
    if lines == [] {
      assert s.defs.enums[s.inEnum := s.defs.enums[s.inEnum]] == s.defs.enums;
    } else {
      assert Member(Significant(lines[0]));
      var next := Read(s, Significant(lines[0]));
      MembersRead(next, lines[1..]);
      var e, n := s.defs.enums, s.inEnum;
      assert e[n := e[n] + 1][n := e[n] + 1 + (|lines| - 1)] == e[n := e[n] + |lines|];
    }
  }

  lemma ThreeParts(s: State, first: string, lines: seq<string>, last: string)
    ensures ReadAll(s, [first] + lines + [last]) == ReadAll(ReadAll(Read(s, Significant(first)), lines), [last])
  {
    hide Read, Significant;
    var all := [first] + lines + [last];
    assert all[0] == first && all[1..] == lines + [last];
    ReadAppended(Read(s, Significant(first)), lines, [last]);
  }

  lemma FullBlock(s: State, begun: State, full: State, name: string, n: nat)
    requires s.Reading? && begun == Reading(s.defs.(enums := s.defs.enums[name := 0]), [], name) && full == More(begun, name, n)
    ensures full == Reading(s.defs.(enums := s.defs.enums[name := n]), [], name)
  {
    assert s.defs.enums[name := 0][name := n] == s.defs.enums[name := n];
  }

  lemma BlockRead(s: State, start: string, lines: seq<string>, name: string)
    requires s.Reading? && Significant(start) == "$ENUM_START " + name && IsIdentifier(name) && Members(lines)
    ensures ReadAll(s, [start] + lines + ["$ENUM_END"]) == Reading(s.defs.(enums := s.defs.enums[name := |lines|]), [], [])
  {
    hide Significant, IsIdentifier, Members, Trim, Read, ReadAll;
    StartRead(s, "$ENUM_START " + name, name);
    NotEmpty(name);
    var begun := Read(s, Significant(start));
    ThreeParts(s, start, lines, "$ENUM_END");
    MembersRead(begun, lines);
    var full := ReadAll(begun, lines);
    FullBlock(s, begun, full, name, |lines|);
    EndRead(full);
  }

  lemma NotEmpty(name: string)
    requires IsIdentifier(name)
    ensures name != []
  {
  }

  // An enumeration of n member lines has n members: a field of that dimension is n long.
  lemma BlockDimension(s: State, start: string, lines: seq<string>, name: string)
    requires s.Reading? && Significant(start) == "$ENUM_START " + name && IsIdentifier(name) && Members(lines)
    ensures var t := ReadAll(s, [start] + lines + ["$ENUM_END"]);
            && t.Reading? && t.inEnum == [] && t.inStruct == []
            && t.defs == s.defs.(enums := s.defs.enums[name := |lines|])
            && forall field :: IsIdentifier(field) && PositiveSize(name).None? ==>
                 Dimension(t.defs.enums, field + "[" + name + "]") == Some(|lines|)
  {
    hide Significant, Dimension, IsIdentifier, ReadAll, Members, Trim, PositiveSize;
    BlockRead(s, start, lines, name);
    var t := ReadAll(s, [start] + lines + ["$ENUM_END"]);
    forall field | IsIdentifier(field) && PositiveSize(name).None?
      ensures Dimension(t.defs.enums, field + "[" + name + "]") == Some(|lines|)
    {
      NamedDimension(t.defs.enums, field, name);
    }
  }

  lemma EndRead(s: State)
    requires s.Reading?
    ensures Significant("$ENUM_END") == "$ENUM_END"
    ensures ReadAll(s, ["$ENUM_END"]) == s.(inEnum := [])
  {
    SignificantWord("$ENUM_END");
    hide Significant;
    assert ["$ENUM_END"][1..] == [];
    assert "$ENUM_END"[6] != "$ENUM_START"[6];
    assert !IsDirective("$ENUM_END", "$ENUM_START");
  }

  // A text without spaces and slashes is its own significant part.
  lemma SignificantWord(s: string)
    requires forall i :: 0 <= i < |s| ==> !IsSpace(s[i]) && s[i] != '/'
    ensures Significant(s) == s
  {
    NoComment(s, 0);
    assert s[..|s|] == s;
  }

  lemma {:induction false} NoComment(s: string, from: nat)
    requires from <= |s| && forall i :: from <= i < |s| ==> s[i] != '/'
    ensures Comment(s, from) == |s|
    decreases |s| - from
  {
    if from + 1 < |s| {
      NoComment(s, from + 1);
    }
  }

  lemma StartRead(s: State, line: string, name: string)
    requires s.Reading? && line == "$ENUM_START " + name && IsIdentifier(name)
    ensures Read(s, line) == Reading(s.defs.(enums := s.defs.enums[name := 0]), [], name) && Starts(line, name)
  {
    assert line[..11] == "$ENUM_START" && line[11] == ' ' && line[11..] == " " + name;
    TrimName(name);
  }

  lemma TrimName(name: string)
    requires IsIdentifier(name)
    ensures Trim(" " + name) == name
  {
    assert (" " + name)[1..] == name;
    assert !IsSpace(name[0]) && !IsSpace(name[|name| - 1]);
    assert TrimLeft(name) == name && TrimRight(name) == name;
  }

  lemma Characters(s: string)
    requires IsIdentifier(s)
    ensures forall i :: 0 <= i < |s| ==> s[i] != '[' && s[i] != ']' && !IsSpace(s[i])
  {
  }

  lemma TrimWord(name: string)
    requires forall i :: 0 <= i < |name| ==> !IsSpace(name[i])
    ensures Trim(name) == name
  {
  }

  lemma NamedDimension(enums: map<string, nat>, field: string, name: string)
    requires IsIdentifier(field) && IsIdentifier(name) && PositiveSize(name).None? && name in enums
    ensures Dimension(enums, field + "[" + name + "]") == Some(enums[name])
  {
    var s := field + "[" + name + "]";
    Characters(field);
    Characters(name);
    FindFirst(s, '[', 0, |field|);
    FindFirst(s, ']', |field| + 1, |field| + 1 + |name|);
    assert s[..|field|] == field && s[|field| + 1..|field| + 1 + |name|] == name;
    hide Find, IsIdentifier;
    TrimWord(name);
  }

  // ---------- Additions ----------

  lemma StartLater(s: State, line: string, name: string, n: nat)
    requires s.Reading? && name in s.defs.enums && line != [] && IsDirective(line, "$ENUM_START") && IsIdentifier(name)
    ensures var a, b := Read(s, line), Read(More(s, name, n), line);
            && (a.Reading? ==> name in a.defs.enums)
            && if Starts(line, name) then b == a else b == More(a, name, n)
  {
    assert |line| >= 11;
    hide IsDirective, Trim, IsIdentifier;
    var e, other := s.defs.enums, Trim(line[11..]);
    assert e[name := e[name] + n][name := 0] == e[name := 0];
    assert other != name ==> e[name := e[name] + n][other := 0] == e[other := 0][name := e[name] + n];
  }

  lemma PlainLater(s: State, line: string, name: string, n: nat)
    requires s.Reading? && name in s.defs.enums && line != [] && !IsDirective(line, "$ENUM_START")
    requires IsDirective(line, "$STRUCT_START") || line == "$ENUM_END" || line == "$STRUCT_END" || s.inEnum == []
    ensures var a := Read(s, line); Read(More(s, name, n), line) == More(a, name, n) && (a.Reading? ==> name in a.defs.enums)
  {
    hide IsDirective, FieldOf, Trim, IsIdentifier;
  }

  lemma MemberLater(e: map<string, nat>, into: string, name: string, n: nat)
    requires name in e
    ensures var f := e[name := e[name] + n];
            var c, d := if into in e then e[into] else 0, if into in f then f[into] else 0;
            var g := e[into := c + 1];
            f[into := d + 1] == g[name := g[name] + n]
  {
  }

  // One more line read where an enumeration has n more members.
  lemma LineLater(s: State, line: string, name: string, n: nat)
    requires s.Reading? ==> name in s.defs.enums
    requires IsIdentifier(name)
    ensures var a, b := Read(s, line), Read(More(s, name, n), line);
            && (a.Reading? ==> name in a.defs.enums)
            && if s.Reading? && Starts(line, name) then b == a else b == More(a, name, n)
  {
    assert line == [] ==> !IsDirective(line, "$ENUM_START");
    hide IsDirective, FieldOf, Trim, IsIdentifier;
    if s.Reading? && line != [] {
      if IsDirective(line, "$ENUM_START") {
        StartLater(s, line, name, n);
      } else if IsDirective(line, "$STRUCT_START") || line == "$ENUM_END" || line == "$STRUCT_END" || s.inEnum == [] {
        PlainLater(s, line, name, n);
      } else {
        MemberLater(s.defs.enums, s.inEnum, name, n);
      }
    }
  }

  // What more members of an enumeration do to the rest of a text: nothing if it is started again, else they stay.
  lemma {:induction false} RestLater(s: State, lines: seq<string>, name: string, n: nat)
    requires s.Reading? ==> name in s.defs.enums
    requires IsIdentifier(name)
    ensures ReadAll(More(s, name, n), lines) == if Restarts(lines, name) then ReadAll(s, lines) else More(ReadAll(s, lines), name, n)
    decreases |lines|
  {
    hide Read, Significant, Starts, IsIdentifier;
    if lines != [] {
      var line := Significant(lines[0]);
      LineLater(s, line, name, n);
      RestAgain(lines, name);
      if s.Broken? {
        BrokenStays(lines);
      } else if !Starts(line, name) {
        RestLater(Read(s, line), lines[1..], name, n);
      }
    }
  }

  lemma RestAgain(lines: seq<string>, name: string)
    requires lines != []
    ensures Restarts(lines, name) <==> Starts(Significant(lines[0]), name) || Restarts(lines[1..], name)
  {
    hide Starts, Significant;
    if i :| 0 <= i < |lines| && Starts(Significant(lines[i]), name) {
      if i > 0 {
        assert lines[1..][i - 1] == lines[i];
      }
    }
  }

  lemma {:induction false} BrokenStays(lines: seq<string>)
    ensures ReadAll(Broken, lines) == Broken
    decreases |lines|
  {
    hide Significant;
    if lines != [] {
      BrokenStays(lines[1..]);
    }
  }

  // An enumeration's end is at the start of a line.
  lemma {:induction false} EndAtLine(text: string, name: string, start: nat, inside: bool)
    requires start <= |text| && EnumEnd(text, name, start, inside).Some?
    ensures var end := EnumEnd(text, name, start, inside).value;
            start <= end <= |text| && (end == start || text[end - 1] == '\n') && (!inside ==> end > start)
    decreases |text| - start
  {
    hide Significant, DropCr;
    var newline := Find(text, '\n', start);
    var line := Significant(DropCr(text[start..newline]));
    if !(inside && line == "$ENUM_END") && start < |text| {
      EndAtLine(text, name, newline + 1, inside || line == "$ENUM_START " + name);
    }
  }

  // A text with lines put in at the start of one of its lines.
  lemma InsertedLines(text: string, end: nat, lines: seq<string>)
    requires 0 < end <= |text| && text[end - 1] == '\n' && OneLiners(lines)
    ensures Lines(text[..end] + Joined(lines) + text[end..]) == Lines(text[..end]) + Dropped(lines) + Lines(text[end..])
    ensures Lines(text) == Lines(text[..end]) + Lines(text[end..])
  {
    hide Lines, DropCr, Dropped, OneLiners;
    JoinedLines(lines);
    JoinedEnds(lines);
    LinesThen(text[..end] + Joined(lines), text[end..]);
    LinesThen(text[..end], Joined(lines));
    LinesThen(text[..end], text[end..]);
    assert text == text[..end] + text[end..];
    assert text[..end][end - 1] == '\n';
  }

  lemma {:induction false} JoinedEnds(lines: seq<string>)
    ensures Joined(lines) == [] || Joined(lines)[|Joined(lines)| - 1] == '\n'
    decreases |lines|
  {
    if lines != [] {
      JoinedEnds(lines[1..]);
    }
  }

  // What has been read where an addition goes: the enumeration it is for, being read.
  ghost predicate Receives(text: string, name: string) {
    var end := EnumEnd(text, name, 0, false);
    && end.Some?
    && var s := ReadAll(NOTHING, Lines(text[..end.value]));
       s.Reading? && s.inEnum == name && name in s.defs.enums
  }

  // Among the lines, or already, there is the start of the enumeration, one blank before its name, and an end behind it.
  ghost predicate Ends(lines: seq<string>, name: string, inside: bool) {
    exists j :: 0 <= j < |lines| && Significant(lines[j]) == "$ENUM_END" && (inside || StartsBefore(lines, name, j))
  }

  ghost predicate StartsBefore(lines: seq<string>, name: string, j: int) {
    exists i :: 0 <= i < j && i < |lines| && Significant(lines[i]) == "$ENUM_START " + name
  }

  lemma EndsLater(x: string, rest: seq<string>, name: string, inside: bool)
    ensures Ends([x] + rest, name, inside) <==>
            (inside && Significant(x) == "$ENUM_END") || Ends(rest, name, inside || Significant(x) == "$ENUM_START " + name)
  {
    hide Significant;
    var lines, starts := [x] + rest, Significant(x) == "$ENUM_START " + name;
    forall j | 0 <= j < |rest| ensures StartsBefore(lines, name, j + 1) <==> starts || StartsBefore(rest, name, j) {
      if i :| 0 <= i < j && Significant(rest[i]) == "$ENUM_START " + name {
        assert lines[i + 1] == rest[i];
      }
      if starts {
        assert lines[0] == x;
      }
    }
    if Ends(lines, name, inside) {
      var j :| 0 <= j < |lines| && Significant(lines[j]) == "$ENUM_END" && (inside || StartsBefore(lines, name, j));
      if j > 0 {
        assert rest[j - 1] == lines[j];
      }
    }
    if inside && Significant(x) == "$ENUM_END" {
      assert lines[0] == x;
    }
    if Ends(rest, name, inside || starts) {
      var j :| 0 <= j < |rest| && Significant(rest[j]) == "$ENUM_END" && (inside || starts || StartsBefore(rest, name, j));
      assert lines[j + 1] == rest[j];
    }
  }

  lemma {:induction false} EndFrom(text: string, name: string, start: nat, inside: bool)
    requires start <= |text|
    ensures EnumEnd(text, name, start, inside).Some? <==> Ends(LinesFrom(text, start), name, inside)
    decreases |text| - start
  {
    hide Significant, DropCr, Ends, LinesFrom, EnumEnd;
    if start == |text| {
      NoLines(text);
      EnumEndNone(text, name, inside);
      NoEnds(name, inside);
    } else {
      var newline := Find(text, '\n', start);
      LinesNext(text, start, newline);
      EnumEndNext(text, name, start, newline, inside);
      var x := DropCr(text[start..newline]);
      EndsLater(x, if newline == |text| then [] else LinesFrom(text, newline + 1), name, inside);
      if newline == |text| {
        NoEnds(name, inside || Significant(x) == "$ENUM_START " + name);
      } else {
        EndFrom(text, name, newline + 1, inside || Significant(x) == "$ENUM_START " + name);
      }
    }
  }

  lemma NoEnds(name: string, inside: bool)
    ensures !Ends([], name, inside)
  {
  }

  // An addition finds its place exactly when some line starts the enumeration and a later one ends one.
  lemma EndExactly(text: string, name: string)
    ensures EnumEnd(text, name, 0, false).Some? <==> Ends(Lines(text), name, false)
  {
    EndFrom(text, name, 0, false);
  }

  // An addition of n lines: the enumeration of that name has n more members, unless the text starts it anew later, and
  // everything else reads as before.
  lemma EnumAdded(text: string, add: EnumAdd)
    requires IsIdentifier(add.name) && Receives(text, add.name) && OneLiners(add.lines) && Members(add.lines)
    ensures WithEnums(text, [add]).Some?
    ensures var rest := Lines(text[EnumEnd(text, add.name, 0, false).value..]);
            ReadText(WithEnums(text, [add]).value) ==
            if Restarts(rest, add.name) then ReadText(text) else More(ReadText(text), add.name, |add.lines|)
  {
    hide Lines, Significant, ReadAll, Members, OneLiners, IsIdentifier, Dropped, Joined;
    var end := EnumEnd(text, add.name, 0, false).value;
    EndAtLine(text, add.name, 0, false);
    hide EnumEnd;
    InsertedLines(text, end, add.lines);
    var a, b, rest := Lines(text[..end]), Dropped(add.lines), Lines(text[end..]);
    var s := ReadAll(NOTHING, a);
    ReadAppended(NOTHING, a + b, rest);
    ReadAppended(NOTHING, a, b);
    ReadAppended(NOTHING, a, rest);
    DroppedMembers(add.lines);
    NotEmpty(add.name);
    MembersRead(s, b);
    RestLater(s, rest, add.name, |b|);
    OneAddition(text, add, end);
  }

  lemma OneAddition(text: string, add: EnumAdd, end: nat)
    requires EnumEnd(text, add.name, 0, false) == Some(end)
    ensures end <= |text| && WithEnums(text, [add]) == Some(text[..end] + Joined(add.lines) + text[end..])
  {
    assert [add][1..] == [];
    hide EnumEnd, Joined;
  }

  lemma {:induction false} DroppedMembers(lines: seq<string>)
    requires Members(lines)
    ensures Members(Dropped(lines))
    decreases |lines|
  {
    hide Significant, DropCr, Member;
    if lines != [] {
      SignificantCr(lines[0]);
      var rest := lines[1..];
      assert forall i :: 0 <= i < |rest| ==> rest[i] == lines[i + 1];
      DroppedMembers(rest);
      var r := Dropped(lines);
      assert Member(Significant(lines[0]));
      forall i | 0 <= i < |r| ensures Member(Significant(r[i])) {
        assert i > 0 ==> r[i] == Dropped(rest)[i - 1];
      }
    }
  }

  // An addition's lines are members: the change is refused if one is a directive.
  lemma {:induction false} AddedMembers(c: Change, lines: seq<string>)
    requires c.Change? ==> forall k :: 0 <= k < |c.enums| ==> Members(c.enums[k].lines) && IsIdentifier(c.enums[k].name)
    ensures var r := ReadChanges(c, lines);
            r.Change? ==> forall k :: 0 <= k < |r.enums| ==> Members(r.enums[k].lines) && IsIdentifier(r.enums[k].name)
    decreases |lines|
  {
    hide Significant, IsDirective, Trim, IsIdentifier;
    if lines != [] {
      OneAdded(c, lines[0]);
      hide ReadChange, Members;
      AddedMembers(ReadChange(c, lines[0]), lines[1..]);
    }
  }

  lemma OneAdded(c: Change, raw: string)
    requires c.Change? ==> forall k :: 0 <= k < |c.enums| ==> Members(c.enums[k].lines) && IsIdentifier(c.enums[k].name)
    ensures var r := ReadChange(c, raw);
            r.Change? ==> forall k :: 0 <= k < |r.enums| ==> Members(r.enums[k].lines) && IsIdentifier(r.enums[k].name)
  {
    hide Significant, Trim, IsIdentifier;
    NoDirective(Significant(raw));
    hide Member;
  }

  lemma NoDirective(line: string)
    ensures line != [] && !StartsWith(line, "$") ==> Member(line)
  {
    if line != [] {
      assert line[..1] == [line[0]];
    }
  }

  // ---------- When an addition is received ----------

  // The lines before the end of an enumeration that nothing interrupts: its own start, then no directive.
  lemma UninterruptedReceives(text: string, name: string, before: seq<string>, start: string, within: seq<string>)
    requires IsIdentifier(name) && EnumEnd(text, name, 0, false).Some?
    requires Lines(text[..EnumEnd(text, name, 0, false).value]) == before + [start] + within
    requires Significant(start) == "$ENUM_START " + name && ReadAll(NOTHING, before).Reading?
    requires forall i :: 0 <= i < |within| ==> !Directive(Significant(within[i]))
    ensures Receives(text, name)
  {
    hide EnumEnd, Lines, Significant, IsIdentifier, ReadAll, Read, Trim, Directive;
    var s := ReadAll(NOTHING, before);
    StartRead(s, "$ENUM_START " + name, name);
    ReadAppended(NOTHING, before + [start], within);
    ReadAppended(NOTHING, before, [start]);
    OneRead(s, start);
    WithinStays(Read(s, Significant(start)), within, name);
  }

  lemma OneRead(s: State, line: string)
    ensures ReadAll(s, [line]) == Read(s, Significant(line))
  {
    hide Read, Significant;
    assert [line][1..] == [];
  }

  lemma {:induction false} WithinStays(s: State, lines: seq<string>, name: string)
    requires s.Reading? && s.inEnum == name && name in s.defs.enums && IsIdentifier(name)
    requires forall i :: 0 <= i < |lines| ==> !Directive(Significant(lines[i]))
    ensures var t := ReadAll(s, lines); t.Reading? && t.inEnum == name && name in t.defs.enums
    decreases |lines|
  {
    hide Significant, IsDirective, FieldOf;
    if lines != [] {
      assert !Directive(Significant(lines[0]));
      WithinStays(Read(s, Significant(lines[0])), lines[1..], name);
    }
  }

  // ---------- Sizes of the types that need no structure ----------

  // Four bytes for numbers, one for a truth value or a member of an enumeration.
  lemma BuiltIn(d: Defs)
    ensures KindOf(d, "int") == Fixed(4) && KindOf(d, "float") == Fixed(4) && KindOf(d, "bool") == Fixed(1)
    ensures forall name :: name in d.enums && name != "int" && name != "float" ==> KindOf(d, name) == Fixed(1)
  {
  }

  // The value of decimal digits.
  function DigitsValue(s: string): nat
    requires forall i :: 0 <= i < |s| ==> '0' <= s[i] <= '9'
    decreases |s|
  {
    if s == "" then 0 else 10 * DigitsValue(s[..|s| - 1]) + (s[|s| - 1] as nat - 48)
  }

  lemma {:induction false} DecimalIs(s: string)
    requires forall i :: 0 <= i < |s| ==> '0' <= s[i] <= '9'
    ensures Decimal(s) == if DigitsValue(s) <= 0xffff_ffff_ffff_ffff then Some(DigitsValue(s)) else None
    decreases |s|
  {
    if s != "" {
      DecimalIs(s[..|s| - 1]);
    }
  }

  // A string type takes as many bytes as the number in its braces says.
  lemma StringSize(d: Defs, digits: string)
    requires digits != "" && forall i :: 0 <= i < |digits| ==> '0' <= digits[i] <= '9'
    requires "string{" + digits + "}" !in d.enums && 0 < DigitsValue(digits) <= 0xffff_ffff_ffff_ffff
    ensures KindOf(d, "string{" + digits + "}") == Fixed(DigitsValue(digits))
  {
    var name := "string{" + digits + "}";
    DecimalIs(digits);
    hide Decimal, DigitsValue;
    assert name[..7] == "string{" && name[|name| - 1] == '}' && name[7..|name| - 1] == digits;
    assert name[0] == 's' && |name| > 5;
  }

  // ---------- Declarations ----------

  // A name alone declares one.
  lemma PlainDimension(enums: map<string, nat>, field: string)
    requires IsIdentifier(field)
    ensures Dimension(enums, field) == Some(1)
  {
    Characters(field);
    hide IsIdentifier;
    assert Find(field, '[', 0) == |field|;
  }

  // A number in brackets declares so many.
  lemma NumberDimension(enums: map<string, nat>, field: string, digits: string)
    requires IsIdentifier(field) && digits != "" && forall i :: 0 <= i < |digits| ==> '0' <= digits[i] <= '9'
    requires 0 < DigitsValue(digits) <= 0xffff_ffff_ffff_ffff
    ensures Dimension(enums, field + "[" + digits + "]") == Some(DigitsValue(digits))
  {
    var s := field + "[" + digits + "]";
    Characters(field);
    FindFirst(s, '[', 0, |field|);
    FindFirst(s, ']', |field| + 1, |field| + 1 + |digits|);
    assert s[..|field|] == field && s[|field| + 1..|field| + 1 + |digits|] == digits;
    hide Find, IsIdentifier;
    TrimWord(digits);
    DecimalIs(digits);
    hide Decimal, DigitsValue, Trim;
  }

  // A type, a blank and a name declare a field of that type and name.
  lemma DeclarationRead(kind: string, name: string)
    requires forall i :: 0 <= i < |kind| ==> kind[i] != ' ' && kind[i] != '\t'
    requires name != "" && !IsSpace(name[0]) && !IsSpace(name[|name| - 1])
    ensures FieldOf(kind + " " + name) == Some(Field(kind, name)) && FieldOf(kind + "\t" + name) == Some(Field(kind, name))
  {
    GapAfter(kind, ' ', name);
    GapAfter(kind, '\t', name);
    hide FindGap;
    assert (kind + " " + name)[..|kind|] == kind && (kind + " " + name)[|kind| + 1..] == name;
    assert (kind + "\t" + name)[..|kind|] == kind && (kind + "\t" + name)[|kind| + 1..] == name;
    assert TrimLeft(name) == name && TrimRight(name) == name;
  }

  lemma {:induction false} GapAfter(kind: string, c: char, name: string)
    requires (c == ' ' || c == '\t') && forall i :: 0 <= i < |kind| ==> kind[i] != ' ' && kind[i] != '\t'
    ensures FindGap(kind + [c] + name, 0) == |kind|
  {
    GapFrom(kind + [c] + name, |kind|, 0);
  }

  lemma {:induction false} GapFrom(s: string, at: nat, from: nat)
    requires from <= at < |s| && (s[at] == ' ' || s[at] == '\t')
    requires forall i :: from <= i < at ==> s[i] != ' ' && s[i] != '\t'
    ensures FindGap(s, from) == at
    decreases at - from
  {
    if from < at {
      GapFrom(s, at, from + 1);
    }
  }
}
