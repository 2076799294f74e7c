// Mods' changes to a persistence definition, and what appended properties do to its size.
module PdefApply {
  import opened Options
  import opened PdefText
  import opened PdefSize

  // ---------- A change ----------

  datatype EnumAdd = EnumAdd(name: string, lines: seq<string>)

  // What has been read of a change; the last enumeration may still be open.
  datatype Change = BadChange | Change(enums: seq<EnumAdd>, open: bool, started: bool, properties: seq<string>)

  function ReadChange(c: Change, raw: string): Change {
    if c.BadChange? then c else
      var line := Significant(raw);
      if c.started then c.(properties := c.properties + [raw])
      else if c.open then
        if line == "$ENUM_END" then c.(open := false)
        else if StartsWith(line, "$") || c.enums == [] then BadChange
        else if line == [] then c
        else
          var last := c.enums[|c.enums| - 1];
          c.(enums := c.enums[..|c.enums| - 1] + [last.(lines := last.lines + [raw])])
      else if line == [] then c
      else if IsDirective(line, "$ENUM_ADD") then
        var name := Trim(line[9..]);
        if IsIdentifier(name) then c.(enums := c.enums + [EnumAdd(name, [])], open := true) else BadChange
      else if line == "$PROP_START" then c.(started := true)
      else BadChange
  }

  function ReadChanges(c: Change, lines: seq<string>): Change
    decreases |lines|
  {
    if lines == [] then c else ReadChanges(ReadChange(c, lines[0]), lines[1..])
  }

  function ParsedChange(text: string): Change {
    var c := ReadChanges(Change([], false, false, []), Lines(text));
    if c.BadChange? || c.open then BadChange else c
  }

  // Where the line that ends an enumeration starts.
  function EnumEnd(text: string, name: string, start: nat, inside: bool): (r: Option<nat>)
    requires start <= |text|
    ensures r.Some? ==> r.value <= |text|
    decreases |text| - start
  {
    if start == |text| then None else
      var newline := Find(text, '\n', start);
      var line := Significant(DropCr(text[start..newline]));
      if inside && line == "$ENUM_END" then Some(start)
      else if newline == |text| then None
      else EnumEnd(text, name, newline + 1, inside || line == "$ENUM_START " + name)
  }

  function Joined(lines: seq<string>): string
    decreases |lines|
  {
    if lines == [] then "" else lines[0] + "\n" + Joined(lines[1..])
  }

  function WithEnums(text: string, adds: seq<EnumAdd>): Option<string>
    decreases |adds|
  {
    if adds == [] then Some(text) else
      match EnumEnd(text, adds[0].name, 0, false)
      case None => None
      case Some(end) => WithEnums(text[..end] + Joined(adds[0].lines) + text[end..], adds[1..])
  }

  function EndLine(text: string): string {
    if text != [] && text[|text| - 1] != '\n' then text + "\n" else text
  }

  function WithProperties(text: string, name: string, lines: seq<string>): string {
    if lines == [] then text else EndLine(text) + "\n// $PROP_START " + name + "\n" + Joined(lines)
  }

  function Applied(pdef: string, pdiff: string, name: string): Option<string> {
    var c := ParsedChange(pdiff);
    if c.BadChange? then None else
      match WithEnums(pdef, c.enums)
      case None => None
      case Some(merged) => Some(WithProperties(merged, name, c.properties))
  }

  // ---------- Lines of joined texts ----------

  lemma {:induction false} FindPast(a: string, b: string, c: char, from: nat)
    requires from <= |b|
    ensures Find(a + b, c, |a| + from) == |a| + Find(b, c, from)
    decreases |b| - from
  {
    if from < |b| && b[from] != c {
      FindPast(a, b, c, from + 1);
    }
  }

  lemma {:induction false} LinesPast(a: string, b: string, from: nat)
    requires from <= |b|
    ensures LinesFrom(a + b, |a| + from) == LinesFrom(b, from)
    decreases |b| - from
  {
    hide LinesFrom, DropCr, Find;
    if from == |b| {
      assert |a + b| == |a| + |b|;
      NoLines(a + b);
      NoLines(b);
    } else {
      FindPast(a, b, '\n', from);
      var end := Find(b, '\n', from);
      LinesNext(b, from, end);
      LinesNext(a + b, |a| + from, |a| + end);
      assert (a + b)[|a| + from..|a| + end] == b[from..end];
      if end < |b| {
        LinesPast(a, b, end + 1);
        assert |a| + end + 1 == |a| + (end + 1);
      }
    }
  }

  lemma {:induction false} FindFirst(s: string, c: char, from: nat, i: nat)
    requires from <= i < |s| && s[i] == c && forall k :: from <= k < i ==> s[k] != c
    ensures Find(s, c, from) == i
    decreases i - from
  {
    if from < i {
      FindFirst(s, c, from + 1, i);
    }
  }

  // Lines up to the end of one, then the lines of what follows.
  lemma {:induction false} LinesAppend(a: string, b: string, from: nat)
    requires from <= |a| && (from == |a| || a[|a| - 1] == '\n')
    ensures LinesFrom(a + b, from) == LinesFrom(a, from) + LinesFrom(b, 0)
    decreases |a| - from
  {
    hide LinesFrom, DropCr;
    if from == |a| {
      LinesPast(a, b, 0);
      NoLines(a);
    } else {
      var end := Find(a, '\n', from);
      assert end < |a|;
      hide Find;
      FindFirst(a + b, '\n', from, end);
      LinesNext(a, from, end);
      LinesNext(a + b, from, end);
      assert (a + b)[from..end] == a[from..end];
      LinesAppend(a, b, end + 1);
    }
  }

  // A missing end of line adds no line.
  lemma {:induction false} LinesClosed(a: string, from: nat)
    requires from < |a| && a[|a| - 1] != '\n'
    ensures LinesFrom(a + "\n", from) == LinesFrom(a, from)
    decreases |a| - from
  {
    hide LinesFrom, DropCr;
    var end, t := Find(a, '\n', from), a + "\n";
    FindFirst(t, '\n', from, end);
    LinesNext(a, from, end);
    LinesNext(t, from, end);
    assert t[from..end] == a[from..end];
    if end < |a| {
      LinesClosed(a, end + 1);
    } else {
      NoLines(t);
    }
  }

  lemma EndLineLines(a: string)
    ensures Lines(EndLine(a)) == Lines(a)
    ensures EndLine(a) == [] || EndLine(a)[|EndLine(a)| - 1] == '\n'
  {
    if a != [] && a[|a| - 1] != '\n' {
      LinesClosed(a, 0);
    }
  }

  lemma OneLine(s: string)
    requires '\n' !in s
    ensures Lines(s + "\n") == [DropCr(s)]
  {
    FindFirst(s + "\n", '\n', 0, |s|);
    assert (s + "\n")[0..|s|] == s;
    assert LinesFrom(s + "\n", |s| + 1) == [];
  }

  lemma LineThen(s: string, b: string)
    requires '\n' !in s
    ensures Lines(s + "\n" + b) == [DropCr(s)] + Lines(b)
  {
    OneLine(s);
    LinesAppend(s + "\n", b, 0);
  }

  function Dropped(lines: seq<string>): (r: seq<string>)
    ensures |r| == |lines|
    decreases |lines|
  {
    if lines == [] then [] else [DropCr(lines[0])] + Dropped(lines[1..])
  }

  ghost predicate OneLiners(lines: seq<string>) {
    forall i :: 0 <= i < |lines| ==> '\n' !in lines[i]
  }

  lemma {:induction false} JoinedLines(lines: seq<string>)
    requires OneLiners(lines)
    ensures Lines(Joined(lines)) == Dropped(lines)
    decreases |lines|
  {
    if lines != [] {
      JoinedLines(lines[1..]);
      LineThen(lines[0], Joined(lines[1..]));
    }
  }

  lemma MarkOneLine(name: string)
    requires '\n' !in name
    ensures '\n' !in "// $PROP_START " + name
  {
  }

  lemma EmptyDrop()
    ensures DropCr("") == ""
  {
  }

  lemma LinesThen(a: string, b: string)
    requires a == [] || a[|a| - 1] == '\n'
    ensures Lines(a + b) == Lines(a) + Lines(b)
  {
    LinesAppend(a, b, 0);
  }

  lemma TextParts(head: string, name: string, rest: string)
    ensures head + "\n// $PROP_START " + name + "\n" + rest == head + ("" + "\n" + ("// $PROP_START " + name + "\n" + rest))
  {
    var mark := "// $PROP_START " + name;
    assert "\n// $PROP_START " == "\n" + "// $PROP_START ";
    assert head + "\n// $PROP_START " + name == head + "\n" + mark;
    assert head + "\n" + mark + "\n" + rest == head + ("\n" + (mark + "\n" + rest));
    assert "" + "\n" == "\n";
  }

  // The lines of the comment that names the mod: one, unless the name holds a line feed.
  function MarkLines(name: string): seq<string> {
    Lines("// $PROP_START " + name + "\n")
  }

  lemma OneMarkLine(name: string)
    requires '\n' !in name
    ensures MarkLines(name) == [DropCr("// $PROP_START " + name)]
  {
    MarkOneLine(name);
    OneLine("// $PROP_START " + name);
  }

  // The lines of a definition with properties appended.
  lemma PropertyLines(text: string, name: string, lines: seq<string>)
    requires lines != [] && OneLiners(lines)
    ensures Lines(WithProperties(text, name, lines)) == Lines(text) + [""] + MarkLines(name) + Dropped(lines)
  {
    hide Lines, EndLine, DropCr, Joined, Dropped;
    var head, mark, rest := EndLine(text), "// $PROP_START " + name, Joined(lines);
    EndLineLines(text);
    JoinedLines(lines);
    LinesThen(mark + "\n", rest);
    LineThen("", mark + "\n" + rest);
    EmptyDrop();
    LinesThen(head, "" + "\n" + (mark + "\n" + rest));
    TextParts(head, name, rest);
  }

  // ---------- Lines that only declare ----------

  // A line that is empty or declares a field outside every block.
  predicate Declares(line: string) {
    line == [] ||
    (&& !IsDirective(line, "$ENUM_START") && line != "$ENUM_END" && !IsDirective(line, "$STRUCT_START")
     && line != "$STRUCT_END" && FieldOf(line).Some?)
  }

  function FieldsOf(lines: seq<string>): seq<Field>
    decreases |lines|
  {
    if lines == [] then [] else
      var line := Significant(lines[0]);
      (if line != [] && FieldOf(line).Some? then [FieldOf(line).value] else []) + FieldsOf(lines[1..])
  }

  ghost predicate AllDeclare(lines: seq<string>) {
    forall i :: 0 <= i < |lines| ==> Declares(Significant(lines[i]))
  }

  // Every block is closed.
  predicate Closed(s: State) {
    s.Reading? && s.inStruct == [] && s.inEnum == []
  }

  function WithTop(d: Defs, fs: seq<Field>): Defs {
    d.(top := d.top + fs)
  }

  lemma {:induction false} DeclarationsRead(s: State, lines: seq<string>)
    requires Closed(s) && AllDeclare(lines)
    ensures ReadAll(s, lines) == s.(defs := WithTop(s.defs, FieldsOf(lines)))
    decreases |lines|
  {
    hide Significant, FieldOf, IsDirective;
    if lines == [] {
      assert s.defs.top + [] == s.defs.top;
    } else {
      var line := Significant(lines[0]);
      assert Declares(line);
      var next := Read(s, line);
      DeclarationsRead(next, lines[1..]);
      if line != [] {
        assert s.defs.top + [FieldOf(line).value] + FieldsOf(lines[1..]) ==
               s.defs.top + ([FieldOf(line).value] + FieldsOf(lines[1..]));
      }
    }
  }

  lemma {:induction false} ReadAppended(s: State, a: seq<string>, b: seq<string>)
    ensures ReadAll(s, a + b) == ReadAll(ReadAll(s, a), b)
    decreases |a|
  {
    hide Read, Significant;
    if a == [] {
      assert a + b == b;
    } else {
      assert (a + b)[1..] == a[1..] + b;
      ReadAppended(Read(s, Significant(a[0])), a[1..], b);
    }
  }

  // A carriage return at the end of a line means nothing.
  lemma {:induction false} CommentCut(s: string, from: nat)
    requires from <= |s|
    ensures var t := s + "\r"; Comment(t, from) == if Comment(s, from) == |s| then |t| else Comment(s, from)
    decreases |s| - from
  {
    if from < |s| {
      CommentCut(s, from + 1);
    }
  }

  lemma TrimCr(s: string)
    ensures Trim(s + "\r") == Trim(s)
  {
    LeftCr(s);
    if TrimLeft(s) == [] {
      assert TrimLeft("\r") == [];
    } else {
      RightCr(TrimLeft(s));
    }
  }

  lemma {:induction false} LeftCr(s: string)
    ensures TrimLeft(s + "\r") == if TrimLeft(s) == [] then [] else TrimLeft(s) + "\r"
    decreases |s|
  {
    if s == [] {
      assert s + "\r" == "\r";
      assert TrimLeft("\r"[1..]) == [];
    } else {
      assert (s + "\r")[1..] == s[1..] + "\r";
      if IsSpace(s[0]) {
        LeftCr(s[1..]);
      }
    }
  }

  lemma RightCr(s: string)
    ensures TrimRight(s + "\r") == TrimRight(s)
  {
    assert (s + "\r")[..|s|] == s;
  }

  lemma SignificantCr(s: string)
    ensures Significant(DropCr(s)) == Significant(s)
  {
    if s != [] && s[|s| - 1] == '\r' {
      var t := s[..|s| - 1];
      assert s == t + "\r";
      CommentCut(t, 0);
      if Comment(t, 0) == |t| {
        assert t[..|t|] == t && s[..|s|] == s;
        TrimCr(t);
      } else {
        assert s[..Comment(t, 0)] == t[..Comment(t, 0)];
      }
    }
  }

  lemma {:induction false} DroppedSame(lines: seq<string>)
    ensures FieldsOf(Dropped(lines)) == FieldsOf(lines)
    ensures AllDeclare(lines) ==> AllDeclare(Dropped(lines))
    decreases |lines|
  {
    hide Significant, DropCr, Declares;
    if lines != [] {
      SignificantCr(lines[0]);
      DroppedSame(lines[1..]);
      var r := Dropped(lines);
      assert r[1..] == Dropped(lines[1..]);
      if AllDeclare(lines) {
        RestDeclares(lines);
        forall i | 0 <= i < |r| ensures Declares(Significant(r[i])) {
          assert i > 0 ==> r[i] == r[1..][i - 1];
          assert Declares(Significant(lines[0]));
        }
      }
    }
  }

  lemma RestDeclares(lines: seq<string>)
    requires AllDeclare(lines) && lines != []
    ensures AllDeclare(lines[1..])
  {
  }

  // A line that is only a comment says nothing.
  lemma MarkSilent(name: string)
    ensures Significant(DropCr("// $PROP_START " + name)) == ""
  {
    var mark := "// $PROP_START " + name;
    SignificantCr(mark);
    assert mark[0] == '/' && mark[1] == '/';
    assert Comment(mark, 0) == 0;
    assert mark[..0] == "";
  }

  lemma LineShort(text: string, from: nat, end: nat)
    requires from < |text| && end == Find(text, '\n', from)
    ensures OneLiners([DropCr(text[from..end])])
  {
    hide Find;
    assert '\n' !in text[from..end];
  }

  lemma {:induction false} LinesShort(text: string, from: nat)
    requires from <= |text|
    ensures OneLiners(LinesFrom(text, from))
    decreases |text| - from
  {
    if from < |text| {
      var end := Find(text, '\n', from);
      LinesNext(text, from, end);
      LineShort(text, from, end);
      hide LinesFrom, Find, DropCr;
      if end < |text| {
        LinesShort(text, end + 1);
      }
    }
  }

  lemma {:induction false} PropertiesShort(c: Change, lines: seq<string>)
    requires OneLiners(lines) && (c.Change? ==> OneLiners(c.properties))
    ensures ReadChanges(c, lines).Change? ==> OneLiners(ReadChanges(c, lines).properties)
    decreases |lines|
  {
    hide Significant;
    if lines != [] {
      PropertiesShort(ReadChange(c, lines[0]), lines[1..]);
    }
  }

  // ---------- Appending properties ----------

  lemma NothingAdded(text: string, name: string, d: Defs)
    ensures WithProperties(text, name, []) == text && WithTop(d, FieldsOf([])) == d
  {
    assert d.top + [] == d.top;
  }

  lemma TextShort(text: string)
    ensures OneLiners(Lines(text)) && OneLiners([])
  {
    LinesShort(text, 0);
  }

  // What has been read when the properties come: the definition, and what the mod's name adds after a line feed.
  function BeforeProperties(pdef: string, pdiff: string, name: string): State {
    if ParsedChange(pdiff).Change? && ParsedChange(pdiff).properties != [] then ReadAll(ReadText(pdef), MarkLines(name))
    else ReadText(pdef)
  }

  // A name without a line feed adds nothing.
  lemma NameSilent(pdef: string, pdiff: string, name: string)
    requires '\n' !in name && ReadText(pdef).Reading?
    ensures BeforeProperties(pdef, pdiff, name) == ReadText(pdef)
  {
    hide Significant, DropCr, ReadText;
    var s, mark := ReadText(pdef), DropCr("// $PROP_START " + name);
    OneMarkLine(name);
    MarkSilent(name);
    assert [mark][0] == mark && [mark][1..] == [];
    assert ReadAll(s, [mark]) == ReadAll(s, []);
  }

  // A change that only appends properties, all of them declarations, adds exactly their fields at the top.
  lemma PropertiesAppend(pdef: string, pdiff: string, name: string)
    requires Closed(BeforeProperties(pdef, pdiff, name))
    requires var c := ParsedChange(pdiff); c.Change? && c.enums == [] && AllDeclare(c.properties)
    ensures Applied(pdef, pdiff, name).Some?
    ensures var s, fs := BeforeProperties(pdef, pdiff, name), FieldsOf(ParsedChange(pdiff).properties);
            ReadText(Applied(pdef, pdiff, name).value) == s.(defs := WithTop(s.defs, fs))
  {
    hide Significant, Declares, Read, FieldOf, Lines, DropCr, ReadChange, IsDirective, AllDeclare, OneLiners, FieldsOf;
    hide Dropped, ReadAll, WithProperties, MarkLines;
    var props := ParsedChange(pdiff).properties;
    var s := ReadText(pdef);
    if props == [] {
      NothingAdded(pdef, name, s.defs);
    }
    if props != [] {
      TextShort(pdiff);
      PropertiesShort(Change([], false, false, []), Lines(pdiff));
      PropertyLines(pdef, name, props);
      PropertiesRead(s, name, props);
      var more := [""] + MarkLines(name) + Dropped(props);
      ReadAppended(NOTHING, Lines(pdef), more);
      assert Lines(pdef) + more == Lines(pdef) + [""] + MarkLines(name) + Dropped(props);
    }
  }

  lemma PropertiesRead(s: State, name: string, props: seq<string>)
    requires Closed(ReadAll(s, MarkLines(name))) && AllDeclare(props)
    ensures var t := ReadAll(s, MarkLines(name));
            ReadAll(s, [""] + MarkLines(name) + Dropped(props)) == t.(defs := WithTop(t.defs, FieldsOf(props)))
  {
    hide Significant, Declares, FieldOf, DropCr, MarkLines;
    var mark := MarkLines(name);
    var more := [""] + mark + Dropped(props);
    EmptySilent();
    assert more[0] == "" && more[1..] == mark + Dropped(props);
    assert ReadAll(s, more) == ReadAll(s, more[1..]);
    ReadAppended(s, mark, Dropped(props));
    DroppedSame(props);
    DeclarationsRead(ReadAll(s, mark), Dropped(props));
  }

  lemma EmptySilent()
    ensures Significant("") == ""
  {
  }

  // ---------- The size afterwards ----------

  // Types do not depend on the top fields.
  lemma {:induction false} SameTypes(d: Defs, e: Defs, name: string, active: set<string>)
    requires e.enums == d.enums && e.structs == d.structs
    ensures TypeSize(e, name, active) == TypeSize(d, name, active)
    decreases d.structs.Keys - active, 2
  {
    if KindOf(d, name).Structure? && name !in active {
      SameSums(d, e, d.structs[name], |d.structs[name]|, active + {name});
    }
  }

  lemma {:induction false} SameSums(d: Defs, e: Defs, fs: seq<Field>, n: nat, active: set<string>)
    requires e.enums == d.enums && e.structs == d.structs && n <= |fs|
    ensures Sum(e, fs, n, active) == Sum(d, fs, n, active)
    decreases d.structs.Keys - active, 3, n
  {
    hide TypeSize, Dimension;
    if n > 0 {
      SameSums(d, e, fs, n - 1, active);
      SameTypes(d, e, fs[n - 1].kind, active);
    }
  }

  // Two sums, as one.
  function Together(a: Option<nat>, b: Option<nat>): Option<nat> {
    if a.Some? && b.Some? && a.value + b.value <= MAX then Some(a.value + b.value) else None
  }

  lemma {:induction false} SumPrefix(d: Defs, a: seq<Field>, b: seq<Field>, n: nat)
    requires n <= |a|
    ensures Sum(d, a + b, n, {}) == Sum(d, a, n, {})
    decreases n
  {
    hide FieldSize;
    if n > 0 {
      SumPrefix(d, a, b, n - 1);
    }
  }

  lemma {:induction false} SumTogether(d: Defs, a: seq<Field>, b: seq<Field>, n: nat)
    requires n <= |b|
    ensures Sum(d, a + b, |a| + n, {}) == Together(Sum(d, a, |a|, {}), Sum(d, b, n, {}))
    decreases n
  {
    hide FieldSize;
    if n == 0 {
      SumPrefix(d, a, b, |a|);
      SumFits(d, a, |a|);
    } else {
      SumTogether(d, a, b, n - 1);
      SumFits(d, b, n - 1);
    }
  }

  lemma {:induction false} SumFits(d: Defs, fs: seq<Field>, n: nat)
    requires n <= |fs|
    ensures Sum(d, fs, n, {}).Some? ==> Sum(d, fs, n, {}).value <= MAX
    decreases n
  {
    hide FieldSize;
    if n > 0 {
      SumFits(d, fs, n - 1);
    }
  }

  // Appending fields adds exactly their sizes, and fails exactly when they have none or the total is too large.
  lemma AppendedSize(d: Defs, fs: seq<Field>)
    ensures Size(WithTop(d, fs)) == Together(Size(d), Sum(d, fs, |fs|, {}))
  {
    hide Sum;
    var e := WithTop(d, fs);
    SameSums(d, e, e.top, |e.top|, {});
    SumTogether(d, d.top, fs, |fs|);
  }

  // A change that only appends properties grows the definition by exactly their fields' sizes, whatever the mod's name
  // has added before them.
  lemma PropertiesGrow(pdef: string, pdiff: string, name: string)
    requires Closed(BeforeProperties(pdef, pdiff, name))
    requires var c := ParsedChange(pdiff); c.Change? && c.enums == [] && AllDeclare(c.properties)
    ensures Applied(pdef, pdiff, name).Some?
    ensures var s, t := BeforeProperties(pdef, pdiff, name), ReadText(Applied(pdef, pdiff, name).value);
            var fs := FieldsOf(ParsedChange(pdiff).properties);
            && Closed(t) && t.defs == WithTop(s.defs, fs)
            && Size(t.defs) == Together(Size(s.defs), Sum(s.defs, fs, |fs|, {}))
  {
    hide Size, Sum;
    PropertiesAppend(pdef, pdiff, name);
    AppendedSize(BeforeProperties(pdef, pdiff, name).defs, FieldsOf(ParsedChange(pdiff).properties));
  }

  // ---------- The code ----------

  method ParsePdiff(text: string) returns (c: Change)
    ensures c == ParsedChange(text)
  {
    var lines := SplitLines(text);
    c := Change([], false, false, []);
    for i := 0 to |lines|
      invariant c.Change? && ReadChanges(c, lines[i..]) == ReadChanges(Change([], false, false, []), Lines(text))
    {
      hide ReadChange, Lines;
      assert lines[i..][0] == lines[i] && lines[i..][1..] == lines[i + 1..];
      c := ReadChange(c, lines[i]);
      if c.BadChange? {
        BadStays(lines[i + 1..]);
        return;
      }
    }
    if c.Change? && c.open {
      c := BadChange;
    }
  }

  lemma {:induction false} BadStays(lines: seq<string>)
    ensures ReadChanges(BadChange, lines) == BadChange
    decreases |lines|
  {
    if lines != [] {
      BadStays(lines[1..]);
    }
  }

  lemma EnumEndNext(text: string, name: string, start: nat, newline: nat, inside: bool)
    requires start < |text| && newline == Find(text, '\n', start)
    ensures start <= newline <= |text|
    ensures var line := Significant(DropCr(text[start..newline]));
            EnumEnd(text, name, start, inside) ==
            if inside && line == "$ENUM_END" then Some(start)
            else if newline == |text| then None
            else EnumEnd(text, name, newline + 1, inside || line == "$ENUM_START " + name)
  {
    hide Significant, DropCr;
  }

  lemma EnumEndNone(text: string, name: string, inside: bool)
    ensures EnumEnd(text, name, |text|, inside) == None
  {
  }

  method EnumEndOffset(text: string, name: string) returns (r: Option<nat>)
    ensures r == EnumEnd(text, name, 0, false)
  {
    hide EnumEnd, Significant, DropCr, Find;
    var inside := false;
    var start := 0;
    while start < |text|
      invariant 0 <= start <= |text| && EnumEnd(text, name, start, inside) == EnumEnd(text, name, 0, false)
    {
      var newline := Find(text, '\n', start);
      EnumEndNext(text, name, start, newline, inside);
      var significant := Significant(DropCr(text[start..newline]));
      if !inside && significant == "$ENUM_START " + name {
        inside := true;
      } else if inside && significant == "$ENUM_END" {
        return Some(start);
      }
      if newline == |text| {
        return None;
      }
      start := newline + 1;
    }
    EnumEndNone(text, name, inside);
    r := None;
  }

  method JoinLines(lines: seq<string>) returns (s: string)
    ensures s == Joined(lines)
  {
    s := "";
    for i := 0 to |lines|
      invariant s + Joined(lines[i..]) == Joined(lines)
    {
      assert lines[i..][0] == lines[i] && lines[i..][1..] == lines[i + 1..];
      assert s + (lines[i] + "\n" + Joined(lines[i + 1..])) == s + lines[i] + "\n" + Joined(lines[i + 1..]);
      s := s + lines[i] + "\n";
    }
    assert s + "" == s;
  }

  // The definition is replaced only when the whole change applies.
  method ApplyPdiff(pdef: string, pdiff: string, modName: string) returns (ok: bool, result: string)
    ensures ok <==> Applied(pdef, pdiff, modName).Some?
    ensures result == if ok then Applied(pdef, pdiff, modName).value else pdef
  {
    hide ParsedChange, EnumEnd, Joined;
    var parts := ParsePdiff(pdiff);
    if parts.BadChange? {
      return false, pdef;
    }
    var merged := pdef;
    for i := 0 to |parts.enums|
      invariant WithEnums(merged, parts.enums[i..]) == WithEnums(pdef, parts.enums)
    {
      var addition := parts.enums[i];
      assert parts.enums[i..][0] == addition && parts.enums[i..][1..] == parts.enums[i + 1..];
      var end := EnumEndOffset(merged, addition.name);
      if end.None? {
        return false, pdef;
      }
      var inserted := JoinLines(addition.lines);
      merged := merged[..end.value] + inserted + merged[end.value..];
    }
    if parts.properties != [] {
      var lines := JoinLines(parts.properties);
      merged := EndLine(merged) + "\n// $PROP_START " + modName + "\n" + lines;
    }
    return true, merged;
  }

  // The whole measurement, from the text.
  method PersistenceDefinitionSize(text: string) returns (ok: bool, result: nat)
    ensures ok <==> ReadText(text).Reading? && Size(ReadText(text).defs).Some?
    ensures ok ==> Size(ReadText(text).defs) == Some(result)
  {
    hide ReadText, Size;
    var s := ReadDefinition(text);
    if s.Broken? {
      return false, 0;
    }
    ok, result := DefinitionSize(s.defs);
  }
}
