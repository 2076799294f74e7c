// A change to a persistence definition as it may be written, and what reading it gives.
module PdefChanges {
  import opened Options
  import opened PdefText
  import opened PdefApply
  import opened PdefDefinition

  // The lines of one addition: empty ones, its start, its members and empty lines among them, its end.
  datatype Addition = Addition(before: seq<string>, start: string, gap: string, name: string, within: seq<string>, end: string) {
    ghost predicate Valid() {
      && AllEmpty(before) && Wide(gap) && Name(name) && Dressed(start, "$ENUM_ADD" + (gap + name))
      && (forall i :: 0 <= i < |within| ==> Inner(within[i])) && Dressed(end, "$ENUM_END")
    }

    function Raws(): seq<string> {
      before + ([start] + (within + [end]))
    }
  }

  ghost predicate AllEmpty(raws: seq<string>) {
    forall i :: 0 <= i < |raws| ==> Dressed(raws[i], "")
  }

  // No directive, or nothing.
  ghost predicate Inner(raw: string) {
    exists line :: Bare(line) && Dressed(raw, line) && (line == "" || line[0] != '$')
  }

  // The lines that add a member, as they are written but for a carriage return.
  ghost function Members(within: seq<string>): seq<string>
    decreases |within|
  {
    if within == [] then []
    else (if Dressed(within[0], "") then [] else [DropCr(within[0])]) + Members(within[1..])
  }

  // A change: additions, and perhaps a line that starts the properties and the properties.
  datatype Written = Written(additions: seq<Addition>, before: seq<string>, start: Option<string>, properties: seq<string>) {
    ghost predicate Valid() {
      && (forall i :: 0 <= i < |additions| ==> additions[i].Valid()) && AllEmpty(before)
      && if start.Some? then Dressed(start.value, "$PROP_START") else properties == []
    }

    function Raws(): seq<string> {
      AllRaws(additions) + (before + (if start.Some? then [start.value] + properties else []))
    }

    ghost function Meaning(): Change {
      Change(Enums(additions), false, start.Some?, Dropped(properties))
    }
  }

  function AllRaws(additions: seq<Addition>): seq<string>
    decreases |additions|
  {
    if additions == [] then [] else additions[0].Raws() + AllRaws(additions[1..])
  }

  ghost function Enums(additions: seq<Addition>): seq<EnumAdd>
    decreases |additions|
  {
    if additions == [] then [] else [EnumAdd(additions[0].name, Members(additions[0].within))] + Enums(additions[1..])
  }

  // ---------- Reading it ----------

  // Reading lines as they stand in the text, their carriage returns dropped.
  function ReadRaws(c: Change, raws: seq<string>): Change
    decreases |raws|
  {
    if raws == [] then c else ReadRaws(ReadChange(c, DropCr(raws[0])), raws[1..])
  }

  lemma {:induction false} RawsAre(c: Change, raws: seq<string>)
    ensures ReadChanges(c, Dropped(raws)) == ReadRaws(c, raws)
    decreases |raws|
  {
    hide ReadChange, DropCr;
    if raws != [] {
      assert Dropped(raws)[1..] == Dropped(raws[1..]);
      RawsAre(ReadChange(c, DropCr(raws[0])), raws[1..]);
    }
  }

  lemma {:induction false} RawsAppended(c: Change, a: seq<string>, b: seq<string>)
    ensures ReadRaws(c, a + b) == ReadRaws(ReadRaws(c, a), b)
    decreases |a|
  {
    hide ReadChange, DropCr;
    if a == [] {
      assert a + b == b;
    } else {
      assert (a + b)[1..] == a[1..] + b;
      RawsAppended(ReadChange(c, DropCr(a[0])), a[1..], b);
    }
  }

  lemma OneRaw(c: Change, raw: string)
    ensures ReadRaws(c, [raw]) == ReadChange(c, DropCr(raw))
  {
    hide ReadChange, DropCr;
    assert [raw][1..] == [];
  }

  // The line a raw one counts as.
  lemma RawIs(raw: string, line: string)
    requires Bare(line) && Dressed(raw, line)
    ensures Significant(DropCr(raw)) == line
  {
    hide Significant, DropCr, Bare, Dressed;
    DressedIs(raw, line);
    SignificantCr(raw);
  }

  lemma {:induction false} EmptyRead(c: Change, raws: seq<string>)
    requires AllEmpty(raws) && c.Change? && !c.started && !c.open
    ensures ReadRaws(c, raws) == c
    decreases |raws|
  {
    hide Dressed, Significant, DropCr;
    if raws != [] {
      NothingBare();
      assert Dressed(raws[0], "");
      RawIs(raws[0], "");
      EmptyRead(c, raws[1..]);
    }
  }

  // With the last enumeration's lines replaced.
  function WithLines(c: Change, lines: seq<string>): Change
    requires c.Change? && c.enums != []
  {
    c.(enums := c.enums[..|c.enums| - 1] + [c.enums[|c.enums| - 1].(lines := lines)])
  }

  lemma InnerRead(c: Change, raw: string)
    requires c.Change? && !c.started && c.open && c.enums != [] && Inner(raw)
    ensures var lines := c.enums[|c.enums| - 1].lines;
            ReadChange(c, DropCr(raw)) == WithLines(c, lines + if Dressed(raw, "") then [] else [DropCr(raw)])
  {
    hide Dressed, Significant, DropCr, Bare;
    var line :| Bare(line) && Dressed(raw, line) && (line == "" || line[0] != '$');
    RawIs(raw, line);
    NothingBare();
    if Dressed(raw, "") {
      RawIs(raw, "");
      Unchanged(c);
    } else {
      NoDollar(line);
    }
  }

  lemma NoDollar(line: string)
    requires line != "" && line[0] != '$'
    ensures !StartsWith(line, "$") && line != "$ENUM_END"
  {
  }

  lemma Unchanged(c: Change)
    requires c.Change? && c.enums != []
    ensures var lines := c.enums[|c.enums| - 1].lines; WithLines(c, lines + []) == c
  {
    var n := |c.enums| - 1;
    assert c.enums[n].lines + [] == c.enums[n].lines;
    assert c.enums[..n] + [c.enums[n]] == c.enums;
  }

  lemma LinesTwice(c: Change, a: seq<string>, b: seq<string>)
    requires c.Change? && c.enums != []
    ensures var next := WithLines(c, a);
            && next.Change? && next.enums != [] && next.enums[|next.enums| - 1].lines == a
            && next.started == c.started && next.open == c.open && WithLines(next, b) == WithLines(c, b)
  {
    var next := WithLines(c, a);
    assert next.enums[..|c.enums| - 1] == c.enums[..|c.enums| - 1];
  }

  lemma MembersFirst(within: seq<string>, lines: seq<string>)
    requires within != []
    ensures lines + (if Dressed(within[0], "") then [] else [DropCr(within[0])]) + Members(within[1..]) == lines + Members(within)
  {
    hide Dressed, DropCr;
  }

  lemma ReadFirst(c: Change, raws: seq<string>)
    requires raws != []
    ensures ReadRaws(c, raws) == ReadRaws(ReadChange(c, DropCr(raws[0])), raws[1..])
  {
    hide ReadChange, DropCr;
  }

  lemma NoneWithin(c: Change)
    requires c.Change? && c.enums != []
    ensures ReadRaws(c, []) == c == WithLines(c, c.enums[|c.enums| - 1].lines + Members([]))
  {
    Unchanged(c);
  }

  lemma {:induction false} WithinRead(c: Change, within: seq<string>)
    requires c.Change? && !c.started && c.open && c.enums != []
    requires forall i :: 0 <= i < |within| ==> Inner(within[i])
    ensures ReadRaws(c, within) == WithLines(c, c.enums[|c.enums| - 1].lines + Members(within))
    decreases |within|
  {
    hide Dressed, DropCr, ReadChange, ReadRaws, Inner, Members, WithLines;
    var lines := c.enums[|c.enums| - 1].lines;
    if within == [] {
      NoneWithin(c);
    } else {
      assert Inner(within[0]);
      InnerRead(c, within[0]);
      var more := lines + if Dressed(within[0], "") then [] else [DropCr(within[0])];
      ReadFirst(c, within);
      LinesTwice(c, more, more + Members(within[1..]));
      WithinRead(WithLines(c, more), within[1..]);
      MembersFirst(within, lines);
    }
  }

  lemma StartRead(c: Change, raw: string, gap: string, name: string)
    requires c.Change? && !c.started && !c.open && Wide(gap) && Name(name) && Dressed(raw, "$ENUM_ADD" + (gap + name))
    ensures ReadChange(c, DropCr(raw)) == c.(enums := c.enums + [EnumAdd(name, [])], open := true)
  {
    var line := "$ENUM_ADD" + (gap + name);
    StartBare("$ENUM_ADD", gap, name);
    RawIs(raw, line);
    assert line[..9] == "$ENUM_ADD" && line[9] == gap[0] && line[9..] == gap + name;
    NameTrimmed(gap, name);
    NameExactly(name);
    hide Significant, DropCr, Bare, Dressed, Wide, Name, IsIdentifier, Trim;
  }

  lemma AdditionRead(c: Change, a: Addition)
    requires c.Change? && !c.started && !c.open && a.Valid()
    ensures ReadRaws(c, a.Raws()) == c.(enums := c.enums + [EnumAdd(a.name, Members(a.within))])
  {
    hide ReadRaws, ReadChange, DropCr, Bare, Dressed, Wide, Name, Inner, Members, Significant;
    RawsAppended(c, a.before, [a.start] + (a.within + [a.end]));
    EmptyRead(c, a.before);
    RawsAppended(c, [a.start], a.within + [a.end]);
    OneRaw(c, a.start);
    StartRead(c, a.start, a.gap, a.name);
    var open := c.(enums := c.enums + [EnumAdd(a.name, [])], open := true);
    RawsAppended(open, a.within, [a.end]);
    WithinRead(open, a.within);
    var full := WithLines(open, [] + Members(a.within));
    assert open.enums[..|c.enums|] == c.enums && [] + Members(a.within) == Members(a.within);
    assert full.enums == c.enums + [EnumAdd(a.name, Members(a.within))];
    OneRaw(full, a.end);
    EndRead(full, a.end);
  }

  lemma EndRead(c: Change, raw: string)
    requires c.Change? && !c.started && c.open && Dressed(raw, "$ENUM_END")
    ensures ReadChange(c, DropCr(raw)) == c.(open := false)
  {
    WordsBare();
    RawIs(raw, "$ENUM_END");
    hide Significant, DropCr;
  }

  lemma {:induction false} AdditionsRead(c: Change, additions: seq<Addition>)
    requires c.Change? && !c.started && !c.open && forall i :: 0 <= i < |additions| ==> additions[i].Valid()
    ensures ReadRaws(c, AllRaws(additions)) == c.(enums := c.enums + Enums(additions))
    decreases |additions|
  {
    hide ReadRaws, Members, Addition.Valid, Addition.Raws;
    if additions == [] {
      assert c.enums + [] == c.enums;
      NoRaws(c);
    } else {
      var a, rest := additions[0], additions[1..];
      var one := EnumAdd(a.name, Members(a.within));
      RawsAppended(c, a.Raws(), AllRaws(rest));
      AdditionRead(c, a);
      AdditionsRead(c.(enums := c.enums + [one]), rest);
      assert c.enums + [one] + Enums(rest) == c.enums + ([one] + Enums(rest));
    }
  }

  lemma NoRaws(c: Change)
    ensures ReadRaws(c, []) == c
  {
  }

  lemma {:induction false} PropertiesRead(c: Change, raws: seq<string>)
    requires c.Change? && c.started
    ensures ReadRaws(c, raws) == c.(properties := c.properties + Dropped(raws))
    decreases |raws|
  {
    hide DropCr;
    if raws == [] {
      assert c.properties + [] == c.properties;
    } else {
      var next := c.(properties := c.properties + [DropCr(raws[0])]);
      assert ReadChange(c, DropCr(raws[0])) == next;
      PropertiesRead(next, raws[1..]);
      assert c.properties + [DropCr(raws[0])] + Dropped(raws[1..]) == c.properties + Dropped(raws);
    }
  }

  lemma PropStartRead(c: Change, raw: string)
    requires c.Change? && !c.started && !c.open && Dressed(raw, "$PROP_START")
    ensures ReadChange(c, DropCr(raw)) == c.(started := true)
  {
    SlashlessBare("$PROP_START");
    RawIs(raw, "$PROP_START");
    hide Significant, DropCr;
    assert "$PROP_START"[1] == 'P';
    assert !IsDirective("$PROP_START", "$ENUM_ADD") by {
      assert "$PROP_START"[..9][1] == 'P' && "$ENUM_ADD"[1] == 'E';
    }
  }

  // A change is read as it is meant, whatever blanks, comments and empty lines there are.
  lemma ChangeRead(text: string, w: Written)
    requires w.Valid() && TextOf(text, w.Raws())
    ensures ParsedChange(text) == w.Meaning()
  {
    hide ReadRaws, ReadChange, Dressed, AllRaws, Lines, Joined, Enums, DropCr;
    var none := Change([], false, false, []);
    JoinedLines(w.Raws());
    if text != Joined(w.Raws()) {
      EndLineLines(text);
    }
    RawsAre(none, w.Raws());
    var rest := if w.start.Some? then [w.start.value] + w.properties else [];
    RawsAppended(none, AllRaws(w.additions), w.before + rest);
    AdditionsRead(none, w.additions);
    assert [] + Enums(w.additions) == Enums(w.additions);
    var c := none.(enums := Enums(w.additions));
    RawsAppended(c, w.before, rest);
    EmptyRead(c, w.before);
    NoRaws(c);
    if w.start.Some? {
      RawsAppended(c, [w.start.value], w.properties);
      OneRaw(c, w.start.value);
      PropStartRead(c, w.start.value);
      PropertiesRead(c.(started := true), w.properties);
      assert [] + Dropped(w.properties) == Dropped(w.properties);
    }
  }
}
