// A persistence definition's text: its lines, its directives and the declarations they hold.
module PdefText {
  import opened Options

  datatype Field = Field(kind: string, name: string)

  datatype Defs = Defs(enums: map<string, nat>, structs: map<string, seq<Field>>, top: seq<Field>)

  // ---------- Words ----------

  predicate IsSpace(c: char) {
    c == ' ' || ('\t' <= c <= '\r')
  }

  predicate IsAlpha(c: char) {
    'a' <= c <= 'z' || 'A' <= c <= 'Z'
  }

  predicate IsDigit(c: char) {
    '0' <= c <= '9'
  }

  function TrimLeft(s: string): (r: string)
    ensures |r| <= |s| && (r != [] ==> !IsSpace(r[0]))
    decreases |s|
  {
    if s != [] && IsSpace(s[0]) then TrimLeft(s[1..]) else s
  }

  function TrimRight(s: string): (r: string)
    ensures |r| <= |s| && r <= s && (r != [] ==> !IsSpace(r[|r| - 1]))
    decreases |s|
  {
    if s != [] && IsSpace(s[|s| - 1]) then TrimRight(s[..|s| - 1]) else s
  }

  function Trim(s: string): string {
    TrimRight(TrimLeft(s))
  }

  predicate IsIdentifier(s: string) {
    && s != [] && (IsAlpha(s[0]) || s[0] == '_')
    && forall i :: 0 <= i < |s| ==> IsAlpha(s[i]) || IsDigit(s[i]) || s[i] == '_'
  }

  // A decimal number, as long as it fits 64 bits.
  function Decimal(s: string): Option<nat>
    decreases |s|
  {
    if s == [] then Some(0)
    else if !IsDigit(s[|s| - 1]) then None
    else
      match Decimal(s[..|s| - 1])
      case None => None
      case Some(v) =>
        var digit := s[|s| - 1] as nat - '0' as nat;
        if v > (0xffff_ffff_ffff_ffff - digit) / 10 then None else Some(v * 10 + digit)
  }

  function PositiveSize(s: string): Option<nat> {
    if s == [] || Decimal(s).None? || Decimal(s).value == 0 then None else Decimal(s)
  }

  predicate StartsWith(s: string, w: string) {
    |w| <= |s| && s[..|w|] == w
  }

  predicate IsStringType(s: string) {
    StartsWith(s, "string{") && s[|s| - 1] == '}'
  }

  // The first place of a character from `from` on, or the length.
  function Find(s: string, c: char, from: nat): (i: nat)
    requires from <= |s|
    ensures from <= i <= |s| && (i < |s| ==> s[i] == c) && forall k :: from <= k < i ==> s[k] != c
    decreases |s| - from
  {
    if from == |s| || s[from] == c then from else Find(s, c, from + 1)
  }

  // How many of a field there are: its name may carry a number or an enumeration in brackets.
  function Dimension(enums: map<string, nat>, name: string): Option<nat> {
    var open := Find(name, '[', 0);
    if open == |name| then if IsIdentifier(name) then Some(1) else None else
      var close := Find(name, ']', open + 1);
      if close == |name| || close + 1 != |name| || !IsIdentifier(name[..open]) then None else
        var dimension := Trim(name[open + 1..close]);
        if dimension == [] then None
        else if PositiveSize(dimension).Some? then PositiveSize(dimension)
        else if !IsIdentifier(dimension) || dimension !in enums then None
        else Some(enums[dimension])
  }

  // ---------- Lines ----------

  function DropCr(s: string): string {
    if s != [] && s[|s| - 1] == '\r' then s[..|s| - 1] else s
  }

  function LinesFrom(text: string, start: nat): seq<string>
    requires start <= |text|
    decreases |text| - start
  {
    if start == |text| then [] else
      var end := Find(text, '\n', start);
      [DropCr(text[start..end])] + if end == |text| then [] else LinesFrom(text, end + 1)
  }

  function Lines(text: string): seq<string> {
    LinesFrom(text, 0)
  }

  // Where a comment starts, or the length.
  function Comment(s: string, from: nat): (i: nat)
    requires from <= |s|
    ensures from <= i <= |s|
    decreases |s| - from
  {
    if from + 1 >= |s| then |s|
    else if s[from] == '/' && s[from + 1] == '/' then from
    else Comment(s, from + 1)
  }

  // A line without its comment and the space around it.
  function Significant(raw: string): string {
    Trim(raw[..Comment(raw, 0)])
  }

  // ---------- Declarations ----------

  // What has been read, and the block being read: no name where there is none.
  datatype State = Broken | Reading(defs: Defs, inStruct: string, inEnum: string)

  predicate IsDirective(line: string, word: string) {
    StartsWith(line, word) && (|line| == |word| || IsSpace(line[|word|]))
  }

  function FindGap(s: string, from: nat): (i: nat)
    requires from <= |s|
    ensures from <= i <= |s|
    decreases |s| - from
  {
    if from == |s| || s[from] == ' ' || s[from] == '\t' then from else FindGap(s, from + 1)
  }

  function FieldOf(line: string): Option<Field> {
    var split := FindGap(line, 0);
    if split == |line| then None else Some(Field(line[..split], Trim(line[split + 1..])))
  }

  function WithField(s: State, f: Field): State
    requires s.Reading?
  {
    if s.inStruct == [] then s.(defs := s.defs.(top := s.defs.top + [f])) else
      var fields := if s.inStruct in s.defs.structs then s.defs.structs[s.inStruct] else [];
      s.(defs := s.defs.(structs := s.defs.structs[s.inStruct := fields + [f]]))
  }

  function WithMember(s: State): State
    requires s.Reading?
  {
    var count := if s.inEnum in s.defs.enums then s.defs.enums[s.inEnum] else 0;
    s.(defs := s.defs.(enums := s.defs.enums[s.inEnum := count + 1]))
  }

  // One more line, its comment and outer space gone.
  function Read(s: State, line: string): State {
    if s.Broken? || line == [] then s
    else if IsDirective(line, "$ENUM_START") then
      var name := Trim(line[11..]);
      if !IsIdentifier(name) then Broken
      else Reading(s.defs.(enums := s.defs.enums[name := 0]), [], name)
    else if line == "$ENUM_END" then s.(inEnum := [])
    else if IsDirective(line, "$STRUCT_START") then
      var name := Trim(line[13..]);
      if !IsIdentifier(name) then Broken
      else Reading(s.defs.(structs := s.defs.structs[name := []]), name, [])
    else if line == "$STRUCT_END" then s.(inStruct := [])
    else if s.inEnum != [] then WithMember(s)
    else
      match FieldOf(line)
      case None => Broken
      case Some(f) => WithField(s, f)
  }

  function ReadAll(s: State, lines: seq<string>): State
    decreases |lines|
  {
    if lines == [] then s else ReadAll(Read(s, Significant(lines[0])), lines[1..])
  }

  const NOTHING: State := Reading(Defs(map[], map[], []), [], [])

  function ReadText(text: string): State {
    ReadAll(NOTHING, Lines(text))
  }

  // ---------- The code ----------

  lemma LinesNext(text: string, from: nat, end: nat)
    requires from < |text| && end == Find(text, '\n', from)
    ensures from <= end <= |text|
    ensures LinesFrom(text, from) == [DropCr(text[from..end])] + if end == |text| then [] else LinesFrom(text, end + 1)
  {
    hide DropCr, Find;
  }

  lemma NoLines(text: string)
    ensures LinesFrom(text, |text|) == []
  {
  }

  method SplitLines(text: string) returns (lines: seq<string>)
    ensures lines == Lines(text)
  {
    hide LinesFrom, DropCr, Find;
    lines := [];
    var start := 0;
    while start < |text|
      invariant 0 <= start <= |text| && lines + LinesFrom(text, start) == Lines(text)
    {
      var end := Find(text, '\n', start);
      LinesNext(text, start, end);
      NoLines(text);
      var rest := if end == |text| then [] else LinesFrom(text, end + 1);
      assert lines + ([DropCr(text[start..end])] + rest) == lines + [DropCr(text[start..end])] + rest;
      lines := lines + [DropCr(text[start..end])];
      start := if end == |text| then end else end + 1;
    }
    NoLines(text);
  }

  method ReadDefinition(text: string) returns (s: State)
    ensures s == ReadText(text)
  {
    var lines := SplitLines(text);
    s := NOTHING;
    for i := 0 to |lines|
      invariant ReadAll(s, lines[i..]) == ReadText(text)
    {
      hide Read, Significant, Lines;
      assert lines[i..][0] == lines[i] && lines[i..][1..] == lines[i + 1..];
      s := Read(s, Significant(lines[i]));
      if s.Broken? {
        BrokenStays(lines[i + 1..]);
        return;
      }
    }
  }

  lemma {:induction false} BrokenStays(lines: seq<string>)
    ensures ReadAll(Broken, lines) == Broken
    decreases |lines|
  {
    if lines != [] {
      BrokenStays(lines[1..]);
    }
  }
}
