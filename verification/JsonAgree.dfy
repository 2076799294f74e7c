// On every document the strict parser accepts, the lenient reader ends each value where the strict one does.
module JsonAgree {
  import opened Options
  import opened JsonText
  import opened JsonLenient

  // What may come after a value.
  predicate Delimited(t: string) {
    Peek(t) == ',' || Peek(t) == '}' || Peek(t) == ']' || Peek(t) == '\0'
  }

  // Where no comment follows, a gap is white space.
  lemma GapIsWs(t: string)
    requires Peek(SkipWs(t)) != '/'
    ensures SkipGap(t) == SkipWs(t)
  {
  }

  lemma WsTwice(t: string)
    ensures SkipWs(SkipWs(t)) == SkipWs(t)
  {
    WsAgain(SkipWs(t));
  }

  // ---------- Strings ----------

  lemma HexSkipped(t: string)
    requires HasHex4(t)
    ensures SkipChars(t) == SkipChars(t[4..]) && KeyEnd(t) == KeyEnd(t[4..])
  {
    PlainSkipped(t);
    PlainSkipped(t[1..]);
    PlainSkipped(t[2..]);
    PlainSkipped(t[3..]);
    assert t[1..][1..] == t[2..] && t[2..][1..] == t[3..] && t[3..][1..] == t[4..];
  }

  lemma PlainSkipped(t: string)
    requires t != [] && t[0] != '\0' && t[0] != '\\' && t[0] != '"'
    ensures SkipChars(t) == SkipChars(t[1..]) && KeyEnd(t) == KeyEnd(t[1..])
  {
  }

  lemma EscapeSkipped(t: string)
    requires |t| >= 2 && t[0] == '\\' && t[1] != '\0'
    ensures SkipChars(t) == SkipChars(t[2..]) && KeyEnd(t) == KeyEnd(t[2..])
  {
  }

  lemma PieceSkipped(t: string)
    requires t != [] && t[0] != '"' && NextPiece(t).Some?
    ensures SkipChars(t) == SkipChars(t[NextPiece(t).value.n..]) && KeyEnd(t) == KeyEnd(t[NextPiece(t).value.n..])
  {
    hide SkipChars, KeyEnd;
    if t[0] != '\\' {
      PlainSkipped(t);
    } else {
      EscapeSkipped(t);
      if !IsSimpleEscape(t[1]) {
        UnicodeSkipped(t[2..]);
        var n := UnicodePiece(t[2..]).value.n;
        assert t[2..][n..] == t[n + 2..];
      }
    }
  }

  lemma UnicodeSkipped(t: string)
    requires UnicodePiece(t).Some?
    ensures SkipChars(t) == SkipChars(t[UnicodePiece(t).value.n..]) && KeyEnd(t) == KeyEnd(t[UnicodePiece(t).value.n..])
  {
    hide SkipChars, KeyEnd, Utf8, Hex4;
    HexSkipped(t);
    if UnicodePiece(t).value.n == 10 {
      var rest := t[4..];
      EscapeSkipped(rest);
      HexSkipped(rest[2..]);
      assert rest[2..] == t[6..] && rest[2..][4..] == t[10..];
    }
  }

  lemma {:induction false} CharsAgree(t: string)
    requires ReadChars(t).Some?
    ensures SkipChars(t) == ReadChars(t).value.rest
    ensures KeyEnd(t) != [] && KeyEnd(t)[0] == '"' && KeyEnd(t)[1..] == ReadChars(t).value.rest
    decreases |t|
  {
    if t[0] != '"' {
      hide NextPiece;
      PieceSkipped(t);
      CharsAgree(t[NextPiece(t).value.n..]);
    }
  }

  // ---------- Numbers and words ----------

  predicate IsPlain(c: char) {
    c != '\0' && c != ',' && c != '}' && c != ']'
  }

  lemma {:induction false} PassWs(t: string)
    ensures SkipScalar(t) == SkipScalar(SkipWs(t))
    decreases |t|
  {
    if IsWs(Peek(t)) {
      PassWs(t[1..]);
    }
  }

  lemma {:induction false} PassDigits(t: string)
    ensures SkipScalar(t) == SkipScalar(SkipDigits(t))
    decreases |t|
  {
    if IsDigit(Peek(t)) {
      PassDigits(t[1..]);
    }
  }

  lemma PassOne(t: string)
    requires IsPlain(Peek(t))
    ensures SkipScalar(t) == SkipScalar(t[1..])
  {
  }

  lemma PassExponent(t: string)
    requires Exponent(t).Some?
    ensures SkipScalar(t) == SkipScalar(Exponent(t).value)
  {
    hide SkipScalar, SkipDigits;
    if Peek(t) == 'e' || Peek(t) == 'E' {
      PassOne(t);
      if Peek(t[1..]) == '+' || Peek(t[1..]) == '-' {
        PassOne(t[1..]);
        PassDigits(t[1..][1..]);
      } else {
        PassDigits(t[1..]);
      }
    }
  }

  lemma PassNumber(t: string)
    requires ReadNumber(t).Some?
    ensures SkipScalar(t) == SkipScalar(ReadNumber(t).value)
  {
    hide SkipScalar, SkipDigits, Exponent;
    var u := if Peek(t) == '-' then t[1..] else t;
    if Peek(t) == '-' {
      PassOne(t);
    }
    PassDigits(u);
    var v := SkipDigits(u);
    if Peek(v) == '.' {
      PassOne(v);
      PassDigits(v[1..]);
      PassExponent(SkipDigits(v[1..]));
    } else {
      PassExponent(v);
    }
  }

  lemma {:induction false} PassWord(t: string, w: string)
    requires StartsWith(t, w) && forall k :: 0 <= k < |w| ==> IsPlain(w[k])
    ensures SkipScalar(t) == SkipScalar(t[|w|..])
    decreases |w|
  {
    if w != [] {
      assert t[0] == t[..|w|][0] == w[0];
      PassOne(t);
      assert t[1..][..|w| - 1] == t[..|w|][1..] == w[1..];
      PassWord(t[1..], w[1..]);
      assert t[1..][|w| - 1..] == t[|w|..];
    }
  }

  // The lenient reader runs to the delimiter, so over the white space after a scalar too.
  lemma ScalarAgree(t: string)
    requires ReadScalar(t).Some? && Delimited(SkipWs(ReadScalar(t).value))
    ensures SkipScalar(t) == SkipWs(ReadScalar(t).value)
  {
    var r := ReadScalar(t).value;
    if StartsWith(t, "true") {
      PassWord(t, "true");
    } else if StartsWith(t, "false") {
      PassWord(t, "false");
    } else if StartsWith(t, "null") {
      PassWord(t, "null");
    } else {
      PassNumber(t);
    }
    PassWs(r);
  }

  lemma ScalarStart(t: string)
    requires ReadScalar(t).Some?
    ensures var c := Peek(t); c != '/' && c != '"' && c != '{' && c != '[' && c != ']' && c != '}' && c != '\0' && c != ','
  {
    WordStart(t, "true");
    WordStart(t, "false");
    WordStart(t, "null");
  }

  // ---------- Values ----------

  // The value's first character.
  function Start(t: string): char {
    Peek(SkipWs(t))
  }

  predicate IsBracketed(t: string) {
    Start(t) == '{' || Start(t) == '[' || Start(t) == '"'
  }

  lemma ValueStart(t: string, depth: nat)
    requires ParseValue(t, depth).Some?
    ensures Start(t) != '/' && Start(t) != ']' && Start(t) != '}' && Start(t) != '\0' && Start(t) != ','
    ensures !IsBracketed(t) ==> ReadScalar(SkipWs(t)) == ParseValue(t, depth)
  {
    hide ParseMembers, ParseItems, SkipWs, ReadString, ReadScalar;
    if !IsBracketed(t) {
      ScalarStart(SkipWs(t));
    }
  }

  // Where the lenient reader stops: exactly after an object, an array or a string, and at the next delimiter after
  // anything else.
  lemma {:induction false} ValueAgree(t: string, depth: nat)
    requires ParseValue(t, depth).Some? && Delimited(SkipWs(ParseValue(t, depth).value))
    ensures SkipValue(t) == if IsBracketed(t) then ParseValue(t, depth).value else SkipWs(ParseValue(t, depth).value)
    decreases |t|, 0
  {
    hide SkipWs, ReadScalar, SkipMembers, SkipItems, SkipScalar, ParseMembers, ParseItems, SkipGap, ReadString, SkipString;
    ValueStart(t, depth);
    GapIsWs(t);
    var u := SkipWs(t);
    if Peek(u) == '"' {
      StringAgree(u);
    } else if Peek(u) == '{' {
      var v := SkipWs(u[1..]);
      if Peek(v) == '}' {
        EmptyMembers(u[1..]);
      } else {
        MembersAgree(v, depth);
        WsTwice(u[1..]);
        MembersGap(u[1..]);
      }
    } else if Peek(u) == '[' {
      var v := SkipWs(u[1..]);
      if Peek(v) == ']' {
        EmptyItems(u[1..]);
      } else {
        ItemsAgree(v, depth);
        WsTwice(u[1..]);
        ItemsGap(u[1..]);
      }
    } else {
      ScalarAgree(u);
    }
  }

  lemma StringAgree(t: string)
    requires ReadString(t).Some?
    ensures SkipString(t) == ReadString(t).value
  {
    CharsAgree(t[1..]);
  }

  lemma EmptyMembers(t: string)
    requires Peek(SkipWs(t)) == '}'
    ensures SkipMembers(t) == SkipWs(t)[1..]
  {
    hide SkipWs;
    GapIsWs(t);
  }

  lemma EmptyItems(t: string)
    requires Peek(SkipWs(t)) == ']'
    ensures SkipItems(t) == SkipWs(t)[1..]
  {
    hide SkipWs;
    GapIsWs(t);
  }

  // White space in front changes nothing.
  lemma MembersGap(t: string)
    requires Peek(SkipWs(t)) != '/'
    ensures SkipMembers(t) == SkipMembers(SkipWs(t))
  {
    hide SkipWs, SkipString, SkipValue;
    WsTwice(t);
    GapIsWs(t);
    GapIsWs(SkipWs(t));
  }

  lemma ItemsGap(t: string)
    requires Peek(SkipWs(t)) != '/'
    ensures SkipItems(t) == SkipItems(SkipWs(t))
  {
    hide SkipWs, SkipString, SkipValue;
    WsTwice(t);
    GapIsWs(t);
    GapIsWs(SkipWs(t));
  }

  lemma ValueGap(t: string)
    requires Peek(SkipWs(t)) != '/'
    ensures SkipValue(SkipWs(t)) == SkipValue(t)
  {
    hide SkipWs, SkipString, SkipMembers, SkipItems, SkipScalar;
    WsTwice(t);
    GapIsWs(t);
    GapIsWs(SkipWs(t));
  }

  // What follows the value, white space aside.
  lemma AfterAgree(t: string, depth: nat)
    requires ParseValue(t, depth).Some? && Delimited(SkipWs(ParseValue(t, depth).value))
    requires SkipValue(t) == if IsBracketed(t) then ParseValue(t, depth).value else SkipWs(ParseValue(t, depth).value)
    ensures SkipGap(SkipValue(t)) == SkipWs(ParseValue(t, depth).value)
  {
    hide SkipWs, SkipValue, ParseValue, SkipGap;
    var r := ParseValue(t, depth).value;
    WsTwice(r);
    GapIsWs(r);
    GapIsWs(SkipWs(r));
  }

  lemma {:induction false} MembersAgree(t: string, depth: nat)
    requires ParseMembers(t, depth).Some?
    ensures Peek(SkipWs(t)) == '"'
    ensures SkipMembers(t) == ParseMembers(t, depth).value
    decreases |t|, 1
  {
    hide SkipWs, SkipGap, SkipValue, ReadString, SkipString, ParseValue;
    var value := ReadName(t).value;
    NameAgree(t);
    var r := SkipWs(ParseValue(value, depth + 1).value);
    ValueAgree(value, depth + 1);
    AfterAgree(value, depth + 1);
    if Peek(r) == ',' {
      MembersAgree(r[1..], depth);
    }
  }

  // A member's name, as the lenient reader skips it.
  lemma NameAgree(t: string)
    requires ReadName(t).Some?
    ensures Peek(SkipWs(t)) == '"' && SkipGap(t) == SkipWs(t)
    ensures var colon := SkipGap(SkipString(SkipWs(t))); Peek(colon) == ':' && colon[1..] == ReadName(t).value
  {
    hide SkipWs, SkipGap, SkipString, ReadChars;
    var name := SkipWs(t);
    StringAgree(name);
    GapIsWs(t);
    GapIsWs(ReadString(name).value);
  }

  lemma {:induction false} ItemsAgree(t: string, depth: nat)
    requires ParseItems(t, depth).Some?
    ensures Peek(SkipWs(t)) != '/'
    ensures SkipItems(t) == ParseItems(t, depth).value
    decreases |t|, 1
  {
    hide SkipWs, SkipGap, SkipValue, ParseValue;
    var r := SkipWs(ParseValue(t, depth + 1).value);
    ValueStart(t, depth + 1);
    GapIsWs(t);
    ValueGap(t);
    ValueAgree(t, depth + 1);
    AfterAgree(t, depth + 1);
    if Peek(r) == ',' {
      ItemsAgree(r[1..], depth);
    }
  }

  // ---------- Members by name ----------

  // A member as the strict parser meets it: its name as written, and the text from its value on.
  datatype Entry = Entry(key: string, at: string)

  function RawName(t: string): string
    requires ReadName(t).Some?
  {
    var name := SkipWs(t);
    name[1..|name| - |ReadString(name).value| - 1]
  }

  function EntryOf(t: string): Entry
    requires ReadName(t).Some?
  {
    Entry(RawName(t), SkipWs(ReadName(t).value))
  }

  function Entries(t: string, depth: nat): seq<Entry>
    requires ParseMembers(t, depth).Some?
    decreases |t|
  {
    var r := SkipWs(ParseValue(ReadName(t).value, depth + 1).value);
    [EntryOf(t)] + if Peek(r) == ',' then Entries(r[1..], depth) else []
  }

  // The members of the value at t, if it is an object.
  function MembersOf(t: string, depth: nat): seq<Entry>
    requires ParseValue(t, depth).Some?
  {
    var t := SkipWs(t);
    if Peek(t) != '{' then [] else
      var t := SkipWs(t[1..]);
      if Peek(t) == '}' then [] else Entries(t, depth)
  }

  function Lookup(es: seq<Entry>, key: string): Option<string>
    decreases |es|
  {
    if es == [] then None else if es[0].key == key then Some(es[0].at) else Lookup(es[1..], key)
  }

  lemma RawNameAgree(t: string)
    requires ReadName(t).Some?
    ensures var start := SkipWs(t)[1..];
            && SkipWs(t) != [] && KeyEnd(start) != [] && KeyEnd(start)[0] == '"'
            && start[..|start| - |KeyEnd(start)|] == RawName(t)
            && KeyEnd(start)[1..] == SkipString(SkipWs(t))
  {
    hide SkipWs, SkipChars, KeyEnd, ReadChars;
    CharsAgree(SkipWs(t)[1..]);
  }

  lemma {:induction false} FindAgrees(t: string, depth: nat, key: string)
    requires ParseMembers(t, depth).Some?
    ensures FindFrom(t, key) == Lookup(Entries(t, depth), key)
    decreases |t|
  {
    hide SkipWs, SkipGap, SkipValue, ReadName, SkipString, ParseValue, KeyEnd, RawName;
    var value := ReadName(t).value;
    NameAgree(t);
    RawNameAgree(t);
    ValueStart(value, depth + 1);
    GapIsWs(value);
    ValueGap(value);
    ValueAgree(value, depth + 1);
    AfterAgree(value, depth + 1);
    var r := SkipWs(ParseValue(value, depth + 1).value);
    if Peek(r) == ',' {
      FindAgrees(r[1..], depth, key);
    }
  }

  // Looking a name up gives the first member written with it, and nothing if there is none or no object.
  lemma MemberFound(t: string, depth: nat, key: string)
    requires ParseValue(t, depth).Some?
    ensures FindMember(t, key) == Lookup(MembersOf(t, depth), key)
  {
    hide SkipWs, SkipGap, FindFrom, ParseMembers, ParseItems, Entries, ReadScalar, ReadString;
    ValueStart(t, depth);
    GapIsWs(t);
    var u := SkipWs(t);
    if Peek(u) == '{' {
      var v := SkipWs(u[1..]);
      if Peek(v) == '}' {
        NoneThere(u[1..], key);
      } else {
        FindAgrees(v, depth, key);
        MembersAgree(v, depth);
        WsTwice(u[1..]);
        FindGap(u[1..], key);
      }
    }
  }

  lemma NoneThere(t: string, key: string)
    requires Peek(SkipWs(t)) == '}'
    ensures FindFrom(t, key) == None
  {
    hide SkipWs;
    GapIsWs(t);
  }

  lemma FindGap(t: string, key: string)
    requires Peek(SkipWs(t)) != '/'
    ensures FindFrom(t, key) == FindFrom(SkipWs(t), key)
  {
    hide SkipWs, SkipValue, KeyEnd;
    WsTwice(t);
    GapIsWs(t);
    GapIsWs(SkipWs(t));
  }

  // ---------- Every value of a document ----------

  // Where the strict parser starts a value, and what it leaves after it.
  datatype Visit = Visit(at: string, depth: nat, rest: string)

  function Visits(t: string, depth: nat): (vs: seq<Visit>)
    requires ParseValue(t, depth).Some?
    decreases |t|, 0
  {
    var u := SkipWs(t);
    [Visit(t, depth, ParseValue(t, depth).value)] +
    if Peek(u) == '{' && Peek(SkipWs(u[1..])) != '}' then MemberVisits(SkipWs(u[1..]), depth)
    else if Peek(u) == '[' && Peek(SkipWs(u[1..])) != ']' then ItemVisits(SkipWs(u[1..]), depth)
    else []
  }

  function MemberVisits(t: string, depth: nat): seq<Visit>
    requires ParseMembers(t, depth).Some?
    decreases |t|, 1
  {
    var value := ReadName(t).value;
    var r := SkipWs(ParseValue(value, depth + 1).value);
    Visits(value, depth + 1) + if Peek(r) == ',' then MemberVisits(r[1..], depth) else []
  }

  function ItemVisits(t: string, depth: nat): seq<Visit>
    requires ParseItems(t, depth).Some?
    decreases |t|, 1
  {
    var r := SkipWs(ParseValue(t, depth + 1).value);
    Visits(t, depth + 1) + if Peek(r) == ',' then ItemVisits(r[1..], depth) else []
  }

  // The lenient reader agrees with the strict parser about one value.
  ghost predicate Agrees(v: Visit) {
    && ParseValue(v.at, v.depth) == Some(v.rest)
    && SkipGap(SkipValue(v.at)) == SkipWs(v.rest)
    && forall key :: FindMember(v.at, key) == Lookup(MembersOf(v.at, v.depth), key)
  }

  ghost predicate AllAgree(vs: seq<Visit>) {
    forall i :: 0 <= i < |vs| ==> Agrees(vs[i])
  }

  lemma OneAgrees(t: string, depth: nat)
    requires ParseValue(t, depth).Some? && Delimited(SkipWs(ParseValue(t, depth).value))
    ensures Agrees(Visit(t, depth, ParseValue(t, depth).value))
  {
    hide ParseValue, SkipWs, SkipGap, SkipValue, FindMember, MembersOf;
    ValueAgree(t, depth);
    AfterAgree(t, depth);
    forall key ensures FindMember(t, key) == Lookup(MembersOf(t, depth), key) {
      MemberFound(t, depth, key);
    }
  }

  lemma {:induction false} VisitsAgree(t: string, depth: nat)
    requires ParseValue(t, depth).Some? && Delimited(SkipWs(ParseValue(t, depth).value))
    ensures AllAgree(Visits(t, depth))
    decreases |t|, 0
  {
    hide SkipWs, Agrees, ParseMembers, ParseItems, ReadScalar, ReadString;
    OneAgrees(t, depth);
    var u := SkipWs(t);
    if Peek(u) == '{' && Peek(SkipWs(u[1..])) != '}' {
      MemberVisitsAgree(SkipWs(u[1..]), depth);
    } else if Peek(u) == '[' && Peek(SkipWs(u[1..])) != ']' {
      ItemVisitsAgree(SkipWs(u[1..]), depth);
    }
  }

  lemma {:induction false} MemberVisitsAgree(t: string, depth: nat)
    requires ParseMembers(t, depth).Some?
    ensures AllAgree(MemberVisits(t, depth))
    decreases |t|, 1
  {
    hide SkipWs, Agrees, ParseValue, ReadName, Visits;
    var value := ReadName(t).value;
    VisitsAgree(value, depth + 1);
    var r := SkipWs(ParseValue(value, depth + 1).value);
    if Peek(r) == ',' {
      MemberVisitsAgree(r[1..], depth);
    }
  }

  lemma {:induction false} ItemVisitsAgree(t: string, depth: nat)
    requires ParseItems(t, depth).Some?
    ensures AllAgree(ItemVisits(t, depth))
    decreases |t|, 1
  {
    hide SkipWs, Agrees, ParseValue, Visits;
    VisitsAgree(t, depth + 1);
    var r := SkipWs(ParseValue(t, depth + 1).value);
    if Peek(r) == ',' {
      ItemVisitsAgree(r[1..], depth);
    }
  }

  // On an accepted document the two readers agree about every value, however deep.
  lemma DocumentAgrees(t: string)
    requires Accepts(t)
    ensures AllAgree(Visits(t, 0))
  {
    VisitsAgree(t, 0);
  }
}
