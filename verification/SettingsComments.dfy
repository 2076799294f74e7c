// The enabled-mods file with comments in it: the operations on its text are those on the tree it spells.
module SettingsComments {
  import opened Options
  import opened JsonText
  import opened JsonTree
  import opened JsonLenient
  import opened JsonAgree
  import opened JsonComments
  import JsonFields
  import opened Settings

  // ---------- The operations on trees ----------

  const TRUE: Node := Node.Word("true")
  const ONE: Node := Numeral(Number(false, "1", "", NoPower))

  function Verdict(b: bool): Node {
    if b then TRUE else Node.Word("false")
  }

  // Enabled, unless the name's entry, or its version's, is not the word true.
  predicate EnabledIn(root: Node, name: string, version: string) {
    root.Object? && Named(root.members, name).Some? ==>
      var entry := Named(root.members, name).value;
      if entry.Object? then Named(entry.members, version).Some? ==> Named(entry.members, version).value == TRUE
      else entry == TRUE
  }

  // The first member of that name with another value. The gap behind a number or a word goes with it.
  function WithValue(m: Members, key: string, x: Node): Members
    requires Named(m, key).Some?
    decreases m
  {
    if Written(m.key) == key then m.(value := x, after := if Scalar(m.value) then "" else m.after)
    else m.(more := WithValue(m.more, key, x))
  }

  function PlainGlyphs(key: string): (gs: seq<Glyph>)
    ensures |gs| == |key|
  {
    seq(|key|, i requires 0 <= i < |key| => Plain(key[i]))
  }

  // The member set, or put in front.
  function PutMember(o: Node, key: string, x: Node): Node
    requires o.Object?
  {
    if Named(o.members, key).Some? then o.(members := WithValue(o.members, key, x))
    else o.(members := Member("", PlainGlyphs(key), "", "", x, if o.members.NoMembers? then o.inner else "", o.members))
  }

  // The versions a name has.
  function VersionsIn(root: Node, name: string): (o: Node)
    requires root.Object?
    ensures o.Object?
  {
    if Named(root.members, name).Some? && Named(root.members, name).value.Object? then Named(root.members, name).value
    else Object("", NoMembers)
  }

  function SetIn(root: Node, name: string, version: string, enabled: bool): Node
    requires root.Object?
  {
    PutMember(PutMember(root, name, PutMember(VersionsIn(root, name), version, Verdict(enabled))), "Version", ONE)
  }

  // ---------- Texts ----------

  lemma {:induction false} NodeAppends(n: Node, r: string)
    ensures NodeText(n, r) == NodeText(n, "") + r
    decreases n, 1
  {
    match n
    case Word(word) => assert word + "" == word;
    case Numeral(number) => NumberAppends(number, r);
    case Text(glyphs) => assert "\"" + (Written(glyphs) + ("\"" + r)) == "\"" + (Written(glyphs) + "\"") + r;
    case Array(inner, items) =>
      if items.NoItems? {
        assert "[" + (inner + ("]" + r)) == "[" + (inner + "]") + r;
      } else {
        ItemsAppend(items, r);
      }
    case Object(inner, members) =>
      if members.NoMembers? {
        assert "{" + (inner + ("}" + r)) == "{" + (inner + "}") + r;
      } else {
        MembersAppend(members, r);
      }
  }

  lemma NumberAppends(n: Number, r: string)
    ensures n.Text(r) == n.Text("") + r
  {
    var p := n.power;
    assert p.Text(r) == p.Text("") + r;
    assert n.Fractional(r) == n.Fractional("") + r;
  }

  lemma {:induction false} ItemsAppend(s: Items, r: string)
    requires s.Item?
    ensures ItemsText(s, r) == ItemsText(s, "") + r
    decreases s, 0
  {
    var x := if s.more.NoItems? then "]" + r else "," + ItemsText(s.more, r);
    var y := if s.more.NoItems? then "]" + "" else "," + ItemsText(s.more, "");
    if s.more.Item? {
      ItemsAppend(s.more, r);
    }
    hide NodeText, ItemsText;
    assert x == y + r;
    NodeAppends(s.value, s.after + x);
    NodeAppends(s.value, s.after + y);
  }

  lemma {:induction false} MembersAppend(m: Members, r: string)
    requires m.Member?
    ensures MembersText(m, r) == MembersText(m, "") + r
    decreases m, 1
  {
    hide NodeText, MembersText, Head;
    if m.more.Member? {
      MembersAppend(m.more, r);
    }
    var x, y := MemberEnd(m, r), MemberEnd(m, "");
    assert x == y + r;
    HeadThen(m, r);
    HeadThen(m, "");
    NodeAppends(m.value, m.after + x);
    NodeAppends(m.value, m.after + y);
    FourParts(Head(m), NodeText(m.value, ""), m.after, y, r);
  }

  lemma FourParts(a: string, b: string, c: string, d: string, r: string)
    ensures a + (b + (c + (d + r))) == (a + (b + (c + d))) + r
  {
    assert c + (d + r) == (c + d) + r;
    assert b + ((c + d) + r) == (b + (c + d)) + r;
  }

  // A member's text up to its value.
  function Head(m: Members): string
    requires m.Member?
  {
    m.before + ("\"" + (Written(m.key) + ("\"" + (m.middle + (":" + m.gap)))))
  }

  lemma HeadThen(m: Members, r: string)
    requires m.Member?
    ensures MembersText(m, r) == Head(m) + MemberValue(m, r)
  {
    hide NodeText, Written;
    var v := MemberValue(m, r);
    assert GlyphsText(m.key, m.middle + (":" + (m.gap + v))) == Written(m.key) + ("\"" + (m.middle + (":" + (m.gap + v))));
  }

  lemma QuietPassed(w: string, end: string)
    requires Quiet(w) && (Peek(end) == ',' || Peek(end) == '}')
    ensures SkipScalar(w + end) == end
  {
    PlainPassed(w, end);
  }

  lemma HereReplaced(m: Members, key: string, x: Node, r: string)
    requires CommentedMembers(m) && Named(m, key).Some? && Written(m.key) == key
    ensures MembersText(m, r) == Head(m) + MemberValue(m, r)
    ensures MembersText(WithValue(m, key, x), r) == Head(m) + (NodeText(x, "") + SkipValue(MemberValue(m, r)))
  {
    hide NodeText, MembersText, Head, Gap, Quiet, SkipValue, SkipScalar, Written;
    var n, end := WithValue(m, key, x), MemberEnd(m, r);
    HeadThen(m, r);
    HeadThen(n, r);
    SameHead(m, x, n.after);
    ValuePassed(m.value, m.after + end);
    if Scalar(m.value) {
      QuietPassed(m.after, end);
      assert "" + end == end;
    }
    NodeAppends(x, n.after + end);
  }

  // What stands before a member's value, in the text and in the text with another value.
  lemma {:induction false} ValueReplaced(m: Members, key: string, x: Node, r: string) returns (p: string)
    requires CommentedMembers(m) && Named(m, key).Some?
    ensures MembersText(m, r) == p + NamedText(m, key, r)
    ensures MembersText(WithValue(m, key, x), r) == p + (NodeText(x, "") + SkipValue(NamedText(m, key, r)))
    decreases m
  {
    hide NodeText, MembersText, Head, Gap, Quiet, SkipValue, Written, MemberValue;
    if Written(m.key) == key {
      HereReplaced(m, key, x, r);
      p := Head(m);
    } else {
      var q := ValueReplaced(m.more, key, x, r);
      p := Before(m) + q;
      var n := WithValue(m, key, x);
      LaterMember(m, r);
      LaterMember(n, r);
      SameHeadMore(m, n.more);
    }
  }

  // A member and its comma.
  function Before(m: Members): string
    requires m.Member?
  {
    Head(m) + (NodeText(m.value, "") + (m.after + ","))
  }

  lemma LaterMember(m: Members, r: string)
    requires m.Member? && m.more.Member?
    ensures MembersText(m, r) == Before(m) + MembersText(m.more, r)
  {
    hide NodeText, MembersText, Head;
    HeadThen(m, r);
    NodeAppends(m.value, m.after + ("," + MembersText(m.more, r)));
    FourParts(Head(m), NodeText(m.value, ""), m.after, ",", MembersText(m.more, r));
  }

  lemma SameHead(m: Members, x: Node, after: string)
    requires m.Member?
    ensures Head(m.(value := x, after := after)) == Head(m)
  {
  }

  lemma SameHeadMore(m: Members, more: Members)
    requires m.Member?
    ensures Head(m.(more := more)) == Head(m)
  {
  }

  // The named value, and what stands behind it.
  lemma {:induction false} NamedThen(m: Members, key: string, r: string) returns (y: string)
    requires CommentedMembers(m) && Named(m, key).Some?
    ensures NamedText(m, key, r) == NodeText(Named(m, key).value, y) && Commented(Named(m, key).value)
    ensures Peek(SkipGap(y)) == ',' || Peek(SkipGap(y)) == '}'
    decreases m
  {
    hide NodeText, MembersText, Gap, Quiet, SkipGap, Written;
    if Written(m.key) == key {
      var end := MemberEnd(m, r);
      y := m.after + end;
      GapTo(m.after, end);
    } else {
      y := NamedThen(m.more, key, r);
    }
  }

  // ---------- Replacing a member ----------

  lemma PlainWritten(key: string)
    ensures Written(PlainGlyphs(key)) == key
    decreases |key|
  {
    if key != "" {
      assert PlainGlyphs(key)[1..] == PlainGlyphs(key[1..]);
      PlainWritten(key[1..]);
    }
  }

  lemma PlainValid(key: string)
    requires KeySupported(key)
    ensures AllGlyphs(PlainGlyphs(key))
  {
  }

  // An object ends with its brace.
  lemma Braces(o: Node, r: string) returns (q: string)
    requires o.Object?
    ensures NodeText(o, r) == "{" + q + "}" + r
  {
    if o.members.NoMembers? {
      q := o.inner;
      assert "{" + (q + ("}" + r)) == "{" + q + "}" + r;
    } else {
      hide MembersText;
      q := LastBrace(o.members, r);
      assert "{" + (q + ("}" + r)) == "{" + q + "}" + r;
    }
  }

  lemma {:induction false} LastBrace(m: Members, r: string) returns (q: string)
    requires m.Member?
    ensures MembersText(m, r) == q + ("}" + r)
    decreases m
  {
    hide NodeText, MembersText, Head, Before;
    if m.more.NoMembers? {
      HeadThen(m, r);
      NodeAppends(m.value, m.after + ("}" + r));
      q := Head(m) + (NodeText(m.value, "") + m.after);
      FourParts(Head(m), NodeText(m.value, ""), m.after, "", "}" + r);
      assert m.after + "" == m.after && "" + ("}" + r) == "}" + r;
    } else {
      var p := LastBrace(m.more, r);
      LaterMember(m, r);
      q := Before(m) + p;
    }
  }

  lemma FrontHead(key: string, x: Node, after: string, more: Members)
    ensures Head(Member("", PlainGlyphs(key), "", "", x, after, more)) == JsonFields.Quoted(key) + ":"
  {
    hide Written, PlainGlyphs;
    PlainWritten(key);
    assert "" + ":" + "" == ":";
  }

  lemma FiveParts(a: string, h: string, v: string, c: string, r: string)
    ensures a + (h + (v + (c + r))) == a + (h + v + c) + r
  {
    FourParts(a, h, v, c, r);
    assert h + v + c == h + (v + c);
  }

  // What stands behind a member put in front.
  lemma FrontEnd(o: Node, key: string, x: Node, r: string)
    requires o.Object? && Named(o.members, key).None?
    ensures var m := PutMember(o, key, x).members;
            m.Member? && m.after + MemberEnd(m, r) == (if o.members.NoMembers? then "" else ",") + NodeText(o, r)[1..]
  {
    hide MembersText, PlainGlyphs;
    ObjectText(o, r);
    hide NodeText;
    var rest := if o.members.NoMembers? then o.inner + ("}" + r) else MembersText(o.members, r);
    assert NodeText(o, r)[1..] == rest;
    assert "" + rest == rest;
  }

  // The text of an object with a new member in front.
  lemma FrontText(o: Node, key: string, x: Node, r: string)
    requires o.Object? && Named(o.members, key).None?
    ensures NodeText(PutMember(o, key, x), r) ==
            "{" + (JsonFields.Quoted(key) + ":" + NodeText(x, "") + (if o.members.NoMembers? then "" else ",")) + NodeText(o, r)[1..]
  {
    hide NodeText, MembersText, Head, PlainGlyphs, Named, Written;
    var n := PutMember(o, key, x);
    FrontEnd(o, key, x, r);
    StartOf(o, r);
    ObjectText(n, r);
    HeadThen(n.members, r);
    FrontHead(key, x, n.members.after, n.members.more);
    NodeAppends(x, n.members.after + MemberEnd(n.members, r));
    FiveParts("{", JsonFields.Quoted(key) + ":", NodeText(x, ""), if o.members.NoMembers? then "" else ",", NodeText(o, r)[1..]);
  }

  lemma ObjectText(o: Node, r: string)
    requires o.Object?
    ensures NodeText(o, r) == "{" + if o.members.NoMembers? then o.inner + ("}" + r) else MembersText(o.members, r)
  {
  }

  lemma Prepended(w: string, o: Node, tail: string, key: string, x: Node)
    requires Commented(o) && o.Object? && Named(o.members, key).None?
    ensures var start := NodeText(o, tail);
            && start != "" && (Peek(SkipGap(start[1..])) == '}' <==> o.members.NoMembers?)
            && Between(w + start, start[1..]) +
               (JsonFields.Quoted(key) + ":" + NodeText(x, "") + (if o.members.NoMembers? then "" else ",")) + start[1..] ==
               w + NodeText(PutMember(o, key, x), tail)
  {
    hide NodeText, MembersText, Gap, Quiet, SkipGap, PutMember, Named;
    var start := NodeText(o, tail);
    StartOf(o, tail);
    FrontText(o, key, x, tail);
    FirstGap(o, tail);
    var value := JsonFields.Quoted(key) + ":" + NodeText(x, "") + (if o.members.NoMembers? then "" else ",");
    assert w + start == (w + "{") + start[1..];
    assert Between(w + start, start[1..]) == w + "{";
    assert w + "{" + value + start[1..] == w + ("{" + value + start[1..]);
  }

  // Setting a member's text sets the member of the tree.
  lemma ReplacedOnTree(w: string, o: Node, tail: string, key: string, x: Node)
    requires Gap(w) && Commented(o) && o.Object? && KeySupported(key) && Peek(SkipGap(tail)) == '\0'
    ensures Replaced(w + NodeText(o, tail), key, NodeText(x, "")) == Some(w + NodeText(PutMember(o, key, x), tail))
  {
    hide NodeText, MembersText, Gap, Quiet, SkipGap, SkipValue, KeySupported, FindMember, PutMember, Named, NamedText;
    var start := NodeText(o, tail);
    var s := w + start;
    GapPassed(w, start);
    ValueStarts(o, tail);
    ValuePassed(o, tail);
    var q := Braces(o, tail);
    assert start == ("{" + q) + ("}" + tail);
    assert start[|start| - |tail| - 1] == '}';
    NoGap("");
    GapIsNothing();
    MemberIsNamed("", o, key, tail);
    assert "" + start == start;
    if Named(o.members, key).Some? {
      Exchanged(w, o, tail, key, x);
    } else {
      Prepended(w, o, tail, key, x);
    }
  }

  lemma GapIsNothing()
    ensures Gap("")
  {
    assert AllFillers([]) && Fill([]) == "";
  }

  lemma StartOf(o: Node, r: string)
    requires o.Object?
    ensures NodeText(o, r) != "" && NodeText(o, r)[0] == '{'
  {
  }

  lemma FirstGap(o: Node, r: string)
    requires o.Object? && Commented(o)
    ensures Peek(SkipGap(NodeText(o, r)[1..])) == '}' <==> o.members.NoMembers?
  {
    hide NodeText, MembersText, Gap, SkipGap;
    ObjectText(o, r);
    if o.members.NoMembers? {
      GapTo(o.inner, "}" + r);
      assert NodeText(o, r)[1..] == o.inner + ("}" + r);
    } else {
      MemberStarts(o.members, r);
      assert NodeText(o, r)[1..] == MembersText(o.members, r);
    }
  }

  lemma Exchanged(w: string, o: Node, tail: string, key: string, x: Node)
    requires Commented(o) && o.Object? && Named(o.members, key).Some?
    ensures var s := w + NodeText(o, tail);
            var at := NamedText(o.members, key, tail);
            && |SkipValue(at)| < |at| <= |s|
            && Between(s, at) + NodeText(x, "") + SkipValue(at) == w + NodeText(PutMember(o, key, x), tail)
  {
    hide NodeText, MembersText, Gap, Quiet, SkipValue, NamedText, Named;
    var at := NamedText(o.members, key, tail);
    var p := ValueReplaced(o.members, key, x, tail);
    ObjectText(o, tail);
    ObjectText(PutMember(o, key, x), tail);
    NamedPart(o.members, key);
    assert w + ("{" + (p + at)) == (w + ("{" + p)) + at;
    assert Between(w + NodeText(o, tail), at) == w + ("{" + p);
    assert (w + ("{" + p)) + NodeText(x, "") + SkipValue(at) == w + ("{" + (p + (NodeText(x, "") + SkipValue(at))));
    Shorter(o.members, key, tail);
  }

  lemma {:induction false} NamedPart(m: Members, key: string)
    requires Named(m, key).Some?
    ensures m.Member?
  {
  }

  lemma Shorter(m: Members, key: string, r: string)
    requires CommentedMembers(m) && Named(m, key).Some?
    ensures |SkipValue(NamedText(m, key, r))| < |NamedText(m, key, r)|
  {
    hide NodeText, SkipValue, SkipScalar, Gap, Quiet, NamedText, Named;
    var y := NamedThen(m, key, r);
    var v := Named(m, key).value;
    ValuePassed(v, y);
    ValueStarts(v, y);
    NodeAppends(v, y);
    ValueStarts(v, "");
  }

  // ---------- Reading an entry ----------

  lemma TrueOnTree(u: Node, z: string)
    requires Commented(u) && (Peek(SkipGap(z)) == ',' || Peek(SkipGap(z)) == '}')
    ensures IsTrue(NodeText(u, z)) <==> u == TRUE
  {
    hide SkipGap, GlyphsText, ItemsText, MembersText, Quiet;
    ValueStarts(u, z);
    var t := NodeText(u, z);
    if u == TRUE {
      assert t[..4] == "true" && t[4..] == z;
    } else {
      WordStart(t, "true");
    }
  }

  // The text's answer is the tree's, whatever gaps there are.
  lemma EnabledOnTree(w: string, root: Node, r: string, name: string, version: string)
    requires Gap(w) && Commented(root)
    ensures IsEnabled(w + NodeText(root, r), name, version) == EnabledIn(root, name, version)
  {
    hide Gap, Quiet, SkipGap, NodeText, IsTrue, Named, NamedText, FindMember;
    MemberIsNamed(w, root, name, r);
    if root.Object? && Named(root.members, name).Some? {
      var entry := Named(root.members, name).value;
      var y := NamedThen(root.members, name, r);
      ValueStarts(entry, y);
      GapIsNothing();
      if entry.Object? {
        MemberIsNamed("", entry, version, y);
        assert "" + NodeText(entry, y) == NodeText(entry, y);
        if Named(entry.members, version).Some? {
          var z := NamedThen(entry.members, version, y);
          TrueOnTree(Named(entry.members, version).value, z);
        }
      } else {
        TrueOnTree(entry, y);
      }
    }
  }

  // ---------- Setting an entry ----------

  lemma {:induction false} NamedWith(m: Members, key: string, x: Node, k: string)
    requires Named(m, key).Some?
    ensures Named(WithValue(m, key, x), k) == if k == key then Some(x) else Named(m, k)
    decreases m
  {
    hide Written;
    if Written(m.key) != key {
      NamedWith(m.more, key, x, k);
    }
  }

  // Setting a member sets that one and no other.
  lemma NamedPut(o: Node, key: string, x: Node, k: string)
    requires o.Object?
    ensures Named(PutMember(o, key, x).members, k) == if k == key then Some(x) else Named(o.members, k)
  {
    hide Written, PlainGlyphs;
    if Named(o.members, key).Some? {
      NamedWith(o.members, key, x, k);
    } else {
      PlainWritten(key);
    }
  }

  // A number or a word can stand where the member's value does.
  ghost predicate Room(m: Members, key: string, x: Node)
    decreases m
  {
    m.Member? ==>
      if Written(m.key) == key then Scalar(x) && !Scalar(m.value) ==> Quiet(m.after) else Room(m.more, key, x)
  }

  lemma {:induction false} WithCommented(m: Members, key: string, x: Node)
    requires CommentedMembers(m) && Commented(x) && Named(m, key).Some?
    ensures CommentedMembers(WithValue(m, key, x)) <==> Room(m, key, x)
    decreases m
  {
    QuietNothing();
    hide Written, Gap, Quiet;
    if Written(m.key) != key {
      WithCommented(m.more, key, x);
    }
  }

  lemma QuietNothing()
    ensures Gap("") && Quiet("")
  {
    GapIsNothing();
  }

  lemma {:induction false} NoneRoom(m: Members, key: string, x: Node)
    requires Named(m, key).None?
    ensures Room(m, key, x)
    decreases m
  {
    hide Written, Gap, Quiet;
    if m.Member? {
      NoneRoom(m.more, key, x);
    }
  }

  // The tree is one whose parts can be told apart again exactly where there is room for the value.
  lemma PutCommented(o: Node, key: string, x: Node)
    requires Commented(o) && o.Object? && KeySupported(key) && Commented(x)
    ensures Commented(PutMember(o, key, x)) <==> Room(o.members, key, x)
  {
    hide Written, Gap, KeySupported, PlainGlyphs;
    QuietNothing();
    if Named(o.members, key).Some? {
      hide Quiet;
      WithCommented(o.members, key, x);
    } else {
      PlainValid(key);
      NoneRoom(o.members, key, x);
    }
  }

  lemma {:induction false} RoomLater(m: Members, key: string, x: Node, k: string, y: Node)
    requires Named(m, key).Some? && k != key
    ensures Room(WithValue(m, key, x), k, y) <==> Room(m, k, y)
    decreases m
  {
    hide Written, Gap, Quiet;
    if Written(m.key) != key {
      RoomLater(m.more, key, x, k, y);
    }
  }

  lemma RoomPut(o: Node, key: string, x: Node, k: string, y: Node)
    requires o.Object? && k != key
    ensures Room(PutMember(o, key, x).members, k, y) <==> Room(o.members, k, y)
  {
    hide Written, Gap, Quiet, PlainGlyphs;
    if Named(o.members, key).Some? {
      RoomLater(o.members, key, x, k, y);
    } else {
      PlainWritten(key);
    }
  }

  // There is room for the version's verdict and for the file's version.
  ghost predicate RoomIn(root: Node, name: string, version: string)
    requires root.Object?
  {
    Room(VersionsIn(root, name).members, version, TRUE) && Room(root.members, "Version", ONE)
  }

  lemma {:induction false} AnyScalar(m: Members, key: string, x: Node, y: Node)
    requires Scalar(x) && Scalar(y)
    ensures Room(m, key, x) <==> Room(m, key, y)
    decreases m
  {
    hide Written, Gap, Quiet;
    if m.Member? {
      AnyScalar(m.more, key, x, y);
    }
  }

  lemma {:induction false} ObjectRoom(m: Members, key: string, x: Node)
    requires !Scalar(x)
    ensures Room(m, key, x)
    decreases m
  {
    hide Written, Gap, Quiet;
    if m.Member? {
      ObjectRoom(m.more, key, x);
    }
  }

  lemma {:induction false} NamedCommented(m: Members, key: string)
    requires CommentedMembers(m) && Named(m, key).Some?
    ensures Commented(Named(m, key).value)
    decreases m
  {
    hide Written, Gap, Quiet;
    if Written(m.key) != key {
      NamedCommented(m.more, key);
    }
  }

  lemma SmallTrees(b: bool)
    ensures Commented(Verdict(b)) && Commented(ONE) && Scalar(ONE) && Scalar(Verdict(b)) && Commented(Object("", NoMembers))
    ensures NodeText(Verdict(b), "") == Settings.Word(b) && NodeText(ONE, "") == "1" && NodeText(Object("", NoMembers), "") == "{}"
  {
    QuietNothing();
    assert ONE.number.Valid();
    assert ONE.number.Text("") == "1";
  }

  lemma VersionsCommented(root: Node, name: string)
    requires Commented(root) && root.Object?
    ensures Commented(VersionsIn(root, name))
  {
    hide Named, Gap;
    SmallTrees(true);
    if Named(root.members, name).Some? {
      NamedCommented(root.members, name);
    }
  }

  // Each of the three trees on the way.
  lemma SetCommented(root: Node, name: string, version: string, enabled: bool)
    requires Commented(root) && root.Object? && RoomIn(root, name, version)
    requires KeySupported(name) && KeySupported(version) && name != "Version"
    ensures Commented(VersionsIn(root, name)) && Commented(PutMember(VersionsIn(root, name), version, Verdict(enabled)))
    ensures Commented(PutMember(root, name, PutMember(VersionsIn(root, name), version, Verdict(enabled))))
    ensures Commented(SetIn(root, name, version, enabled))
  {
    hide Commented, Room, PutMember, VersionsIn, KeySupported;
    SmallTrees(enabled);
    SmallTrees(true);
    VersionsCommented(root, name);
    var o := VersionsIn(root, name);
    AnyScalar(o.members, version, TRUE, Verdict(enabled));
    PutCommented(o, version, Verdict(enabled));
    var v := PutMember(o, version, Verdict(enabled));
    StaysObject(o, version, Verdict(enabled));
    StaysObject(root, name, v);
    ObjectRoom(root.members, name, v);
    PutCommented(root, name, v);
    RoomPut(root, name, v, "Version", ONE);
    VersionKey();
    PutCommented(PutMember(root, name, v), "Version", ONE);
  }

  lemma VersionKey()
    ensures KeySupported("Version")
  {
  }

  lemma StaysObject(o: Node, key: string, x: Node)
    requires o.Object?
    ensures PutMember(o, key, x).Object? && !Scalar(PutMember(o, key, x))
  {
  }

  lemma VersionsText(w: string, root: Node, tail: string, name: string)
    requires Gap(w) && Commented(root) && root.Object?
    ensures Versions(w + NodeText(root, tail), name) == NodeText(VersionsIn(root, name), "")
  {
    hide Gap, Quiet, SkipGap, NodeText, Named, NamedText, FindMember, SkipValue;
    MemberIsNamed(w, root, name, tail);
    SmallTrees(true);
    if Named(root.members, name).Some? {
      var v := Named(root.members, name).value;
      var y := NamedThen(root.members, name, tail);
      ValueStarts(v, y);
      if v.Object? {
        ValuePassed(v, y);
        NodeAppends(v, y);
      }
    }
  }

  // Setting an entry in the text sets it in the tree: the gaps stay as they are, and the text is that of a tree again.
  lemma SetOnTree(w: string, root: Node, tail: string, name: string, version: string, enabled: bool)
    requires Gap(w) && Commented(root) && root.Object? && Peek(SkipGap(tail)) == '\0' && RoomIn(root, name, version)
    requires KeySupported(name) && KeySupported(version) && name != "Version"
    ensures SetEnabled(w + NodeText(root, tail), name, version, enabled) ==
            Some(w + NodeText(SetIn(root, name, version, enabled), tail))
    ensures Commented(SetIn(root, name, version, enabled))
  {
    hide Gap, Commented, Room, SkipGap, NodeText, Named, PutMember, VersionsIn, KeySupported, Replaced, Versions;
    var s, o := w + NodeText(root, tail), VersionsIn(root, name);
    var x := Verdict(enabled);
    SetCommented(root, name, version, enabled);
    VersionsText(w, root, tail, name);
    SmallTrees(enabled);
    GapIsNothing();
    NothingLeft();
    ReplacedOnTree("", o, "", version, x);
    assert "" + NodeText(o, "") == NodeText(o, "");
    var v := PutMember(o, version, x);
    assert "" + NodeText(v, "") == NodeText(v, "");
    ReplacedOnTree(w, root, tail, name, v);
    StaysObject(root, name, v);
    VersionKey();
    ReplacedOnTree(w, PutMember(root, name, v), tail, "Version", ONE);
  }

  lemma NothingLeft()
    ensures Peek(SkipGap("")) == '\0'
  {
  }

  // In the tree: the version is as set, the mod's other versions and every other name but "Version" are as before.
  lemma SetKeeps(root: Node, name: string, version: string, enabled: bool)
    requires root.Object? && name != "Version"
    ensures var t := SetIn(root, name, version, enabled);
            && t.Object? && EnabledIn(t, name, version) == enabled
            && (forall other :: other != name && other != "Version" ==> Named(t.members, other) == Named(root.members, other))
            && Named(t.members, "Version") == Some(ONE)
            && VersionsIn(t, name) == PutMember(VersionsIn(root, name), version, Verdict(enabled))
            && (forall v :: v != version ==>
                  Named(VersionsIn(t, name).members, v) == Named(VersionsIn(root, name).members, v))
  {
    hide PutMember, Named;
    var o, x := VersionsIn(root, name), Verdict(enabled);
    var v := PutMember(o, version, x);
    StaysObject(o, version, x);
    StaysObject(root, name, v);
    var u := PutMember(root, name, v);
    StaysObject(u, "Version", ONE);
    NamedPut(o, version, x, version);
    NamedPut(root, name, v, name);
    NamedPut(u, "Version", ONE, name);
    NamedPut(u, "Version", ONE, "Version");
    forall other | other != name && other != "Version"
      ensures Named(PutMember(u, "Version", ONE).members, other) == Named(root.members, other)
    {
      NamedPut(root, name, v, other);
      NamedPut(u, "Version", ONE, other);
    }
    forall k | k != version ensures Named(v.members, k) == Named(o.members, k) {
      NamedPut(o, version, x, k);
    }
  }

  // So it is in the text, comments and all.
  lemma SetThenGet(w: string, root: Node, tail: string, name: string, version: string, enabled: bool) returns (t: string)
    requires Gap(w) && Commented(root) && root.Object? && Peek(SkipGap(tail)) == '\0' && RoomIn(root, name, version)
    requires KeySupported(name) && KeySupported(version) && name != "Version"
    ensures SetEnabled(w + NodeText(root, tail), name, version, enabled) == Some(t)
    ensures IsEnabled(t, name, version) == enabled
    ensures forall other, v :: other != name && other != "Version" ==>
              IsEnabled(t, other, v) == IsEnabled(w + NodeText(root, tail), other, v)
  {
    hide Gap, Commented, Room, SkipGap, NodeText, Named, SetIn, VersionsIn, KeySupported, SetEnabled, IsEnabled;
    var s, after := w + NodeText(root, tail), SetIn(root, name, version, enabled);
    SetOnTree(w, root, tail, name, version, enabled);
    SetKeeps(root, name, version, enabled);
    t := w + NodeText(after, tail);
    EnabledOnTree(w, after, tail, name, version);
    forall other, v | other != name && other != "Version" ensures IsEnabled(t, other, v) == IsEnabled(s, other, v) {
      EnabledOnTree(w, after, tail, other, v);
      EnabledOnTree(w, root, tail, other, v);
    }
  }

  // ---------- Names that need no escape ----------

  predicate AsWritten(c: char) {
    c >= ' ' && c != '"' && c != '\\'
  }

  // A literal's text is shorter than the literal unless every character stands for itself.
  lemma {:induction false} EscapesShorten(t: string)
    requires ReadChars(t).Some?
    ensures var l := ReadChars(t).value;
            && |l.text| + |l.rest| + 1 <= |t|
            && (|l.text| + |l.rest| + 1 == |t| ==> forall i :: 0 <= i < |l.text| ==> AsWritten(t[i]))
    decreases |t|
  {
    if t[0] != '"' {
      PieceShortens(t);
      hide NextPiece;
      var p := NextPiece(t).value;
      var l := ReadChars(t[p.n..]).value;
      EscapesShorten(t[p.n..]);
      forall i | 0 <= i < |p.text + l.text| && |p.text + l.text| + |l.rest| + 1 == |t| ensures AsWritten(t[i]) {
        if i > 0 {
          assert t[i] == t[1..][i - 1];
        }
      }
    }
  }

  lemma Utf8Short(code: nat)
    requires code < 0x11_0000
    ensures |Utf8(code)| <= 4
  {
  }

  lemma CodeShortens(t: string)
    requires UnicodePiece(t).Some?
    ensures |UnicodePiece(t).value.text| <= 4 <= UnicodePiece(t).value.n
  {
    hide Utf8, Hex4, HasHex4;
    var code, rest := Hex4(t), t[4..];
    Utf8Short(code);
    if IsHigh(code) && |rest| >= 2 && HasHex4(rest[2..]) && IsLow(Hex4(rest[2..])) {
      Utf8Short(0x1_0000 + (code - 0xd800) * 1024 + (Hex4(rest[2..]) - 0xdc00));
    }
  }

  lemma PieceShortens(t: string)
    requires t != "" && t[0] != '"' && NextPiece(t).Some?
    ensures var p := NextPiece(t).value; |p.text| <= p.n && (|p.text| == p.n ==> p.n == 1 && AsWritten(t[0]))
  {
    hide UnicodePiece, IsSimpleEscape;
    if t[0] == '\\' && !IsSimpleEscape(Peek(t[1..])) {
      CodeShortens(t[2..]);
    }
  }

  lemma {:induction false} ReadsAsWritten(key: string)
    requires forall i :: 0 <= i < |key| ==> AsWritten(key[i])
    ensures ReadChars(key + "\"") == Some(Literal(key, ""))
    decreases |key|
  {
    var t := key + "\"";
    if key != "" {
      assert t[1..] == key[1..] + "\"";
      ReadsAsWritten(key[1..]);
      assert NextPiece(t) == Some(Piece([key[0]], 1));
      assert [key[0]] + key[1..] == key;
    } else {
      assert t[1..] == "";
    }
  }

  // The names that can be set are those whose literal, quotes around the bare name, reads back as the name.
  lemma SupportedExactly(key: string)
    ensures KeySupported(key) <==> key != "" && ReadChars(key + "\"") == Some(Literal(key, ""))
  {
    hide ReadChars;
    if forall i :: 0 <= i < |key| ==> AsWritten(key[i]) {
      ReadsAsWritten(key);
    }
    if ReadChars(key + "\"") == Some(Literal(key, "")) {
      EscapesShorten(key + "\"");
      forall i | 0 <= i < |key| ensures AsWritten(key[i]) {
        assert key[i] == (key + "\"")[i];
      }
    }
  }
}
