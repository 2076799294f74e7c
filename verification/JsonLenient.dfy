// The lenient JSON reader of the mod catalogue: it allows comments and never fails.
module JsonLenient {
  import opened Options
  import opened JsonText

  // ---------- Skipping ----------

  function SkipLine(t: string): (r: string)
    ensures |r| <= |t|
    decreases |t|
  {
    if Peek(t) == '\0' || Peek(t) == '\n' then t else SkipLine(t[1..])
  }

  // Past the end of a block comment, or to the end of the text.
  function SkipBlock(t: string): (r: string)
    ensures |r| <= |t|
    decreases |t|
  {
    if Peek(t) == '\0' then t
    else if StartsWith(t, "*/") then t[2..]
    else SkipBlock(t[1..])
  }

  // White space and comments.
  function SkipGap(t: string): (r: string)
    ensures |r| <= |t|
    decreases |t|
  {
    var t := SkipWs(t);
    if StartsWith(t, "//") then LineShrinks(t); SkipGap(SkipLine(t))
    else if StartsWith(t, "/*") then SkipGap(SkipBlock(t[2..]))
    else t
  }

  lemma LineShrinks(t: string)
    requires StartsWith(t, "//")
    ensures |SkipLine(t)| < |t|
  {
    assert t[0] == t[..2][0];
  }

  // The rest of a string literal, whatever is in it.
  function SkipChars(t: string): (r: string)
    ensures |r| <= |t|
    decreases |t|
  {
    if Peek(t) == '\0' then t
    else if t[0] == '\\' && Peek(t[1..]) != '\0' then SkipChars(t[2..])
    else if t[0] == '"' then t[1..]
    else SkipChars(t[1..])
  }

  function SkipString(t: string): (r: string)
    ensures |r| <= |t|
  {
    if Peek(t) == '"' then SkipChars(t[1..]) else t
  }

  function SkipScalar(t: string): (r: string)
    ensures |r| <= |t|
    decreases |t|
  {
    if Peek(t) == '\0' || Peek(t) == ',' || Peek(t) == '}' || Peek(t) == ']' then t else SkipScalar(t[1..])
  }

  function SkipValue(t: string): (r: string)
    ensures |r| <= |t|
    decreases |t|, 0
  {
    var t := SkipGap(t);
    if Peek(t) == '"' then SkipString(t)
    else if Peek(t) == '{' then SkipMembers(t[1..])
    else if Peek(t) == '[' then SkipItems(t[1..])
    else SkipScalar(t)
  }

  function SkipMembers(t: string): (r: string)
    ensures |r| <= |t|
    decreases |t|, 1
  {
    var t := SkipGap(t);
    if Peek(t) == '}' then t[1..]
    else if Peek(t) != '"' then t
    else
      var t := SkipGap(SkipString(t));
      if Peek(t) != ':' then t else
        var t := SkipGap(SkipValue(t[1..]));
        if Peek(t) == ',' then SkipMembers(t[1..])
        else if Peek(t) == '}' then t[1..]
        else t
  }

  function SkipItems(t: string): (r: string)
    ensures |r| <= |t|
    decreases |t|, 1
  {
    var t := SkipGap(t);
    if Peek(t) == ']' then t[1..] else
      var t := SkipGap(SkipValue(t));
      if Peek(t) == ',' then SkipItems(t[1..])
      else if Peek(t) == ']' then t[1..]
      else t
  }

  // ---------- Members ----------

  // Where the closing quote is, or the end of the text.
  function KeyEnd(t: string): (r: string)
    ensures |r| <= |t|
    decreases |t|
  {
    if Peek(t) == '\0' || t[0] == '"' then t
    else if t[0] == '\\' && Peek(t[1..]) != '\0' then KeyEnd(t[2..])
    else KeyEnd(t[1..])
  }

  function FindFrom(t: string, key: string): (r: Option<string>)
    ensures r.Some? ==> |r.value| <= |t|
    decreases |t|
  {
    var t := SkipGap(t);
    if Peek(t) != '"' then None else
      var start := t[1..];
      var end := KeyEnd(start);
      if Peek(end) != '"' then None else
        var matches := start[..|start| - |end|] == key;
        var t := SkipGap(end[1..]);
        if Peek(t) != ':' then None else
          var value := SkipGap(t[1..]);
          if matches then Some(value) else
            var t := SkipGap(SkipValue(value));
            if Peek(t) != ',' then None else FindFrom(t[1..], key)
  }

  // The value of the first member with a key, keys compared as they are written.
  function FindMember(t: string, key: string): (r: Option<string>)
    ensures r.Some? ==> |r.value| <= |t|
  {
    var t := SkipGap(t);
    if Peek(t) == '{' then FindFrom(t[1..], key) else None
  }

  // ---------- The code ----------

  method SkipGapAt(s: string, at: nat) returns (p: nat)
    requires at <= |s|
    ensures at <= p <= |s| && s[p..] == SkipGap(s[at..])
  {
    p := at;
    while true
      invariant at <= p <= |s| && SkipGap(s[p..]) == SkipGap(s[at..])
      decreases |s| - p
    {
      hide SkipLine, SkipBlock, SkipWs;
      p := SkipWsAt(s, p);
      WsAgain(s[p..]);
      var isLine := StartsWithAt(s, p, "//");
      var isBlock := StartsWithAt(s, p, "/*");
      if isLine {
        LineShrinks(s[p..]);
        p := SkipLineAt(s, p);
      } else if isBlock {
        TwoLong(s[p..], "/*");
        assert s[p..][2..] == s[p + 2..];
        p := SkipBlockAt(s, p + 2);
      } else {
        return;
      }
    }
  }

  lemma TwoLong(t: string, w: string)
    requires StartsWith(t, w)
    ensures |w| <= |t|
  {
  }

  lemma {:induction false} WsAgain(t: string)
    requires !IsWs(Peek(t))
    ensures SkipWs(t) == t
  {
  }

  method SkipLineAt(s: string, at: nat) returns (p: nat)
    requires at <= |s|
    ensures at <= p <= |s| && s[p..] == SkipLine(s[at..])
  {
    p := at;
    while p < |s| && s[p] != '\0' && s[p] != '\n'
      invariant at <= p <= |s| && SkipLine(s[p..]) == SkipLine(s[at..])
    {
      assert s[p..][1..] == s[p + 1..];
      p := p + 1;
    }
  }

  method SkipBlockAt(s: string, at: nat) returns (p: nat)
    requires at <= |s|
    ensures at <= p <= |s| && s[p..] == SkipBlock(s[at..])
  {
    p := at;
    while p < |s| && s[p] != '\0' && !(p + 1 < |s| && s[p] == '*' && s[p + 1] == '/')
      invariant at <= p <= |s| && SkipBlock(s[p..]) == SkipBlock(s[at..])
    {
      assert s[p..][1..] == s[p + 1..];
      if StartsWith(s[p..], "*/") {
        assert s[p] == s[p..][..2][0] && s[p + 1] == s[p..][..2][1];
      }
      p := p + 1;
    }
    if p < |s| && s[p] != '\0' {
      assert s[p..][..2] == [s[p], s[p + 1]];
      assert s[p..][2..] == s[p + 2..];
      p := p + 2;
    }
  }

  method SkipStringAt(s: string, at: nat) returns (p: nat)
    requires at <= |s|
    ensures at <= p <= |s| && s[p..] == SkipString(s[at..])
  {
    hide SkipChars, SkipString;
    StringStarts(s, at);
    p := at;
    if p == |s| || s[p] != '"' {
      return;
    }
    p := p + 1;
    while p < |s| && s[p] != '\0'
      invariant at < p <= |s| && SkipChars(s[p..]) == SkipChars(s[at + 1..])
    {
      CharSkipped(s, p);
      if s[p] == '\\' && p + 1 < |s| && s[p + 1] != '\0' {
        p := p + 2;
      } else if s[p] == '"' {
        p := p + 1;
        return;
      } else {
        p := p + 1;
      }
    }
    StringUnclosed(s, p);
  }

  lemma StringStarts(s: string, at: nat)
    requires at <= |s|
    ensures SkipString(s[at..]) == if at < |s| && s[at] == '"' then SkipChars(s[at + 1..]) else s[at..]
  {
    hide SkipChars;
    if at < |s| {
      assert s[at..][1..] == s[at + 1..];
    }
  }

  lemma StringUnclosed(s: string, p: nat)
    requires p <= |s| && (p == |s| || s[p] == '\0')
    ensures SkipChars(s[p..]) == s[p..]
  {
  }

  lemma CharSkipped(s: string, p: nat)
    requires p < |s| && s[p] != '\0'
    ensures SkipChars(s[p..]) ==
            if s[p] == '\\' && p + 1 < |s| && s[p + 1] != '\0' then SkipChars(s[p + 2..])
            else if s[p] == '"' then s[p + 1..]
            else SkipChars(s[p + 1..])
  {
    assert s[p..][1..] == s[p + 1..];
    if p + 1 < |s| {
      assert s[p..][2..] == s[p + 2..];
    }
  }

  method SkipScalarAt(s: string, at: nat) returns (p: nat)
    requires at <= |s|
    ensures at <= p <= |s| && s[p..] == SkipScalar(s[at..])
  {
    p := at;
    while p < |s| && s[p] != '\0' && s[p] != ',' && s[p] != '}' && s[p] != ']'
      invariant at <= p <= |s| && SkipScalar(s[p..]) == SkipScalar(s[at..])
    {
      assert s[p..][1..] == s[p + 1..];
      p := p + 1;
    }
  }

  method SkipValueAt(s: string, at: nat) returns (p: nat)
    requires at <= |s|
    ensures at <= p <= |s| && s[p..] == SkipValue(s[at..])
    decreases |s| - at, 0
  {
    hide SkipGap, SkipMembers, SkipItems, SkipScalar, SkipString;
    p := SkipGapAt(s, at);
    if p < |s| {
      assert s[p..][1..] == s[p + 1..];
    }
    if p < |s| && s[p] == '"' {
      p := SkipStringAt(s, p);
    } else if p < |s| && s[p] == '{' {
      p := SkipMembersAt(s, p + 1);
    } else if p < |s| && s[p] == '[' {
      p := SkipItemsAt(s, p + 1);
    } else {
      p := SkipScalarAt(s, p);
    }
  }

  method SkipMembersAt(s: string, at: nat) returns (p: nat)
    requires at <= |s|
    ensures at <= p <= |s| && s[p..] == SkipMembers(s[at..])
    decreases |s| - at, 1
  {
    hide SkipGap, SkipValue, SkipString;
    p := at;
    while true
      invariant at <= p <= |s| && SkipMembers(s[p..]) == SkipMembers(s[at..])
      decreases |s| - p
    {
      p := SkipGapAt(s, p);
      if p < |s| && s[p] == '}' {
        assert s[p..][1..] == s[p + 1..];
        p := p + 1;
        return;
      }
      if p == |s| || s[p] != '"' {
        return;
      }
      var colon := SkipStringAt(s, p);
      colon := SkipGapAt(s, colon);
      if colon == |s| || s[colon] != ':' {
        p := colon;
        return;
      }
      assert s[colon..][1..] == s[colon + 1..];
      var end := SkipValueAt(s, colon + 1);
      end := SkipGapAt(s, end);
      if end < |s| {
        assert s[end..][1..] == s[end + 1..];
      }
      if end < |s| && s[end] == ',' {
        p := end + 1;
      } else {
        p := if end < |s| && s[end] == '}' then end + 1 else end;
        return;
      }
    }
  }

  method SkipItemsAt(s: string, at: nat) returns (p: nat)
    requires at <= |s|
    ensures at <= p <= |s| && s[p..] == SkipItems(s[at..])
    decreases |s| - at, 1
  {
    hide SkipGap, SkipValue;
    p := at;
    while true
      invariant at <= p <= |s| && SkipItems(s[p..]) == SkipItems(s[at..])
      decreases |s| - p
    {
      p := SkipGapAt(s, p);
      if p < |s| && s[p] == ']' {
        assert s[p..][1..] == s[p + 1..];
        p := p + 1;
        return;
      }
      var end := SkipValueAt(s, p);
      end := SkipGapAt(s, end);
      if end < |s| {
        assert s[end..][1..] == s[end + 1..];
      }
      if end < |s| && s[end] == ',' {
        p := end + 1;
      } else {
        p := if end < |s| && s[end] == ']' then end + 1 else end;
        return;
      }
    }
  }

  method KeyEndAt(s: string, at: nat) returns (p: nat)
    requires at <= |s|
    ensures at <= p <= |s| && s[p..] == KeyEnd(s[at..])
  {
    p := at;
    while p < |s| && s[p] != '\0' && s[p] != '"'
      invariant at <= p <= |s| && KeyEnd(s[p..]) == KeyEnd(s[at..])
    {
      assert s[p..][1..] == s[p + 1..];
      if s[p] == '\\' && p + 1 < |s| && s[p + 1] != '\0' {
        assert s[p..][2..] == s[p + 2..];
        p := p + 1;
      }
      p := p + 1;
    }
  }

  method FindMemberAt(s: string, at: nat, key: string) returns (r: Option<nat>)
    requires at <= |s|
    ensures r.Some? <==> FindMember(s[at..], key).Some?
    ensures r.Some? ==> at <= r.value <= |s| && FindMember(s[at..], key) == Some(s[r.value..])
  {
    hide SkipGap, FindFrom;
    var p := SkipGapAt(s, at);
    if p == |s| || s[p] != '{' {
      return None;
    }
    assert s[p..][1..] == s[p + 1..];
    p := p + 1;
    while true
      invariant at <= p <= |s| && FindFrom(s[p..], key) == FindMember(s[at..], key)
      decreases |s| - p
    {
      var step := MemberAt(s, p, key);
      match step {
        case Missing => return None;
        case Found(value) => return Some(value);
        case More(next) => p := next;
      }
    }
  }

  datatype Step = Missing | Found(value: nat) | More(next: nat)

  // One member: its value if the key is its own, or where the next one starts.
  method MemberAt(s: string, at: nat, key: string) returns (step: Step)
    requires at <= |s|
    ensures step.Missing? ==> FindFrom(s[at..], key).None?
    ensures step.Found? ==> at <= step.value <= |s| && FindFrom(s[at..], key) == Some(s[step.value..])
    ensures step.More? ==> at < step.next <= |s| && FindFrom(s[at..], key) == FindFrom(s[step.next..], key)
  {
    hide SkipGap, SkipValue, KeyEnd;
    var p := SkipGapAt(s, at);
    if p == |s| || s[p] != '"' {
      return Missing;
    }
    assert s[p..][1..] == s[p + 1..];
    var keyStart := p + 1;
    var keyEnd := KeyEndAt(s, keyStart);
    if keyEnd == |s| || s[keyEnd] != '"' {
      return Missing;
    }
    var matches := s[keyStart..keyEnd] == key;
    assert s[keyStart..][..keyEnd - keyStart] == s[keyStart..keyEnd];
    assert s[keyEnd..][1..] == s[keyEnd + 1..];
    p := SkipGapAt(s, keyEnd + 1);
    if p == |s| || s[p] != ':' {
      return Missing;
    }
    assert s[p..][1..] == s[p + 1..];
    p := SkipGapAt(s, p + 1);
    if matches {
      return Found(p);
    }
    p := SkipValueAt(s, p);
    p := SkipGapAt(s, p);
    if p < |s| {
      assert s[p..][1..] == s[p + 1..];
    }
    step := if p == |s| || s[p] != ',' then Missing else More(p + 1);
  }
}
