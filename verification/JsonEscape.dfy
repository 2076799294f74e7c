// Writing a string literal, and reading it back.
module JsonEscape {
  import opened Options
  import opened JsonText

  function HexDigit(n: nat): (c: char)
    requires n < 16
    ensures IsHex(c) && HexValue(c) == n
  {
    if n < 10 then ('0' as nat + n) as char else ('a' as nat + (n - 10)) as char
  }

  // One character, as it is written.
  function Escaped(c: char): string {
    match c
    case '"' => "\\\""
    case '\\' => "\\\\"
    case '\n' => "\\n"
    case '\r' => "\\r"
    case '\t' => "\\t"
    case _ =>
      if c == 8 as char then "\\b"
      else if c == 12 as char then "\\f"
      else if c < ' ' then "\\u00" + [HexDigit(c as nat / 16), HexDigit(c as nat % 16)]
      else [c]
  }

  function AllEscaped(text: string): string
    decreases |text|
  {
    if text == [] then [] else Escaped(text[0]) + AllEscaped(text[1..])
  }

  // The literal, with its quotes.
  function Literally(text: string): string {
    "\"" + AllEscaped(text) + "\""
  }

  // An escaped character reads as one piece that stands for it.
  lemma PieceBack(c: char, rest: string)
    requires rest != [] && !IsHigh(c as nat)
    ensures var t := Escaped(c) + rest;
            && t[0] != '"' && NextPiece(t) == Some(Piece([c], |Escaped(c)|)) && t[|Escaped(c)|..] == rest
  {
    var t := Escaped(c) + rest;
    assert t[|Escaped(c)|..] == rest;
    if c == '"' || c == '\\' || c == '\n' || c == '\r' || c == '\t' || c == 8 as char || c == 12 as char {
      assert t[1..][0] == Escaped(c)[1];
    } else if c < ' ' {
      UnicodeBack(c, rest);
      assert t[1..][0] == 'u';
      assert t[2..] == ['0', '0', HexDigit(c as nat / 16), HexDigit(c as nat % 16)] + rest;
    }
  }

  lemma UnicodeBack(c: char, rest: string)
    requires c < ' '
    ensures UnicodePiece(['0', '0', HexDigit(c as nat / 16), HexDigit(c as nat % 16)] + rest) == Some(Piece([c], 4))
  {
    var t := ['0', '0', HexDigit(c as nat / 16), HexDigit(c as nat % 16)] + rest;
    assert HexValue('0') == 0;
    assert Hex4(t) == c as nat;
  }

  lemma {:induction false} CharsBack(text: string, rest: string)
    requires forall i :: 0 <= i < |text| ==> text[i] as nat < 256
    ensures ReadChars(AllEscaped(text) + ("\"" + rest)) == Some(Literal(text, rest))
    decreases |text|
  {
    var end := "\"" + rest;
    if text == [] {
      assert AllEscaped(text) + end == end && end[1..] == rest;
    } else {
      var more := AllEscaped(text[1..]) + end;
      assert AllEscaped(text) + end == Escaped(text[0]) + more;
      hide NextPiece, Escaped;
      PieceBack(text[0], more);
      CharsBack(text[1..], rest);
      assert [text[0]] + text[1..] == text;
    }
  }

  // Every byte string, written as a literal, reads back as itself; the parser refuses it exactly when it holds a NUL.
  lemma LiteralBack(text: string, rest: string)
    requires forall i :: 0 <= i < |text| ==> text[i] as nat < 256
    ensures ReadChars((Literally(text) + rest)[1..]) == Some(Literal(text, rest))
    ensures ReadString(Literally(text) + rest) == if '\0' in text then None else Some(rest)
  {
    hide ReadChars, AllEscaped;
    CharsBack(text, rest);
    assert (Literally(text) + rest)[1..] == AllEscaped(text) + ("\"" + rest);
  }

  lemma EscapedNext(text: string, i: nat)
    requires i < |text|
    ensures AllEscaped(text[i..]) == Escaped(text[i]) + AllEscaped(text[i + 1..])
  {
    hide Escaped;
    assert text[i..][0] == text[i] && text[i..][1..] == text[i + 1..];
  }

  lemma EscapedEnd(text: string)
    ensures AllEscaped(text[|text|..]) == ""
  {
    assert text[|text|..] == [];
  }

  method EscapeInto(before: string, text: string) returns (out: string)
    ensures out == before + Literally(text)
  {
    hide Escaped, AllEscaped;
    out := before + "\"";
    assert text[0..] == text;
    for i := 0 to |text|
      invariant out + AllEscaped(text[i..]) == before + "\"" + AllEscaped(text)
    {
      EscapedNext(text, i);
      assert out + (Escaped(text[i]) + AllEscaped(text[i + 1..])) == out + Escaped(text[i]) + AllEscaped(text[i + 1..]);
      out := out + Escaped(text[i]);
    }
    EscapedEnd(text);
    assert out + "" == out;
    assert before + "\"" + AllEscaped(text) + "\"" == before + ("\"" + AllEscaped(text) + "\"");
    out := out + "\"";
  }
}
