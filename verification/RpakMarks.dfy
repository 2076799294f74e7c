// The marks the formats use, byte by byte.
module RpakMarks {
  import opened Bits
  import opened RpakBytes
  import opened RpakSpecs
  import opened RpakRelocate
  import opened RpakGate
  import RpakStreams
  import Lzss

  // A word has a value exactly when its bytes are that value's.
  lemma {:induction false} WordIs(s: seq<Byte>, at: nat, n: nat, v: nat)
    requires at + n <= |s| && v < Limit(n)
    ensures Le(s, at, n) == v <==> s[at..at + n] == LeBytes(v, n)
    decreases n
  {
    if n > 0 {
      WordIs(s, at + 1, n - 1, v / 256);
      assert s[at..at + n] == [s[at]] + s[at + 1..at + n];
      var b := LeBytes(v, n);
      assert b[0] == v % 256 && b[1..] == LeBytes(v / 256, n - 1);
      if s[at..at + n] == b {
        assert s[at] == b[0] && s[at + 1..at + n] == b[1..];
      }
    }
  }

  lemma FourBytes(v: nat)
    ensures LeBytes(v, 4) == [v % 256, v / 256 % 256, v / 256 / 256 % 256, v / 256 / 256 / 256 % 256]
  {
    var w := v / 256;
    assert LeBytes(w, 3) == [w % 256] + LeBytes(w / 256, 2);
    assert LeBytes(w / 256, 2) == [w / 256 % 256] + LeBytes(w / 256 / 256, 1);
    assert LeBytes(w / 256 / 256, 1) == [w / 256 / 256 % 256] + LeBytes(w / 256 / 256 / 256, 0);
  }

  lemma FourAre(s: seq<Byte>, at: nat, v: nat)
    requires at + 4 <= |s| && v < WORD32
    ensures U32(s, at) == v <==>
            s[at..at + 4] == [v % 256, v / 256 % 256, v / 256 / 256 % 256, v / 256 / 256 / 256 % 256]
  {
    Limit4();
    WordIs(s, at, 4, v);
    FourBytes(v);
  }

  function Letters(s: string): seq<Byte> {
    seq(|s|, i requires 0 <= i < |s| => if s[i] as int < 256 then s[i] as int else 0)
  }

  // Assets are told apart by four letters.
  lemma AssetKinds(s: seq<Byte>, at: nat)
    requires at + 4 <= |s|
    ensures U32(s, at) == TEXTURE_TYPE <==> s[at..at + 4] == Letters("txtr")
    ensures U32(s, at) == MATERIAL_TYPE <==> s[at..at + 4] == Letters("matl")
    ensures U32(s, at) == DATATABLE_TYPE <==> s[at..at + 4] == Letters("dtbl")
  {
    hide U32;
    FourAre(s, at, TEXTURE_TYPE);
    FourAre(s, at, MATERIAL_TYPE);
    FourAre(s, at, DATATABLE_TYPE);
    assert Letters("txtr") == [0x74, 0x78, 0x74, 0x72];
    assert Letters("matl") == [0x6d, 0x61, 0x74, 0x6c];
    assert Letters("dtbl") == [0x64, 0x74, 0x62, 0x6c];
  }

  // An engine stream starts with four letters.
  lemma StreamMark(s: seq<Byte>)
    requires |s| >= 4
    ensures U32(s, 0) == Lzss.ID <==> s[..4] == Letters("LZSS")
  {
    hide U32;
    FourAre(s, 0, Lzss.ID);
    assert Letters("LZSS") == [0x4c, 0x5a, 0x53, 0x53];
  }

  // An archive starts with four letters and its version.
  lemma ArchiveMark(s: seq<Byte>, flags: set<nat>)
    requires Stamped(s, flags)
    ensures s[..4] == Letters("RPak") && s[4..6] == [7, 0]
  {
    assert s[..4] == Letters("RPak");
    assert Le(s, 4, 2) == s[4] as nat + 256 * Le(s, 5, 1) && Le(s, 5, 1) == s[5] as nat + 256 * Le(s, 6, 0);
  }

  // A reference to nothing has four bytes of ones for its page.
  lemma AbsentPage(s: seq<Byte>, at: nat)
    requires at + 4 <= |s|
    ensures U32(s, at) == NO_PAGE <==> s[at..at + 4] == [255, 255, 255, 255]
  {
    hide U32;
    FourAre(s, at, NO_PAGE);
  }

  lemma {:induction false} OnesAre(n: nat)
    ensures LeBytes(Limit(n) - 1, n) == seq(n, _ => 255)
    decreases n
  {
    if n > 0 {
      OnesAre(n - 1);
      var v := Limit(n) - 1;
      assert v % 256 == 255 && v / 256 == Limit(n - 1) - 1;
      assert [255] + seq(n - 1, _ => 255) == seq(n, _ => 255);
    }
  }

  // A texture without streamed mips has eight bytes of ones for its stream.
  lemma AbsentStream(s: seq<Byte>, at: nat)
    requires at + 8 <= |s|
    ensures U64(s, at) == RpakStreams.NO_STREAM <==> s[at..at + 8] == seq(8, _ => 255)
  {
    Limit4();
    assert Limit(8) == 256 * (256 * (256 * (256 * Limit(4))));
    assert Limit(8) - 1 == RpakStreams.NO_STREAM;
    WordIs(s, at, 8, RpakStreams.NO_STREAM);
    OnesAre(8);
  }
}
