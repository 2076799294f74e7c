// Little-endian words in a byte string.
module RpakBytes {
  import opened Bits

  const WORD32: nat := 0x1_0000_0000

  // The n-byte number at position `at`, low byte first.
  function Le(s: seq<Byte>, at: nat, n: nat): nat
    requires at + n <= |s|
    decreases n, |s|
  {
    if n == 0 then 0 else s[at] as nat + 256 * Le(s, at + 1, n - 1)
  }

  function LeBytes(v: nat, n: nat): (b: seq<Byte>)
    ensures |b| == n
    decreases n, v
  {
    if n == 0 then [] else [v % 256] + LeBytes(v / 256, n - 1)
  }

  function Limit(n: nat): (r: nat)
    ensures r > 0
  {
    if n == 0 then 1 else 256 * Limit(n - 1)
  }

  // The string with the n-byte number v written at `at`; digits that do not fit are dropped.
  function Put(s: seq<Byte>, at: nat, n: nat, v: nat): (r: seq<Byte>)
    requires at + n <= |s|
    ensures |r| == |s|
    ensures forall i :: 0 <= i < |s| && !(at <= i < at + n) ==> r[i] == s[i]
  {
    s[..at] + LeBytes(v, n) + s[at + n..]
  }

  function U16(s: seq<Byte>, at: nat): nat
    requires at + 2 <= |s|
  {
    Le(s, at, 2)
  }

  function U32(s: seq<Byte>, at: nat): (v: nat)
    requires at + 4 <= |s|
    ensures v < WORD32
  {
    LeBound(s, at, 4);
    Limit4();
    Le(s, at, 4)
  }

  function U64(s: seq<Byte>, at: nat): nat
    requires at + 8 <= |s|
  {
    Le(s, at, 8)
  }

  lemma Limit4()
    ensures Limit(4) == WORD32
  {
  }

  lemma {:induction false} LeBound(s: seq<Byte>, at: nat, n: nat)
    requires at + n <= |s|
    ensures Le(s, at, n) < Limit(n)
    decreases n
  {
    if n > 0 {
      LeBound(s, at + 1, n - 1);
    }
  }

  // Equal bytes make equal numbers, wherever they stand.
  lemma {:induction false} LeSame(s: seq<Byte>, at: nat, t: seq<Byte>, bt: nat, n: nat)
    requires at + n <= |s| && bt + n <= |t| && s[at..at + n] == t[bt..bt + n]
    ensures Le(s, at, n) == Le(t, bt, n)
    decreases n
  {
    if n > 0 {
      assert s[at] == s[at..at + n][0] && t[bt] == t[bt..bt + n][0];
      assert s[at + 1..at + n] == s[at..at + n][1..] && t[bt + 1..bt + n] == t[bt..bt + n][1..];
      LeSame(s, at + 1, t, bt + 1, n - 1);
    }
  }

  lemma {:induction false} LeOfBytes(v: nat, n: nat)
    requires v < Limit(n)
    ensures Le(LeBytes(v, n), 0, n) == v
    decreases n
  {
    if n > 0 {
      LeOfBytes(v / 256, n - 1);
      LeSame(LeBytes(v, n), 1, LeBytes(v / 256, n - 1), 0, n - 1);
    }
  }

  // Reading back a word just written.
  lemma LeOfPut(s: seq<Byte>, at: nat, n: nat, v: nat)
    requires at + n <= |s| && v < Limit(n)
    ensures Le(Put(s, at, n, v), at, n) == v
  {
    LeOfBytes(v, n);
    assert Put(s, at, n, v)[at..at + n] == LeBytes(v, n)[0..n];
    LeSame(Put(s, at, n, v), at, LeBytes(v, n), 0, n);
  }

  // A word elsewhere is untouched by a write.
  lemma LeElsewhere(s: seq<Byte>, at: nat, n: nat, v: nat, bt: nat, m: nat)
    requires at + n <= |s| && bt + m <= |s| && (at + n <= bt || bt + m <= at)
    ensures Le(Put(s, at, n, v), bt, m) == Le(s, bt, m)
  {
    assert Put(s, at, n, v)[bt..bt + m] == s[bt..bt + m];
    LeSame(Put(s, at, n, v), bt, s, bt, m);
  }
}
