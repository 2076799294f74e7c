// The index of mod files: sorted by lower-case path, highest root first, one entry a path, searched by halving.
module ModIndex {
  import opened Options

  datatype Entry = Entry(key: string, root: nat, path: string)

  function LowerChar(c: char): char {
    if 'A' <= c <= 'Z' then (c as int - 'A' as int + 'a' as int) as char else c
  }

  function Lower(s: string): (r: string)
    ensures |r| == |s|
  {
    seq(|s|, i requires 0 <= i < |s| => LowerChar(s[i]))
  }

  // ---------- Which paths share a key ----------

  const CAPITALS: string := "ABCDEFGHIJKLMNOPQRSTUVWXYZ"
  const SMALL: string := "abcdefghijklmnopqrstuvwxyz"

  // The same character, or the two cases of one letter.
  predicate SameLetter(c: char, d: char) {
    c == d || exists k :: 0 <= k < 26 && ((c == CAPITALS[k] && d == SMALL[k]) || (c == SMALL[k] && d == CAPITALS[k]))
  }

  lemma LetterCases(c: char)
    ensures |CAPITALS| == |SMALL| == 26
    ensures forall k :: 0 <= k < 26 ==> CAPITALS[k] as int == 'A' as int + k && SMALL[k] as int == 'a' as int + k
    ensures 'A' <= c <= 'Z' ==> CAPITALS[c as int - 'A' as int] == c && SMALL[c as int - 'A' as int] == LowerChar(c)
    ensures 'a' <= c <= 'z' ==> SMALL[c as int - 'a' as int] == c
  {
  }

  lemma SameLower(c: char, d: char)
    ensures LowerChar(c) == LowerChar(d) <==> SameLetter(c, d)
  {
    LetterCases(c);
    LetterCases(d);
    hide CAPITALS, SMALL;
    if LowerChar(c) == LowerChar(d) && c != d {
      var k := if 'A' <= c <= 'Z' then c as int - 'A' as int else d as int - 'A' as int;
      assert 0 <= k < 26 && ((c == CAPITALS[k] && d == SMALL[k]) || (c == SMALL[k] && d == CAPITALS[k]));
    }
  }

  // Two paths have one key exactly when they differ only in the case of letters A to Z.
  lemma SameKey(a: string, b: string)
    ensures Lower(a) == Lower(b) <==> |a| == |b| && forall i :: 0 <= i < |a| ==> SameLetter(a[i], b[i])
  {
    hide LowerChar, SameLetter;
    if Lower(a) == Lower(b) {
      forall i | 0 <= i < |a| ensures SameLetter(a[i], b[i]) {
        assert Lower(a)[i] == Lower(b)[i];
        SameLower(a[i], b[i]);
      }
    }
    if |a| == |b| && forall i :: 0 <= i < |a| ==> SameLetter(a[i], b[i]) {
      forall i | 0 <= i < |a| ensures Lower(a)[i] == Lower(b)[i] {
        SameLower(a[i], b[i]);
      }
    }
  }

  // ---------- The order of paths ----------

  predicate Less(a: string, b: string)
    decreases |a|
  {
    b != [] && (a == [] || a[0] < b[0] || (a[0] == b[0] && Less(a[1..], b[1..])))
  }

  lemma {:induction false} LessTotal(a: string, b: string)
    ensures a == b || Less(a, b) || Less(b, a)
    ensures !(Less(a, b) && Less(b, a)) && (a == b ==> !Less(a, b))
    decreases |a|
  {
    if a != [] && b != [] && a[0] == b[0] {
      LessTotal(a[1..], b[1..]);
      assert a == [a[0]] + a[1..] && b == [b[0]] + b[1..];
    }
  }

  lemma {:induction false} LessTrans(a: string, b: string, c: string)
    requires Less(a, b) && Less(b, c)
    ensures Less(a, c)
    decreases |a|
  {
    if a != [] && a[0] == b[0] && b[0] == c[0] {
      LessTrans(a[1..], b[1..], c[1..]);
    }
  }

  // Earlier path first; the same path in a higher root first.
  predicate Before(x: Entry, y: Entry) {
    if x.key != y.key then Less(x.key, y.key) else x.root > y.root
  }

  lemma BeforeTrans(x: Entry, y: Entry, z: Entry)
    requires !Before(y, x) && !Before(z, y)
    ensures !Before(z, x)
  {
    hide Less;
    LessTotal(x.key, y.key);
    LessTotal(y.key, z.key);
    LessTotal(x.key, z.key);
    if Less(x.key, y.key) && Less(y.key, z.key) {
      LessTrans(x.key, y.key, z.key);
    }
  }

  ghost predicate Ordered(es: seq<Entry>) {
    forall i, j :: 0 <= i < j < |es| ==> !Before(es[j], es[i])
  }

  ghost predicate Increasing(es: seq<Entry>) {
    forall i, j :: 0 <= i < j < |es| ==> Less(es[i].key, es[j].key)
  }

  // ---------- What the index must be ----------

  // The entry's root is the highest of its path's.
  ghost predicate Wins(es: seq<Entry>, e: Entry) {
    e in es && forall x :: x in es && x.key == e.key ==> x.root <= e.root
  }

  ghost predicate Listed(es: seq<Entry>, key: string) {
    exists x :: x in es && x.key == key
  }

  // One winning entry for every path there is.
  ghost predicate IndexOf(ix: seq<Entry>, es: seq<Entry>) {
    && Increasing(ix)
    && (forall e :: e in ix ==> Wins(es, e))
    && forall key :: Listed(es, key) ==> Listed(ix, key)
  }

  // The files of each root, in the order they were listed.
  function RootEntries(paths: seq<string>, root: nat, n: nat): seq<Entry>
    requires n <= |paths|
    decreases n, |paths|
  {
    if n == 0 then [] else RootEntries(paths, root, n - 1) + [Entry(Lower(paths[n - 1]), root, paths[n - 1])]
  }

  function AllEntries(roots: seq<seq<string>>, n: nat): seq<Entry>
    requires n <= |roots|
    decreases n, |roots|
  {
    if n == 0 then [] else AllEntries(roots, n - 1) + RootEntries(roots[n - 1], n - 1, |roots[n - 1]|)
  }

  // A root ships a lower-case path.
  predicate Ships(paths: seq<string>, key: string) {
    exists i :: 0 <= i < |paths| && Lower(paths[i]) == key
  }

  // The simple search: the roots backwards, the highest priority first.
  function Walk(roots: seq<seq<string>>, key: string, n: nat): Option<nat>
    requires n <= |roots|
    decreases n, |roots|
  {
    if n == 0 then None else if Ships(roots[n - 1], key) then Some(n - 1) else Walk(roots, key, n - 1)
  }

  lemma {:induction false} RootListed(paths: seq<string>, root: nat, n: nat, key: string)
    requires n <= |paths|
    ensures Listed(RootEntries(paths, root, n), key) <==> exists i :: 0 <= i < n && Lower(paths[i]) == key
    ensures forall x :: x in RootEntries(paths, root, n) ==> x.root == root
    decreases n
  {
    hide Lower;
    if n > 0 {
      RootListed(paths, root, n - 1, key);
      var last := Entry(Lower(paths[n - 1]), root, paths[n - 1]);
      assert last in RootEntries(paths, root, n);
      assert forall x :: x in RootEntries(paths, root, n) <==> x == last || x in RootEntries(paths, root, n - 1);
    }
  }

  // The highest root with an entry for the path.
  ghost predicate Highest(es: seq<Entry>, key: string, root: nat) {
    && (exists x :: x in es && x.key == key && x.root == root)
    && forall x :: x in es && x.key == key ==> x.root <= root
  }

  lemma WalkStep(before: seq<Entry>, more: seq<Entry>, all: seq<Entry>, key: string, root: nat)
    requires forall x :: x in all <==> x in before || x in more
    requires forall x :: x in more ==> x.root == root
    requires forall x :: x in before ==> x.root < root
    ensures Listed(all, key) <==> Listed(before, key) || Listed(more, key)
    ensures Listed(more, key) ==> Highest(all, key, root)
    ensures !Listed(more, key) ==> forall r :: Highest(before, key, r) ==> Highest(all, key, r)
  {
    if Listed(more, key) {
      var x :| x in more && x.key == key;
      assert x in all;
    }
    if Listed(before, key) {
      var x :| x in before && x.key == key;
      assert x in all;
    }
    if !Listed(more, key) {
      forall r | Highest(before, key, r) ensures Highest(all, key, r) {
        var x :| x in before && x.key == key && x.root == r;
        assert x in all;
      }
    }
  }

  lemma ShipsIs(paths: seq<string>, key: string)
    ensures Ships(paths, key) <==> exists i :: 0 <= i < |paths| && Lower(paths[i]) == key
  {
  }

  lemma NoEntries(roots: seq<seq<string>>)
    ensures AllEntries(roots, 0) == []
  {
  }

  // Walking finds the highest root with an entry for the path.
  lemma {:induction false} WalkIs(roots: seq<seq<string>>, key: string, n: nat)
    requires n <= |roots|
    ensures Walk(roots, key, n).Some? <==> Listed(AllEntries(roots, n), key)
    ensures Walk(roots, key, n).Some? ==> Highest(AllEntries(roots, n), key, Walk(roots, key, n).value)
    ensures forall x :: x in AllEntries(roots, n) ==> x.root < n
    decreases n
  {
    hide Lower, Ships, AllEntries, RootEntries;
    if n > 0 {
      WalkIs(roots, key, n - 1);
      RootListed(roots[n - 1], n - 1, |roots[n - 1]|, key);
      Split(roots, n);
      WalkStep(AllEntries(roots, n - 1), RootEntries(roots[n - 1], n - 1, |roots[n - 1]|), AllEntries(roots, n), key, n - 1);
      ShipsIs(roots[n - 1], key);
    } else {
      NoEntries(roots);
    }
  }

  lemma Split(roots: seq<seq<string>>, n: nat)
    requires 0 < n <= |roots|
    ensures forall x :: x in AllEntries(roots, n) <==>
              x in AllEntries(roots, n - 1) || x in RootEntries(roots[n - 1], n - 1, |roots[n - 1]|)
  {
  }

  // ---------- The code ----------

  method InsertEntry(es: seq<Entry>, x: Entry) returns (r: seq<Entry>)
    requires Ordered(es)
    ensures Ordered(r) && multiset(r) == multiset(es) + multiset{x}
  {
    hide Before;
    var i := |es|;
    while i > 0 && Before(x, es[i - 1])
      invariant 0 <= i <= |es| && forall k :: i <= k < |es| ==> Before(x, es[k])
    {
      i := i - 1;
    }
    r := es[..i] + [x] + es[i..];
    assert es == es[..i] + es[i..];
    InsertOrdered(es, x, i);
  }

  lemma InsertOrdered(es: seq<Entry>, x: Entry, i: nat)
    requires Ordered(es) && i <= |es|
    requires forall k :: i <= k < |es| ==> Before(x, es[k])
    requires i > 0 ==> !Before(x, es[i - 1])
    ensures Ordered(es[..i] + [x] + es[i..])
  {
    var r := es[..i] + [x] + es[i..];
    forall a, b | 0 <= a < b < |r| ensures !Before(r[b], r[a]) {
      if b == i {
        if a < i - 1 {
          BeforeTrans(es[a], es[i - 1], x);
        }
      } else if a == i {
        BeforeAsym(x, es[b - 1]);
      }
    }
  }

  lemma BeforeAsym(x: Entry, y: Entry)
    ensures Before(x, y) ==> !Before(y, x)
  {
    LessTotal(x.key, y.key);
  }

  // Any order of equal entries will do: only their places differ.
  method SortEntries(es: seq<Entry>) returns (r: seq<Entry>)
    ensures Ordered(r) && multiset(r) == multiset(es)
  {
    r := [];
    for i := 0 to |es|
      invariant Ordered(r) && multiset(r) == multiset(es[..i])
    {
      r := InsertEntry(r, es[i]);
      assert es[..i + 1] == es[..i] + [es[i]];
    }
    assert es[..|es|] == es;
  }

  // The first entry of each path stays.
  method KeepFirst(es: seq<Entry>) returns (ix: seq<Entry>)
    requires Ordered(es)
    ensures IndexOf(ix, es)
  {
    ix := [];
    for i := 0 to |es|
      invariant IndexOf(ix, es[..i])
      invariant i == 0 ==> ix == []
      invariant i > 0 ==> ix != [] && ix[|ix| - 1].key == es[i - 1].key
    {
      assert es[..i + 1] == es[..i] + [es[i]];
      if ix == [] || ix[|ix| - 1].key != es[i].key {
        NewPath(ix, es, i);
        ix := ix + [es[i]];
      } else {
        SamePath(ix, es, i);
      }
    }
    assert es[..|es|] == es;
  }

  lemma NewPath(ix: seq<Entry>, es: seq<Entry>, i: nat)
    requires Ordered(es) && i < |es| && IndexOf(ix, es[..i])
    requires if i == 0 then ix == [] else ix != [] && ix[|ix| - 1].key == es[i - 1].key != es[i].key
    ensures IndexOf(ix + [es[i]], es[..i] + [es[i]])
  {
    hide Less;
    var e, jx, done := es[i], ix + [es[i]], es[..i] + [es[i]];
    if i > 0 {
      LessTotal(es[i - 1].key, e.key);
      assert !Before(e, es[i - 1]);
      forall k | 0 <= k < |ix| ensures Less(ix[k].key, e.key) {
        if k < |ix| - 1 {
          LessTrans(ix[k].key, ix[|ix| - 1].key, e.key);
        }
      }
    }
    EarlierLess(es, i);
    forall x | x in jx ensures Wins(done, x) {
      if x != e {
        assert x in ix && Wins(es[..i], x);
      }
    }
    forall key | Listed(done, key) ensures Listed(jx, key) {
      if key == e.key {
        assert e in jx;
      } else {
        assert Listed(es[..i], key);
        var x :| x in ix && x.key == key;
        assert x in jx;
      }
    }
  }

  // Everything before a new path has an earlier path.
  lemma EarlierLess(es: seq<Entry>, i: nat)
    requires Ordered(es) && i < |es| && (i > 0 ==> es[i - 1].key != es[i].key)
    ensures forall x :: x in es[..i] ==> Less(x.key, es[i].key) && x.key != es[i].key
  {
    hide Less;
    forall x | x in es[..i] ensures Less(x.key, es[i].key) && x.key != es[i].key {
      var k :| 0 <= k < i && es[k] == x;
      LessTotal(es[k].key, es[i - 1].key);
      LessTotal(es[i - 1].key, es[i].key);
      LessTotal(es[k].key, es[i].key);
      assert !Before(es[i], es[i - 1]);
      if k < i - 1 {
        assert !Before(es[i - 1], es[k]);
        if Less(es[k].key, es[i - 1].key) {
          LessTrans(es[k].key, es[i - 1].key, es[i].key);
        }
      }
    }
  }

  lemma SamePath(ix: seq<Entry>, es: seq<Entry>, i: nat)
    requires Ordered(es) && i < |es| && i > 0 && IndexOf(ix, es[..i])
    requires ix != [] && ix[|ix| - 1].key == es[i - 1].key == es[i].key
    ensures IndexOf(ix, es[..i] + [es[i]])
  {
    hide Less;
    var e, done := es[i], es[..i] + [es[i]];
    assert !Before(e, es[i - 1]);
    assert es[i - 1] in es[..i];
    forall x | x in ix ensures Wins(done, x) {
      assert Wins(es[..i], x);
      if x.key == e.key {
        assert es[i - 1].root <= x.root;
      }
    }
    forall key | Listed(done, key) ensures Listed(ix, key) {
      if key == e.key {
        assert Listed(es[..i], key);
      } else {
        var x :| x in done && x.key == key;
        assert x in es[..i];
        assert Listed(es[..i], key);
      }
    }
  }

  // The first entry whose path is not before the key.
  method LowerBound(ix: seq<Entry>, key: string) returns (at: nat)
    requires Increasing(ix)
    ensures at <= |ix|
    ensures forall k :: 0 <= k < at ==> Less(ix[k].key, key)
    ensures forall k :: at <= k < |ix| ==> !Less(ix[k].key, key)
  {
    hide Less;
    var low, high := 0, |ix|;
    while low < high
      invariant 0 <= low <= high <= |ix|
      invariant forall k :: 0 <= k < low ==> Less(ix[k].key, key)
      invariant forall k :: high <= k < |ix| ==> !Less(ix[k].key, key)
    {
      var middle := (low + high) / 2;
      if Less(ix[middle].key, key) {
        forall k | 0 <= k < middle ensures Less(ix[k].key, key) {
          LessTrans(ix[k].key, ix[middle].key, key);
        }
        low := middle + 1;
      } else {
        forall k | middle < k < |ix| ensures !Less(ix[k].key, key) {
          if Less(ix[k].key, key) {
            LessTrans(ix[middle].key, ix[k].key, key);
          }
        }
        high := middle;
      }
    }
    at := low;
  }

  method FindModFileEntry(ix: seq<Entry>, ghost es: seq<Entry>, normalized: string) returns (r: Option<Entry>)
    requires IndexOf(ix, es)
    ensures r.Some? ==> r.value.key == Lower(normalized) && Wins(es, r.value)
    ensures r.None? ==> !Listed(es, Lower(normalized))
  {
    hide Less;
    var key := Lower(normalized);
    var at := LowerBound(ix, key);
    if at < |ix| && ix[at].key == key {
      return Some(ix[at]);
    }
    NotThere(ix, key, at);
    r := None;
  }

  lemma NotThere(ix: seq<Entry>, key: string, at: nat)
    requires Increasing(ix) && at <= |ix| && (at < |ix| ==> ix[at].key != key)
    requires forall k :: 0 <= k < at ==> Less(ix[k].key, key)
    requires forall k :: at <= k < |ix| ==> !Less(ix[k].key, key)
    ensures !Listed(ix, key)
  {
    hide Less;
    forall x | x in ix ensures x.key != key {
      var k :| 0 <= k < |ix| && ix[k] == x;
      LessTotal(key, key);
      if k > at {
        LessTotal(ix[at].key, key);
        assert Less(ix[at].key, ix[k].key);
      }
    }
  }

  method BuildIndex(roots: seq<seq<string>>) returns (ix: seq<Entry>)
    ensures IndexOf(ix, AllEntries(roots, |roots|))
  {
    var index := [];
    for root := 0 to |roots|
      invariant index == AllEntries(roots, root)
    {
      index := index + RootEntries(roots[root], root, |roots[root]|);
    }
    var ordered := SortEntries(index);
    ix := KeepFirst(ordered);
    SameIndex(ix, ordered, index);
  }

  lemma SameIndex(ix: seq<Entry>, a: seq<Entry>, b: seq<Entry>)
    requires multiset(a) == multiset(b) && IndexOf(ix, a)
    ensures IndexOf(ix, b)
  {
    hide Less;
    assert forall x :: x in a <==> x in multiset(a);
    assert forall x :: x in b <==> x in multiset(b);
    forall e | e in ix ensures Wins(b, e) {
      assert Wins(a, e);
    }
    forall key | Listed(b, key) ensures Listed(ix, key) {
      var x :| x in b && x.key == key;
      assert x in a;
      assert Listed(a, key);
    }
  }

  // The root that wins for a path is the one the backwards walk finds.
  method FindModFileRoot(roots: seq<seq<string>>, ix: seq<Entry>, normalized: string) returns (root: Option<nat>)
    requires IndexOf(ix, AllEntries(roots, |roots|))
    ensures root == Walk(roots, Lower(normalized), |roots|)
  {
    hide Lower, Walk, AllEntries, IndexOf;
    var entry := FindModFileEntry(ix, AllEntries(roots, |roots|), normalized);
    WalkIs(roots, Lower(normalized), |roots|);
    root := match entry case None => None case Some(e) => Some(e.root);
  }
}
