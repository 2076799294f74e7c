// The list of mod scripts the runtime manifest is written from.
module Manifest {
  // A script a mod declares: its normalised path, the contexts it runs in, and the mod's number.
  datatype Script = Script(path: string, when: string, mod: nat)

  // What one mod declares.
  datatype Entry = Entry(path: string, when: string)

  // ---------- The grouping the list must equal ----------

  function ByMod(entries: seq<Entry>, n: nat, mod: nat): (s: seq<Script>)
    requires n <= |entries|
    ensures |s| == n
    decreases n, |entries|
  {
    if n == 0 then [] else ByMod(entries, n - 1, mod) + [Script(entries[n - 1].path, entries[n - 1].when, mod)]
  }

  // Everything the first n mods declare, in order.
  function Declared(mods: seq<seq<Entry>>, n: nat): seq<Script>
    requires n <= |mods|
    decreases n, |mods|
  {
    if n == 0 then [] else Declared(mods, n - 1) + ByMod(mods[n - 1], |mods[n - 1]|, n - 1)
  }

  // The declarations of one path.
  function Of(ds: seq<Script>, path: string): seq<Script>
    decreases |ds|
  {
    if ds == [] then [] else
      var d := ds[|ds| - 1];
      if d.path == path then Of(ds[..|ds| - 1], path) + [d] else Of(ds[..|ds| - 1], path)
  }

  function FromMod(ds: seq<Script>, mod: nat): seq<Script>
    decreases |ds|
  {
    if ds == [] then [] else
      var d := ds[|ds| - 1];
      if d.mod == mod then FromMod(ds[..|ds| - 1], mod) + [d] else FromMod(ds[..|ds| - 1], mod)
  }

  // The last declaring mod's declarations of a path.
  function Kept(ds: seq<Script>, path: string): seq<Script> {
    var of := Of(ds, path);
    if of == [] then [] else FromMod(of, of[|of| - 1].mod)
  }

  // The declared paths in order of first declaration.
  function Paths(ds: seq<Script>): seq<string>
    decreases |ds|
  {
    if ds == [] then [] else
      var before := Paths(ds[..|ds| - 1]);
      var path := ds[|ds| - 1].path;
      if path in before then before else before + [path]
  }

  function Blocks(ds: seq<Script>, paths: seq<string>): seq<Script>
    decreases |paths|
  {
    if paths == [] then [] else Kept(ds, paths[0]) + Blocks(ds, paths[1..])
  }

  function Grouped(ds: seq<Script>): seq<Script> {
    Blocks(ds, Paths(ds))
  }

  // ---------- One declaration, as the list is changed ----------

  // The first script with a path, or the list's length.
  function Find(s: seq<Script>, path: string): (k: nat)
    ensures k <= |s| && (k < |s| ==> s[k].path == path)
    decreases |s|
  {
    if s == [] || s[0].path == path then 0 else 1 + Find(s[1..], path)
  }

  // One past the last script with a path, or 0.
  function FindEnd(s: seq<Script>, path: string): (k: nat)
    ensures k <= |s|
    decreases |s|
  {
    if s == [] then 0
    else if s[|s| - 1].path == path then |s|
    else FindEnd(s[..|s| - 1], path)
  }

  function Without(s: seq<Script>, path: string): seq<Script>
    decreases |s|
  {
    if s == [] then []
    else if s[0].path == path then Without(s[1..], path)
    else [s[0]] + Without(s[1..], path)
  }

  function Step(s: seq<Script>, d: Script): seq<Script> {
    var k := Find(s, d.path);
    if k == |s| then s + [d]
    else if s[k].mod == d.mod then s[..FindEnd(s, d.path)] + [d] + s[FindEnd(s, d.path)..]
    else s[..k] + [d] + Without(s[k + 1..], d.path)
  }

  // ---------- The list equals the grouping ----------

  predicate Free(s: seq<Script>, path: string) {
    forall k :: 0 <= k < |s| ==> s[k].path != path
  }

  predicate All(s: seq<Script>, path: string, mod: nat) {
    forall k :: 0 <= k < |s| ==> s[k].path == path && s[k].mod == mod
  }

  lemma {:induction false} FindPast(a: seq<Script>, b: seq<Script>, path: string)
    requires Free(a, path)
    ensures Find(a + b, path) == |a| + Find(b, path)
    decreases |a|
  {
    if a == [] {
      assert a + b == b;
    } else {
      assert (a + b)[1..] == a[1..] + b;
      FindPast(a[1..], b, path);
    }
  }

  lemma {:induction false} FindNone(s: seq<Script>, path: string)
    requires Free(s, path)
    ensures Find(s, path) == |s| && Without(s, path) == s && FindEnd(s, path) == 0
    decreases |s|
  {
    if s != [] {
      FindNone(s[1..], path);
      EndNone(s, path);
    }
  }

  lemma {:induction false} EndNone(s: seq<Script>, path: string)
    requires Free(s, path)
    ensures FindEnd(s, path) == 0
    decreases |s|
  {
    if s != [] {
      EndNone(s[..|s| - 1], path);
    }
  }

  lemma {:induction false} EndBefore(a: seq<Script>, b: seq<Script>, path: string)
    requires Free(b, path)
    ensures FindEnd(a + b, path) == FindEnd(a, path)
    decreases |b|
  {
    if b == [] {
      assert a + b == a;
    } else {
      assert (a + b)[..|a + b| - 1] == a + b[..|b| - 1];
      EndBefore(a, b[..|b| - 1], path);
    }
  }

  lemma {:induction false} EndPast(a: seq<Script>, b: seq<Script>, path: string)
    requires FindEnd(b, path) > 0
    ensures FindEnd(a + b, path) == |a| + FindEnd(b, path)
    decreases |b|
  {
    if b[|b| - 1].path == path {
      assert (a + b)[|a + b| - 1] == b[|b| - 1];
    } else {
      assert (a + b)[..|a + b| - 1] == a + b[..|b| - 1];
      EndPast(a, b[..|b| - 1], path);
    }
  }

  lemma {:induction false} WithoutAll(a: seq<Script>, b: seq<Script>, path: string, mod: nat)
    requires All(a, path, mod) && Free(b, path)
    ensures Without(a + b, path) == b
    decreases |a|
  {
    if a == [] {
      assert a + b == b;
      FindNone(b, path);
    } else {
      assert (a + b)[1..] == a[1..] + b;
      WithoutAll(a[1..], b, path, mod);
    }
  }

  lemma {:induction false} FindsSome(s: seq<Script>, path: string)
    requires !Free(s, path)
    ensures Find(s, path) < |s| && FindEnd(s, path) > 0
    decreases |s|
  {
    if s[0].path != path {
      FindsSome(s[1..], path);
    }
    EndSome(s, path);
  }

  lemma {:induction false} EndSome(s: seq<Script>, path: string)
    requires !Free(s, path)
    ensures FindEnd(s, path) > 0
    decreases |s|
  {
    if s[|s| - 1].path != path {
      EndSome(s[..|s| - 1], path);
    }
  }

  // A step leaves alone what comes before its path.
  lemma StepPast(a: seq<Script>, b: seq<Script>, d: Script)
    requires Free(a, d.path) && !Free(b, d.path)
    ensures Step(a + b, d) == a + Step(b, d)
  {
    hide *;
    FindPast(a, b, d.path);
    FindsSome(b, d.path);
    EndPast(a, b, d.path);
    var k, end, s := Find(b, d.path), FindEnd(b, d.path), a + b;
    StepIs(b, d, k, end);
    InsertPast(a, b, d, end);
    ReplacePast(a, b, d, k, Without(b[k + 1..], d.path));
    StepIs(s, d, |a| + k, |a| + end);
  }

  lemma InsertPast(a: seq<Script>, b: seq<Script>, d: Script, end: nat)
    requires end <= |b|
    ensures (a + b)[..|a| + end] + [d] + (a + b)[|a| + end..] == a + (b[..end] + [d] + b[end..])
  {
    assert (a + b)[..|a| + end] == a + b[..end];
    assert (a + b)[|a| + end..] == b[end..];
  }

  lemma ReplacePast(a: seq<Script>, b: seq<Script>, d: Script, k: nat, rest: seq<Script>)
    requires k < |b|
    ensures (a + b)[|a| + k + 1..] == b[k + 1..] && (a + b)[|a| + k] == b[k]
    ensures (a + b)[..|a| + k] + [d] + rest == a + (b[..k] + [d] + rest)
  {
    assert (a + b)[..|a| + k] == a + b[..k];
  }

  lemma StepIs(s: seq<Script>, d: Script, k: nat, end: nat)
    requires k < |s| && end <= |s| && Find(s, d.path) == k && FindEnd(s, d.path) == end
    ensures Step(s, d) == if s[k].mod == d.mod then s[..end] + [d] + s[end..]
                          else s[..k] + [d] + Without(s[k + 1..], d.path)
  {
    hide Find, FindEnd, Without;
  }

  lemma EndWhole(a: seq<Script>, path: string, mod: nat)
    requires a != [] && All(a, path, mod)
    ensures FindEnd(a, path) == |a|
  {
  }

  lemma StepAtStart(s: seq<Script>, d: Script)
    requires s != [] && s[0].path == d.path
    ensures Step(s, d) == if s[0].mod == d.mod then s[..FindEnd(s, d.path)] + [d] + s[FindEnd(s, d.path)..]
                          else [d] + Without(s[1..], d.path)
  {
    hide FindEnd, Without;
    assert Find(s, d.path) == 0;
    assert s[..0] + [d] == [d];
  }

  // A step on a block of its own path, all from one mod.
  lemma StepHere(a: seq<Script>, b: seq<Script>, d: Script, mod: nat)
    requires a != [] && All(a, d.path, mod) && Free(b, d.path)
    ensures Step(a + b, d) == (if mod == d.mod then a + [d] else [d]) + b
  {
    var s := a + b;
    EndBefore(a, b, d.path);
    EndWhole(a, d.path, mod);
    StepAtStart(s, d);
    if mod == d.mod {
      hide Step, Find, FindEnd, Without;
      assert s[..|a|] == a && s[|a|..] == b;
    } else {
      WithoutAll(a[1..], b, d.path, mod);
      hide Step, Find, FindEnd, Without;
      assert s[1..] == a[1..] + b;
    }
  }

  lemma {:induction false} OfAll(ds: seq<Script>, path: string)
    ensures forall k :: 0 <= k < |Of(ds, path)| ==> Of(ds, path)[k].path == path
    decreases |ds|
  {
    if ds != [] {
      OfAll(ds[..|ds| - 1], path);
    }
  }

  lemma {:induction false} FromModAll(ds: seq<Script>, path: string, mod: nat)
    requires forall k :: 0 <= k < |ds| ==> ds[k].path == path
    ensures All(FromMod(ds, mod), path, mod)
    ensures ds != [] && ds[|ds| - 1].mod == mod ==> FromMod(ds, mod) != []
    decreases |ds|
  {
    if ds != [] {
      FromModAll(ds[..|ds| - 1], path, mod);
    }
  }

  // What is kept of a path is its own, from its last mod.
  lemma KeptAll(ds: seq<Script>, path: string) returns (mod: nat)
    ensures All(Kept(ds, path), path, mod)
    ensures Kept(ds, path) != [] <==> Of(ds, path) != []
    ensures Of(ds, path) != [] ==> mod == Of(ds, path)[|Of(ds, path)| - 1].mod
  {
    OfAll(ds, path);
    var of := Of(ds, path);
    mod := if of == [] then 0 else of[|of| - 1].mod;
    FromModAll(of, path, mod);
  }

  // Declarations come mod by mod.
  ghost predicate Ascending(ds: seq<Script>) {
    forall i, j :: 0 <= i < j < |ds| ==> ds[i].mod <= ds[j].mod
  }

  lemma {:induction false} OfBelow(ds: seq<Script>, path: string, limit: nat)
    requires forall k :: 0 <= k < |ds| ==> ds[k].mod <= limit
    ensures forall k :: 0 <= k < |Of(ds, path)| ==> Of(ds, path)[k].mod <= limit
    decreases |ds|
  {
    if ds != [] {
      OfBelow(ds[..|ds| - 1], path, limit);
    }
  }

  lemma {:induction false} NoneFromLater(ds: seq<Script>, mod: nat)
    requires forall k :: 0 <= k < |ds| ==> ds[k].mod < mod
    ensures FromMod(ds, mod) == []
    decreases |ds|
  {
    if ds != [] {
      NoneFromLater(ds[..|ds| - 1], mod);
    }
  }

  lemma {:induction false} OfAscending(ds: seq<Script>, path: string)
    requires Ascending(ds)
    ensures Ascending(Of(ds, path))
    decreases |ds|
  {
    if ds != [] {
      var before, d := ds[..|ds| - 1], ds[|ds| - 1];
      OfAscending(before, path);
      OfBelow(before, path, d.mod);
    }
  }

  lemma OfMore(ds: seq<Script>, d: Script, path: string)
    ensures Of(ds + [d], path) == if d.path == path then Of(ds, path) + [d] else Of(ds, path)
  {
    assert (ds + [d])[..|ds|] == ds;
  }

  lemma FromModMore(ds: seq<Script>, d: Script)
    ensures FromMod(ds + [d], d.mod) == FromMod(ds, d.mod) + [d]
  {
    assert (ds + [d])[..|ds|] == ds;
  }

  lemma AllEarlier(of: seq<Script>, d: Script)
    requires Ascending(of + [d]) && of != [] && of[|of| - 1].mod != d.mod
    ensures forall k :: 0 <= k < |of| ==> of[k].mod < d.mod
  {
    var all := of + [d];
    forall k | 0 <= k < |of| ensures of[k].mod < d.mod {
      assert all[k] == of[k] && all[|of| - 1] == of[|of| - 1] && all[|of|] == d;
    }
  }

  lemma KeptOwn(of: seq<Script>, d: Script)
    requires Ascending(of + [d])
    ensures (of + [d])[|of + [d]| - 1] == d
    ensures FromMod(of + [d], d.mod) ==
            if of != [] && of[|of| - 1].mod == d.mod then FromMod(of, of[|of| - 1].mod) + [d] else [d]
  {
    FromModMore(of, d);
    if of == [] {
      assert FromMod(of, d.mod) == [];
    } else if of[|of| - 1].mod != d.mod {
      AllEarlier(of, d);
      NoneFromLater(of, d.mod);
    }
    hide FromMod, Ascending;
  }

  // One more declaration adds to its path's block or replaces it, and leaves the other blocks alone.
  lemma KeptMore(ds: seq<Script>, d: Script, path: string)
    requires Ascending(ds + [d])
    ensures path != d.path ==> Kept(ds + [d], path) == Kept(ds, path)
    ensures path == d.path ==>
              Kept(ds + [d], path) ==
              if Of(ds, path) != [] && Of(ds, path)[|Of(ds, path)| - 1].mod == d.mod then Kept(ds, path) + [d] else [d]
  {
    hide Of, Ascending, FromMod;
    OfMore(ds, d, path);
    if path == d.path {
      OfAscending(ds + [d], path);
      KeptOwn(Of(ds, path), d);
    }
  }

  ghost predicate Distinct(paths: seq<string>) {
    forall i, j :: 0 <= i < j < |paths| ==> paths[i] != paths[j]
  }

  lemma {:induction false} PathsDistinct(ds: seq<Script>)
    ensures Distinct(Paths(ds))
    decreases |ds|
  {
    if ds != [] {
      PathsDistinct(ds[..|ds| - 1]);
    }
  }

  lemma {:induction false} PathsDeclared(ds: seq<Script>, path: string)
    ensures path in Paths(ds) <==> Of(ds, path) != []
    decreases |ds|
  {
    if ds != [] {
      PathsDeclared(ds[..|ds| - 1], path);
    }
  }

  lemma {:induction false} BlocksFree(ds: seq<Script>, paths: seq<string>, path: string)
    requires path !in paths
    ensures Free(Blocks(ds, paths), path)
    decreases |paths|
  {
    if paths != [] {
      BlocksFree(ds, paths[1..], path);
      var mod := KeptAll(ds, paths[0]);
    }
  }

  lemma {:induction false} BlocksSame(ds: seq<Script>, d: Script, paths: seq<string>)
    requires Ascending(ds + [d]) && d.path !in paths
    ensures Blocks(ds + [d], paths) == Blocks(ds, paths)
    decreases |paths|
  {
    if paths != [] {
      hide Kept;
      KeptMore(ds, d, paths[0]);
      BlocksSame(ds, d, paths[1..]);
    }
  }

  lemma {:induction false} BlocksMore(ds: seq<Script>, paths: seq<string>, path: string)
    ensures Blocks(ds, paths + [path]) == Blocks(ds, paths) + Kept(ds, path)
    decreases |paths|
  {
    hide Kept;
    if paths == [] {
      assert paths + [path] == [path] && [path][1..] == [];
      assert Blocks(ds, []) == [];
    } else {
      assert (paths + [path])[1..] == paths[1..] + [path];
      BlocksMore(ds, paths[1..], path);
    }
  }

  lemma {:induction false} BlocksStep(ds: seq<Script>, d: Script, paths: seq<string>)
    requires Ascending(ds + [d]) && Distinct(paths) && d.path in paths && Of(ds, d.path) != []
    ensures !Free(Blocks(ds, paths), d.path)
    ensures Step(Blocks(ds, paths), d) == Blocks(ds + [d], paths)
    decreases |paths|
  {
    hide Step, Kept, Of;
    var head, rest := Kept(ds, paths[0]), Blocks(ds, paths[1..]);
    KeptMore(ds, d, paths[0]);
    var mod := KeptAll(ds, paths[0]);
    if paths[0] == d.path {
      assert d.path !in paths[1..];
      BlocksFree(ds, paths[1..], d.path);
      BlocksSame(ds, d, paths[1..]);
      StepHere(head, rest, d, mod);
      assert (head + rest)[0] == head[0];
    } else {
      BlocksStep(ds, d, paths[1..]);
      StepPast(head, rest, d);
      FreeEnd(head, rest, d.path);
    }
  }

  lemma FreeEnd(a: seq<Script>, b: seq<Script>, path: string)
    requires !Free(b, path)
    ensures !Free(a + b, path)
  {
    var k :| 0 <= k < |b| && b[k].path == path;
    assert (a + b)[|a| + k] == b[k];
  }

  // The list after one more declaration is the grouping with it.
  lemma StepGroups(ds: seq<Script>, d: Script)
    requires Ascending(ds + [d])
    ensures Step(Grouped(ds), d) == Grouped(ds + [d])
  {
    var all := ds + [d];
    assert all[..|all| - 1] == ds;
    PathsDeclared(ds, d.path);
    PathsDistinct(ds);
    if d.path in Paths(ds) {
      BlocksStep(ds, d, Paths(ds));
    } else {
      BlocksFree(ds, Paths(ds), d.path);
      FindNone(Grouped(ds), d.path);
      BlocksSame(ds, d, Paths(ds));
      BlocksMore(all, Paths(ds), d.path);
      KeptMore(ds, d, d.path);
    }
  }

  // ---------- What the grouping says of one path ----------

  lemma {:induction false} BlocksOf(ds: seq<Script>, paths: seq<string>, path: string)
    requires Distinct(paths)
    ensures forall x :: x in Blocks(ds, paths) && x.path == path <==> path in paths && x in Kept(ds, path)
    decreases |paths|
  {
    if paths != [] {
      BlocksOf(ds, paths[1..], path);
      var mod := KeptAll(ds, paths[0]);
      assert path in paths <==> path == paths[0] || path in paths[1..];
    }
  }

  lemma {:induction false} FromModIn(ds: seq<Script>, mod: nat)
    ensures forall x :: x in FromMod(ds, mod) <==> x in ds && x.mod == mod
    decreases |ds|
  {
    if ds != [] {
      FromModIn(ds[..|ds| - 1], mod);
      assert ds == ds[..|ds| - 1] + [ds[|ds| - 1]];
    }
  }

  lemma {:induction false} OfIn(ds: seq<Script>, path: string)
    ensures forall x :: x in Of(ds, path) <==> x in ds && x.path == path
    decreases |ds|
  {
    if ds != [] {
      OfIn(ds[..|ds| - 1], path);
      assert ds == ds[..|ds| - 1] + [ds[|ds| - 1]];
    }
  }

  lemma LastIsGreatest(of: seq<Script>)
    requires Ascending(of) && of != []
    ensures of[|of| - 1] in of && forall y :: y in of ==> y.mod <= of[|of| - 1].mod
  {
  }

  // A declaration is in the list exactly when no later mod declares its path.
  lemma ListedExactly(ds: seq<Script>, x: Script)
    requires Ascending(ds)
    ensures x in Grouped(ds) <==> x in ds && forall y :: y in ds && y.path == x.path ==> y.mod <= x.mod
  {
    PathsDistinct(ds);
    BlocksOf(ds, Paths(ds), x.path);
    PathsDeclared(ds, x.path);
    OfIn(ds, x.path);
    OfAscending(ds, x.path);
    var of := Of(ds, x.path);
    if of != [] {
      LastIsGreatest(of);
      FromModIn(of, of[|of| - 1].mod);
    }
    hide Of, Paths, FromMod, Blocks, Ascending;
  }

  // ---------- The code ----------

  method AddScript(scripts: seq<Script>, d: Script) returns (r: seq<Script>)
    ensures r == Step(scripts, d)
  {
    var existing := 0;
    while existing < |scripts| && scripts[existing].path != d.path
      invariant 0 <= existing <= |scripts|
      invariant Find(scripts, d.path) == existing + Find(scripts[existing..], d.path)
    {
      existing := existing + 1;
    }
    if existing == |scripts| {
      r := scripts + [d];
    } else if scripts[existing].mod == d.mod {
      r := InsertAfterLast(scripts, d, existing);
    } else {
      r := scripts[existing := d];
      r := EraseOthers(r, existing + 1, d.path);
      Overwritten(scripts, existing, d);
    }
  }

  lemma Overwritten(s: seq<Script>, k: nat, d: Script)
    requires k < |s|
    ensures s[k := d][..k + 1] == s[..k] + [d] && s[k := d][k + 1..] == s[k + 1..]
  {
  }

  // Erases the scripts of a path from a position on.
  method EraseOthers(scripts: seq<Script>, from: nat, path: string) returns (r: seq<Script>)
    requires from <= |scripts|
    ensures r == scripts[..from] + Without(scripts[from..], path)
  {
    r := scripts;
    var it := from;
    assert r[from..it] == [];
    while it < |r|
      invariant from <= it <= |r| && r[..from] == scripts[..from]
      invariant Without(scripts[from..], path) == r[from..it] + Without(r[it..], path)
      decreases |r| - it
    {
      if r[it].path == path {
        Erased(r, from, it);
        r := r[..it] + r[it + 1..];
      } else {
        WithoutNext(r, from, it, path);
        it := it + 1;
      }
    }
    assert r == r[..from] + r[from..];
  }

  lemma WithoutNext(r: seq<Script>, from: nat, it: nat, path: string)
    requires from <= it < |r| && r[it].path != path
    ensures r[from..it] + Without(r[it..], path) == r[from..it + 1] + Without(r[it + 1..], path)
  {
    assert r[from..it + 1] == r[from..it] + [r[it]];
    assert r[it..][1..] == r[it + 1..];
  }

  lemma Erased(s: seq<Script>, from: nat, it: nat)
    requires from <= it < |s|
    ensures var t := s[..it] + s[it + 1..]; t[..from] == s[..from] && t[from..it] == s[from..it] && t[it..] == s[it..][1..]
  {
  }

  method InsertAfterLast(scripts: seq<Script>, d: Script, existing: nat) returns (r: seq<Script>)
    requires existing < |scripts| && scripts[existing].path == d.path
    ensures r == scripts[..FindEnd(scripts, d.path)] + [d] + scripts[FindEnd(scripts, d.path)..]
  {
    var last := existing;
    for it := existing to |scripts|
      invariant existing <= last < |scripts| && (last < it || last == it == existing)
      invariant scripts[last].path == d.path
      invariant forall k :: last < k < it ==> scripts[k].path != d.path
    {
      if scripts[it].path == d.path {
        last := it;
      }
    }
    assert scripts == scripts[..last + 1] + scripts[last + 1..];
    EndBefore(scripts[..last + 1], scripts[last + 1..], d.path);
    r := scripts[..last + 1] + [d] + scripts[last + 1..];
  }

  // Declarations come mod by mod.
  lemma {:induction false} DeclaredAscending(mods: seq<seq<Entry>>, n: nat)
    requires n <= |mods|
    ensures Ascending(Declared(mods, n)) && forall k :: 0 <= k < |Declared(mods, n)| ==> Declared(mods, n)[k].mod < n
    decreases n
  {
    if n > 0 {
      DeclaredAscending(mods, n - 1);
      ByModSame(mods[n - 1], |mods[n - 1]|, n - 1);
    }
  }

  lemma {:induction false} ByModSame(entries: seq<Entry>, n: nat, mod: nat)
    requires n <= |entries|
    ensures forall k :: 0 <= k < n ==> ByMod(entries, n, mod)[k].mod == mod
    decreases n
  {
    if n > 0 {
      ByModSame(entries, n - 1, mod);
    }
  }

  lemma PartAscending(mods: seq<seq<Entry>>, i: nat, k: nat)
    requires i < |mods| && k < |mods[i]|
    ensures Ascending(Declared(mods, i) + ByMod(mods[i], k, i) + [Script(mods[i][k].path, mods[i][k].when, i)])
  {
    DeclaredAscending(mods, i);
    ByModSame(mods[i], k, i);
  }

  method AddMod(mods: seq<seq<Entry>>, i: nat, before: seq<Script>) returns (scripts: seq<Script>)
    requires i < |mods| && before == Grouped(Declared(mods, i))
    ensures scripts == Grouped(Declared(mods, i) + ByMod(mods[i], |mods[i]|, i))
  {
    hide Grouped, Step, Declared;
    var done := Declared(mods, i);
    assert done + [] == done;
    scripts := before;
    for k := 0 to |mods[i]|
      invariant scripts == Grouped(done + ByMod(mods[i], k, i))
    {
      var d := Script(mods[i][k].path, mods[i][k].when, i);
      PartAscending(mods, i, k);
      StepGroups(done + ByMod(mods[i], k, i), d);
      assert done + ByMod(mods[i], k, i) + [d] == done + ByMod(mods[i], k + 1, i);
      scripts := AddScript(scripts, d);
    }
  }

  // The scripts of all mods, in ascending priority, each mod's valid entries in their order.
  method BuildScriptList(mods: seq<seq<Entry>>) returns (scripts: seq<Script>)
    ensures scripts == Grouped(Declared(mods, |mods|))
  {
    scripts := [];
    for i := 0 to |mods|
      invariant scripts == Grouped(Declared(mods, i))
    {
      hide Grouped, ByMod;
      scripts := AddMod(mods, i, scripts);
    }
  }
}
