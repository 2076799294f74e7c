// Merging a patch into a KeyValues list, and the check that nothing was lost.
module KeyValuesMerge {
  import opened Options
  import opened KeyValues

  // ---------- The merge ----------

  // The candidate is guarded by the same conditional.
  predicate Exact(candidate: KeyValue, incoming: KeyValue) {
    incoming.condition != "" && candidate.key == incoming.key && candidate.condition == incoming.condition
  }

  // The candidate has the key, and the two are not guarded by different conditionals.
  predicate Compatible(candidate: KeyValue, incoming: KeyValue) {
    candidate.key == incoming.key &&
    (incoming.condition == "" || candidate.condition == "" || candidate.condition == incoming.condition)
  }

  // The first entry from i on that fits, or the length of the list.
  function FirstFit(base: seq<KeyValue>, incoming: KeyValue, exact: bool, i: nat): (r: nat)
    requires i <= |base|
    ensures i <= r <= |base|
    ensures forall j :: i <= j < r ==> !Fits(base[j], incoming, exact)
    ensures r < |base| ==> Fits(base[r], incoming, exact)
    decreases |base| - i
  {
    if i == |base| || Fits(base[i], incoming, exact) then i else FirstFit(base, incoming, exact, i + 1)
  }

  predicate Fits(candidate: KeyValue, incoming: KeyValue, exact: bool) {
    if exact then Exact(candidate, incoming) else Compatible(candidate, incoming)
  }

  // The entry an incoming one lands on: the one under the same conditional if there is one, otherwise
  // the first compatible one; the length of the list when it is to be appended.
  function Target(base: seq<KeyValue>, incoming: KeyValue): (r: nat)
    ensures r <= |base|
    ensures r < |base| ==> base[r].key == incoming.key
  {
    var i := FirstFit(base, incoming, true, 0);
    if i < |base| then i else FirstFit(base, incoming, false, 0)
  }

  function MergeOne(base: seq<KeyValue>, incoming: KeyValue): seq<KeyValue>
    decreases incoming, 1
  {
    var i := Target(base, incoming);
    if i == |base| then base + [incoming]
    else if base[i].isBlock && incoming.isBlock then
      base[i := base[i].(children := Merge(base[i].children, incoming.children))]
    else base[i := incoming]
  }

  // Incoming entries are merged one after the other.
  function Merge(base: seq<KeyValue>, patch: seq<KeyValue>): seq<KeyValue>
    decreases patch, 0
  {
    if patch == [] then base else Merge(MergeOne(base, patch[0]), patch[1..])
  }

  method MergeKeyValues(base: seq<KeyValue>, patch: seq<KeyValue>) returns (merged: seq<KeyValue>)
    ensures merged == Merge(base, patch)
    decreases patch
  {
    merged := base;
    var n := 0;
    while n < |patch|
      invariant 0 <= n <= |patch|
      invariant Merge(merged, patch[n..]) == Merge(base, patch)
    {
      var incoming := patch[n];
      assert patch[n..][0] == incoming && patch[n..][1..] == patch[n + 1..];
      var existing := |merged|;
      if incoming.condition != "" {
        existing := Search(merged, incoming, true);
      } else {
        NeverExact(merged, incoming, 0);
      }
      if existing == |merged| {
        existing := Search(merged, incoming, false);
      }
      if existing == |merged| {
        merged := merged + [incoming];
      } else if merged[existing].isBlock && incoming.isBlock {
        var children := MergeKeyValues(merged[existing].children, incoming.children);
        merged := merged[existing := merged[existing].(children := children)];
      } else {
        merged := merged[existing := incoming];
      }
      n := n + 1;
    }
    assert patch[n..] == [];
  }

  method Search(base: seq<KeyValue>, incoming: KeyValue, exact: bool) returns (i: nat)
    ensures i == FirstFit(base, incoming, exact, 0)
  {
    i := 0;
    while i < |base|
      invariant 0 <= i <= |base| && FirstFit(base, incoming, exact, 0) == FirstFit(base, incoming, exact, i)
    {
      if exact {
        if incoming.condition != "" && base[i].key == incoming.key && base[i].condition == incoming.condition {
          return;
        }
      } else if base[i].key == incoming.key {
        if !(incoming.condition != "" && base[i].condition != "" && base[i].condition != incoming.condition) {
          return;
        }
      }
      i := i + 1;
    }
  }

  lemma NeverExact(base: seq<KeyValue>, incoming: KeyValue, i: nat)
    requires incoming.condition == "" && i <= |base|
    ensures FirstFit(base, incoming, true, i) == |base|
  {
  }

  // ---------- Merging twice ----------

  // No key twice, at any level.
  ghost predicate DistinctKeys(list: seq<KeyValue>)
    decreases list
  {
    && (forall i, j :: 0 <= i < j < |list| ==> list[i].key != list[j].key)
    && forall i :: 0 <= i < |list| ==> DistinctKeys(list[i].children)
  }

  // Merging the incoming entry changes nothing.
  ghost predicate Absorbed(base: seq<KeyValue>, incoming: KeyValue) {
    MergeOne(base, incoming) == base
  }

  lemma TargetIs(base: seq<KeyValue>, incoming: KeyValue, i: nat)
    requires i < |base|
    requires || (Exact(base[i], incoming) && forall j :: 0 <= j < i ==> !Exact(base[j], incoming))
             || (&& (forall j :: 0 <= j < |base| ==> !Exact(base[j], incoming))
                 && Compatible(base[i], incoming) && forall j :: 0 <= j < i ==> !Compatible(base[j], incoming))
    ensures Target(base, incoming) == i
  {
  }

  // An entry merged into a list is absorbed by the result.
  lemma {:induction false} AbsorbedOnce(base: seq<KeyValue>, incoming: KeyValue)
    requires DistinctKeys(incoming.children)
    ensures Absorbed(MergeOne(base, incoming), incoming)
    decreases incoming, 1
  {
    hide Merge;
    var i := Target(base, incoming);
    var b := MergeOne(base, incoming);
    TargetIs(b, incoming, i);
    if i < |base| && base[i].isBlock && incoming.isBlock {
      MergeTwice(base[i].children, incoming.children);
    } else {
      SelfMerge(incoming.children);
    }
  }

  // A list with distinct keys merged into itself is unchanged.
  lemma {:induction false} SelfMerge(list: seq<KeyValue>)
    requires DistinctKeys(list)
    ensures Merge(list, list) == list
    decreases list, 1
  {
    forall n | 0 <= n < |list|
      ensures Absorbed(list, list[n])
    {
      TargetIs(list, list[n], n);
      SelfMerge(list[n].children);
    }
    AbsorbedAll(list, list);
  }

  lemma {:induction false} AbsorbedAll(base: seq<KeyValue>, patch: seq<KeyValue>)
    requires forall n :: 0 <= n < |patch| ==> Absorbed(base, patch[n])
    ensures Merge(base, patch) == base
  {
    if patch != [] {
      assert Absorbed(base, patch[0]);
      assert forall n :: 0 <= n < |patch| - 1 ==> patch[1..][n] == patch[n + 1];
      AbsorbedAll(base, patch[1..]);
    }
  }

  // A merge touches entries of the incoming key only, and keeps their key.
  lemma MergeOneEffect(base: seq<KeyValue>, incoming: KeyValue)
    ensures |base| <= |MergeOne(base, incoming)|
    ensures forall j :: 0 <= j < |base| ==> MergeOne(base, incoming)[j].key == base[j].key
    ensures forall j :: 0 <= j < |base| && base[j].key != incoming.key ==> MergeOne(base, incoming)[j] == base[j]
    ensures forall j :: |base| <= j < |MergeOne(base, incoming)| ==> MergeOne(base, incoming)[j].key == incoming.key
  {
    hide Merge, FirstFit;
  }

  // Lists that agree outside another key give the same target.
  lemma SameTarget(base: seq<KeyValue>, b: seq<KeyValue>, kept: KeyValue)
    requires |base| <= |b| && Target(base, kept) < |base|
    requires forall j :: 0 <= j < |base| ==> b[j].key == base[j].key && (base[j].key == kept.key ==> b[j] == base[j])
    requires forall j :: |base| <= j < |b| ==> b[j].key != kept.key
    ensures Target(b, kept) == Target(base, kept)
  {
    hide FirstFit;
    TargetIs(b, kept, Target(base, kept));
  }

  // Merging an entry of another key leaves an absorbed entry absorbed.
  lemma StaysAbsorbed(base: seq<KeyValue>, kept: KeyValue, incoming: KeyValue)
    requires Absorbed(base, kept) && kept.key != incoming.key
    ensures Absorbed(MergeOne(base, incoming), kept)
  {
    hide Merge, Target;
    MergeOneEffect(base, incoming);
    SameTarget(base, MergeOne(base, incoming), kept);
    AbsorbedHere(base, MergeOne(base, incoming), kept);
  }

  lemma AbsorbedHere(base: seq<KeyValue>, b: seq<KeyValue>, kept: KeyValue)
    requires Absorbed(base, kept) && Target(base, kept) == Target(b, kept) < |base| <= |b|
    requires b[Target(b, kept)] == base[Target(b, kept)]
    ensures Absorbed(b, kept)
  {
    hide Merge, Target;
    var i := Target(b, kept);
    assert MergeOne(base, kept)[i] == base[i];
  }

  lemma {:induction false} StaysAbsorbedAll(base: seq<KeyValue>, kept: KeyValue, patch: seq<KeyValue>)
    requires Absorbed(base, kept) && forall n :: 0 <= n < |patch| ==> patch[n].key != kept.key
    ensures Absorbed(Merge(base, patch), kept)
    decreases |patch|
  {
    if patch != [] {
      StaysAbsorbed(base, kept, patch[0]);
      StaysAbsorbedAll(MergeOne(base, patch[0]), kept, patch[1..]);
    }
  }

  lemma {:induction false} MergedAbsorbs(base: seq<KeyValue>, patch: seq<KeyValue>, n: nat)
    requires DistinctKeys(patch) && n < |patch|
    ensures Absorbed(Merge(base, patch), patch[n])
    decreases patch, 0, n
  {
    var rest := patch[1..];
    if n == 0 {
      AbsorbedOnce(base, patch[0]);
      StaysAbsorbedAll(MergeOne(base, patch[0]), patch[0], rest);
    } else {
      assert rest[n - 1] == patch[n];
      MergedAbsorbs(MergeOne(base, patch[0]), rest, n - 1);
    }
  }

  // Merging a patch with distinct keys a second time changes nothing, conditionals included.
  lemma {:induction false} MergeTwice(base: seq<KeyValue>, patch: seq<KeyValue>)
    requires DistinctKeys(patch)
    ensures Merge(Merge(base, patch), patch) == Merge(base, patch)
    decreases patch, 1
  {
    forall n | 0 <= n < |patch|
      ensures Absorbed(Merge(base, patch), patch[n])
    {
      MergedAbsorbs(base, patch, n);
    }
    AbsorbedAll(Merge(base, patch), patch);
  }

  // ---------- Path lookups ----------

  // The position of the first entry with the key, or the length of the list.
  function Find(list: seq<KeyValue>, key: string): (r: nat)
    ensures r <= |list|
    ensures forall j :: 0 <= j < r ==> list[j].key != key
    ensures r < |list| ==> list[r].key == key
  {
    if list == [] then 0 else if list[0].key == key then 0 else 1 + Find(list[1..], key)
  }

  function Entry(list: seq<KeyValue>, key: string): Option<KeyValue> {
    var i := Find(list, key);
    if i == |list| then None else Some(list[i])
  }

  // The entry at a path of keys, taking the first entry of each key.
  function Lookup(list: seq<KeyValue>, path: seq<string>): Option<KeyValue>
    requires path != []
    decreases |path|
  {
    match Entry(list, path[0])
    case None => None
    case Some(e) => if |path| == 1 then Some(e) else if e.isBlock then Lookup(e.children, path[1..]) else None
  }

  // Neither the list nor anything below it carries a conditional.
  ghost predicate Unconditional(list: seq<KeyValue>)
    decreases list
  {
    forall i :: 0 <= i < |list| ==> list[i].condition == "" && Unconditional(list[i].children)
  }

  // The patch's entry over the base's: blocks merge, otherwise the patch wins.
  function Over(base: Option<KeyValue>, patch: Option<KeyValue>): Option<KeyValue> {
    if patch == None then base
    else if base == None || !base.value.isBlock || !patch.value.isBlock then patch
    else Some(base.value.(children := Merge(base.value.children, patch.value.children)))
  }

  // Along the path, above its end, the patch never meets a block of the base with a value or the reverse.
  ghost predicate KeepsShape(base: seq<KeyValue>, patch: seq<KeyValue>, path: seq<string>)
    requires path != []
    decreases |path|
  {
    |path| == 1 ||
    (var b, p := Entry(base, path[0]), Entry(patch, path[0]);
     b == None || p == None ||
     (b.value.isBlock && p.value.isBlock && KeepsShape(b.value.children, p.value.children, path[1..])))
  }

  lemma FindIs(list: seq<KeyValue>, key: string, i: nat)
    requires i < |list| && list[i].key == key && forall j :: 0 <= j < i ==> list[j].key != key
    ensures Find(list, key) == i
  {
  }

  lemma MergeOneEntry(base: seq<KeyValue>, incoming: KeyValue, key: string)
    requires incoming.condition == "" && forall i :: 0 <= i < |base| ==> base[i].condition == ""
    ensures Entry(MergeOne(base, incoming), key) == Over(Entry(base, key), if incoming.key == key then Some(incoming) else None)
    ensures forall i :: 0 <= i < |MergeOne(base, incoming)| ==> MergeOne(base, incoming)[i].condition == ""
  {
    hide Merge, FirstFit, Find;
    NeverExact(base, incoming, 0);
    MergeOneEffect(base, incoming);
    var b, i := MergeOne(base, incoming), Find(base, key);
    if incoming.key == key {
      assert Target(base, incoming) == i;
      FindIs(b, key, i);
    } else if i < |base| {
      FindIs(b, key, i);
    }
  }

  // Without conditionals, each key of the result holds the patch's entry over the base's.
  lemma {:induction false} MergeEntry(base: seq<KeyValue>, patch: seq<KeyValue>, key: string)
    requires forall i :: 0 <= i < |base| ==> base[i].condition == ""
    requires forall i :: 0 <= i < |patch| ==> patch[i].condition == ""
    requires forall i, j :: 0 <= i < j < |patch| ==> patch[i].key != patch[j].key
    ensures Entry(Merge(base, patch), key) == Over(Entry(base, key), Entry(patch, key))
    decreases |patch|
  {
    hide MergeOne;
    if patch != [] {
      MergeOneEntry(base, patch[0], key);
      MergeEntry(MergeOne(base, patch[0]), patch[1..], key);
      if patch[0].key == key {
        assert Entry(patch[1..], key) == None;
      }
    }
  }

  // Without conditionals, a value of the patch is what the result holds at its path.
  lemma {:induction false} PatchWins(base: seq<KeyValue>, patch: seq<KeyValue>, path: seq<string>)
    requires path != [] && Unconditional(base) && Unconditional(patch) && DistinctKeys(patch)
    requires Lookup(patch, path).Some? && !Lookup(patch, path).value.isBlock
    ensures Lookup(Merge(base, patch), path) == Lookup(patch, path)
    decreases |path|
  {
    hide Merge, Find;
    MergeEntry(base, patch, path[0]);
    if |path| > 1 {
      var b, p := Entry(base, path[0]), Entry(patch, path[0]);
      if b.Some? && b.value.isBlock {
        PatchWins(b.value.children, p.value.children, path[1..]);
      }
    }
  }

  // Without conditionals, every path along which the patch keeps the base's shape leads to the patch's
  // entry over the base's: where the patch has nothing, the base shows through.
  lemma {:induction false} MergedLookup(base: seq<KeyValue>, patch: seq<KeyValue>, path: seq<string>)
    requires path != [] && Unconditional(base) && Unconditional(patch) && DistinctKeys(patch)
    requires KeepsShape(base, patch, path)
    ensures Lookup(Merge(base, patch), path) == Over(Lookup(base, path), Lookup(patch, path))
    decreases |path|
  {
    hide Merge, Find;
    MergeEntry(base, patch, path[0]);
    if |path| > 1 {
      var b, p := Entry(base, path[0]), Entry(patch, path[0]);
      if b.Some? && p.Some? {
        MergedLookup(b.value.children, p.value.children, path[1..]);
      }
    }
  }

  // ---------- The loss check ----------

  predicate SameHead(a: KeyValue, b: KeyValue) {
    a.key == b.key && a.condition == b.condition
  }

  // How many of the first n entries have the head of e.
  function Copies(list: seq<KeyValue>, e: KeyValue, n: nat): nat
    requires n <= |list|
  {
    if n == 0 then 0 else Copies(list, e, n - 1) + if SameHead(list[n - 1], e) then 1 else 0
  }

  // The position from i on of the n-th further entry with the head of e, counting from 0.
  function NthCopy(list: seq<KeyValue>, e: KeyValue, n: nat, i: nat): (r: nat)
    requires i <= |list|
    ensures r <= |list|
    decreases |list| - i
  {
    if i == |list| then i
    else if !SameHead(list[i], e) then NthCopy(list, e, n, i + 1)
    else if n == 0 then i
    else NthCopy(list, e, n - 1, i + 1)
  }

  // Where the check looks for original[i]: the same copy of its head, or else the first of its key.
  function MatchOf(original: seq<KeyValue>, i: nat, merged: seq<KeyValue>): (r: nat)
    requires i < |original|
    ensures r <= |merged|
  {
    var k := NthCopy(merged, original[i], Copies(original, original[i], i), 0);
    if k < |merged| then k else Find(merged, original[i].key)
  }

  predicate KeepsKeys(original: seq<KeyValue>, merged: seq<KeyValue>)
    decreases original, 1
  {
    forall i :: 0 <= i < |original| ==> KeepsEntry(original[i], MatchOf(original, i, merged), merged)
  }

  predicate KeepsEntry(entry: KeyValue, k: nat, merged: seq<KeyValue>)
    decreases entry, 0
  {
    k < |merged| && (entry.isBlock && merged[k].isBlock ==> KeepsKeys(entry.children, merged[k].children))
  }

  method CheckKeys(original: seq<KeyValue>, merged: seq<KeyValue>) returns (ok: bool)
    ensures ok == KeepsKeys(original, merged)
    decreases original
  {
    hide MatchOf;
    for i := 0 to |original|
      invariant forall h :: 0 <= h < i ==> KeepsEntry(original[h], MatchOf(original, h, merged), merged)
    {
      var entry := original[i];
      var k := FindMatch(original, i, merged);
      if k == |merged| {
        assert !KeepsEntry(original[i], MatchOf(original, i, merged), merged);
        return false;
      }
      if entry.isBlock && merged[k].isBlock {
        var kept := CheckKeys(entry.children, merged[k].children);
        if !kept {
          assert !KeepsEntry(original[i], MatchOf(original, i, merged), merged);
          return false;
        }
      }
    }
    return true;
  }

  method FindMatch(original: seq<KeyValue>, i: nat, merged: seq<KeyValue>) returns (k: nat)
    requires i < |original|
    ensures k == MatchOf(original, i, merged)
  {
    var entry := original[i];
    var occurrence := 0;
    for j := 0 to i
      invariant occurrence == Copies(original, entry, j)
    {
      if original[j].key == entry.key && original[j].condition == entry.condition {
        occurrence := occurrence + 1;
      }
    }
    k := 0;
    while k < |merged|
      invariant 0 <= k <= |merged|
      invariant NthCopy(merged, entry, occurrence, k) == NthCopy(merged, entry, Copies(original, entry, i), 0)
    {
      if merged[k].key == entry.key && merged[k].condition == entry.condition {
        if occurrence == 0 {
          return;
        }
        occurrence := occurrence - 1;
      }
      k := k + 1;
    }
    k := FindKey(merged, entry.key);
  }

  method FindKey(list: seq<KeyValue>, key: string) returns (i: nat)
    ensures i == Find(list, key)
  {
    i := 0;
    while i < |list| && list[i].key != key
      invariant 0 <= i <= |list| && forall j :: 0 <= j < i ==> list[j].key != key
    {
      i := i + 1;
    }
    if i < |list| {
      FindIs(list, key, i);
    }
  }

  // The merged list holds the original position by position: heads unchanged, blocks still blocks.
  ghost predicate Embeds(original: seq<KeyValue>, merged: seq<KeyValue>)
    decreases original
  {
    |original| <= |merged| &&
    forall i :: 0 <= i < |original| ==>
      && SameHead(original[i], merged[i])
      && (original[i].isBlock ==> merged[i].isBlock && Embeds(original[i].children, merged[i].children))
  }

  lemma {:induction false} EmbedsSelf(list: seq<KeyValue>)
    ensures Embeds(list, list)
    decreases list
  {
    forall i | 0 <= i < |list|
      ensures Embeds(list[i].children, list[i].children)
    {
      EmbedsSelf(list[i].children);
    }
  }

  lemma {:induction false} EmbedsTwice(a: seq<KeyValue>, b: seq<KeyValue>, c: seq<KeyValue>)
    requires Embeds(a, b) && Embeds(b, c)
    ensures Embeds(a, c)
    decreases a
  {
    forall i | 0 <= i < |a| && a[i].isBlock
      ensures Embeds(a[i].children, c[i].children)
    {
      EmbedsTwice(a[i].children, b[i].children, c[i].children);
    }
  }

  lemma {:induction false} SameCopies(a: seq<KeyValue>, b: seq<KeyValue>, e: KeyValue, n: nat)
    requires n <= |a| && n <= |b| && forall i :: 0 <= i < n ==> SameHead(a[i], b[i])
    ensures Copies(a, e, n) == Copies(b, e, n)
  {
    if n > 0 {
      SameCopies(a, b, e, n - 1);
    }
  }

  lemma {:induction false} NthCopyIs(list: seq<KeyValue>, e: KeyValue, k: nat, i: nat)
    requires i <= k < |list| && SameHead(list[k], e) && Copies(list, e, i) <= Copies(list, e, k)
    ensures NthCopy(list, e, Copies(list, e, k) - Copies(list, e, i), i) == k
    decreases k - i
  {
    if i < k {
      CopiesMonotone(list, e, i + 1, k);
      NthCopyIs(list, e, k, i + 1);
    }
  }

  lemma {:induction false} CopiesMonotone(list: seq<KeyValue>, e: KeyValue, i: nat, k: nat)
    requires i <= k <= |list|
    ensures Copies(list, e, i) <= Copies(list, e, k)
  {
    if i < k {
      CopiesMonotone(list, e, i, k - 1);
    }
  }

  // What is embedded passes the check: each entry's copy number leads to its own position.
  lemma {:induction false} EmbeddedKeepsKeys(original: seq<KeyValue>, merged: seq<KeyValue>)
    requires Embeds(original, merged)
    ensures KeepsKeys(original, merged)
    decreases original
  {
    forall i | 0 <= i < |original|
      ensures KeepsEntry(original[i], MatchOf(original, i, merged), merged)
    {
      SameCopies(original, merged, original[i], i);
      NthCopyIs(merged, original[i], i, 0);
      assert MatchOf(original, i, merged) == i;
      if original[i].isBlock {
        EmbeddedKeepsKeys(original[i].children, merged[i].children);
      }
    }
  }

  // Every wholesale replacement the merge makes is of a value by a value under the same conditional.
  ghost predicate Gentle(base: seq<KeyValue>, patch: seq<KeyValue>)
    decreases patch, 0
  {
    patch == [] || (GentleOne(base, patch[0]) && Gentle(MergeOne(base, patch[0]), patch[1..]))
  }

  ghost predicate GentleOne(base: seq<KeyValue>, incoming: KeyValue)
    decreases incoming, 1
  {
    var i := Target(base, incoming);
    i == |base| ||
    (if base[i].isBlock && incoming.isBlock then Gentle(base[i].children, incoming.children)
     else !base[i].isBlock && !incoming.isBlock && base[i].condition == incoming.condition)
  }

  lemma {:induction false} GentleOneEmbeds(base: seq<KeyValue>, incoming: KeyValue)
    requires GentleOne(base, incoming)
    ensures Embeds(base, MergeOne(base, incoming))
    decreases incoming, 1
  {
    hide FirstFit, Merge;
    forall j | 0 <= j < |base|
      ensures Embeds(base[j].children, base[j].children)
    {
      EmbedsSelf(base[j].children);
    }
    var i := Target(base, incoming);
    if i < |base| && base[i].isBlock && incoming.isBlock {
      GentleEmbeds(base[i].children, incoming.children);
    }
  }

  lemma {:induction false} GentleEmbeds(base: seq<KeyValue>, patch: seq<KeyValue>)
    requires Gentle(base, patch)
    ensures Embeds(base, Merge(base, patch))
    decreases patch, 0
  {
    hide MergeOne, GentleOne;
    if patch == [] {
      EmbedsSelf(base);
    } else {
      GentleOneEmbeds(base, patch[0]);
      GentleEmbeds(MergeOne(base, patch[0]), patch[1..]);
      EmbedsTwice(base, MergeOne(base, patch[0]), Merge(base, patch));
    }
  }

  // Patches merged one after the other.
  function MergeAll(base: seq<KeyValue>, patches: seq<seq<KeyValue>>): seq<KeyValue>
    decreases |patches|
  {
    if patches == [] then base else MergeAll(Merge(base, patches[0]), patches[1..])
  }

  ghost predicate GentleAll(base: seq<KeyValue>, patches: seq<seq<KeyValue>>)
    decreases |patches|
  {
    patches == [] || (Gentle(base, patches[0]) && GentleAll(Merge(base, patches[0]), patches[1..]))
  }

  lemma {:induction false} GentleAllEmbeds(base: seq<KeyValue>, patches: seq<seq<KeyValue>>)
    requires GentleAll(base, patches)
    ensures Embeds(base, MergeAll(base, patches))
    decreases |patches|
  {
    hide Merge;
    if patches == [] {
      EmbedsSelf(base);
    } else {
      GentleEmbeds(base, patches[0]);
      GentleAllEmbeds(Merge(base, patches[0]), patches[1..]);
      EmbedsTwice(base, Merge(base, patches[0]), MergeAll(base, patches));
    }
  }

  // Any number of patches that replace only values, and only under the same conditional, pass the check.
  lemma MergedKeepsKeys(base: seq<KeyValue>, patches: seq<seq<KeyValue>>)
    requires GentleAll(base, patches)
    ensures KeepsKeys(base, MergeAll(base, patches))
  {
    GentleAllEmbeds(base, patches);
    EmbeddedKeepsKeys(base, MergeAll(base, patches));
  }

  lemma MergeSingle(base: seq<KeyValue>, incoming: KeyValue)
    ensures Merge(base, [incoming]) == MergeOne(base, incoming)
  {
    hide MergeOne;
    var patch := [incoming];
    assert patch[1..] == [];
  }

  lemma OtherKeyRefused(d: KeyValue, e: KeyValue)
    requires d.key != e.key
    ensures !KeepsKeys([d], [e])
  {
    assert NthCopy([e], d, 0, 0) == 1;
    assert Find([e], d.key) == 1;
    assert !KeepsEntry(d, MatchOf([d], 0, [e]), [e]);
  }

  // ---------- Whole files ----------

  // A block that is not a directive.
  predicate IsRoot(e: KeyValue) {
    e.isBlock && (e.key == "" || e.key[0] != '#')
  }

  // How many roots the first n entries hold.
  function Roots(list: seq<KeyValue>, n: nat): nat
    requires n <= |list|
  {
    if n == 0 then 0 else Roots(list, n - 1) + if IsRoot(list[n - 1]) then 1 else 0
  }

  // The last root, when there is one.
  function LastRoot(list: seq<KeyValue>, n: nat): (r: nat)
    requires n <= |list|
    ensures r < n || r == |list|
    ensures r < n ==> IsRoot(list[r])
    ensures r == |list| <==> Roots(list, n) == 0
  {
    if n == 0 then |list| else if IsRoot(list[n - 1]) then n - 1 else LastRoot(list, n - 1)
  }

  // A patch block with no namesake merges into the file's only root; the rest merges by name.
  predicate Adopted(base: seq<KeyValue>, incoming: KeyValue) {
    Find(base, incoming.key) == |base| && incoming.isBlock && Roots(base, |base|) == 1
  }

  function Rest(base: seq<KeyValue>, patch: seq<KeyValue>): seq<KeyValue> {
    if patch == [] then []
    else (if Adopted(base, patch[0]) then [] else [patch[0]]) + Rest(base, patch[1..])
  }

  // The file after its root has adopted the nameless blocks.
  function Adopt(base: seq<KeyValue>, patch: seq<KeyValue>): (r: seq<KeyValue>)
    ensures |r| == |base|
    decreases |patch|
  {
    if patch == [] then base
    else Adopt(if Adopted(base, patch[0]) then AdoptOne(base, patch[0]) else base, patch[1..])
  }

  function AdoptOne(base: seq<KeyValue>, incoming: KeyValue): (r: seq<KeyValue>)
    requires Adopted(base, incoming)
    ensures |r| == |base| && SameShape(base, r)
  {
    var root := LastRoot(base, |base|);
    base[root := base[root].(children := Merge(base[root].children, incoming.children))]
  }

  function MergeFile(base: seq<KeyValue>, patch: seq<KeyValue>): seq<KeyValue> {
    Merge(Adopt(base, patch), Rest(base, patch))
  }

  method MergeKeyValuesFile(base: seq<KeyValue>, patch: seq<KeyValue>) returns (merged: seq<KeyValue>)
    ensures merged == MergeFile(base, patch)
  {
    var roots, onlyRoot := CountRoots(base);
    var rest;
    merged, rest := AdoptNameless(base, patch, roots, onlyRoot);
    merged := MergeKeyValues(merged, rest);
  }

  method CountRoots(base: seq<KeyValue>) returns (roots: nat, onlyRoot: nat)
    ensures roots == Roots(base, |base|) && onlyRoot == LastRoot(base, |base|)
  {
    roots, onlyRoot := 0, |base|;
    for i := 0 to |base|
      invariant roots == Roots(base, i) && onlyRoot == LastRoot(base, i)
    {
      if base[i].isBlock && (base[i].key == "" || base[i].key[0] != '#') {
        onlyRoot := i;
        roots := roots + 1;
      }
    }
  }

  lemma AdoptStep(base: seq<KeyValue>, merged: seq<KeyValue>, patch: seq<KeyValue>, n: nat)
    requires SameShape(base, merged) && n < |patch|
    ensures Adopted(merged, patch[n]) == Adopted(base, patch[n]) && LastRoot(merged, |base|) == LastRoot(base, |base|)
    ensures Adopt(merged, patch[n..]) ==
            Adopt(if Adopted(merged, patch[n]) then AdoptOne(merged, patch[n]) else merged, patch[n + 1..])
  {
    hide Rest, Merge, Find, Roots, LastRoot;
    assert patch[n..][0] == patch[n] && patch[n..][1..] == patch[n + 1..];
    SameShapeRoots(base, merged, |base|);
    SameShapeFind(base, merged, patch[n].key);
  }

  lemma RestStep(base: seq<KeyValue>, patch: seq<KeyValue>, n: nat, rest: seq<KeyValue>)
    requires n < |patch|
    ensures rest + Rest(base, patch[n..]) ==
            (if Adopted(base, patch[n]) then rest else rest + [patch[n]]) + Rest(base, patch[n + 1..])
  {
    hide Adopted;
    assert patch[n..][0] == patch[n] && patch[n..][1..] == patch[n + 1..];
    var tail := Rest(base, patch[n + 1..]);
    assert rest + ([patch[n]] + tail) == (rest + [patch[n]]) + tail;
    assert rest + ([] + tail) == rest + tail;
  }

  method AdoptInto(base: seq<KeyValue>, incoming: KeyValue, onlyRoot: nat) returns (merged: seq<KeyValue>)
    requires Adopted(base, incoming) && onlyRoot == LastRoot(base, |base|)
    ensures merged == AdoptOne(base, incoming)
  {
    var children := MergeKeyValues(base[onlyRoot].children, incoming.children);
    merged := base[onlyRoot := base[onlyRoot].(children := children)];
  }

  lemma SameShapeTwice(a: seq<KeyValue>, b: seq<KeyValue>, c: seq<KeyValue>)
    requires SameShape(a, b) && SameShape(b, c)
    ensures SameShape(a, c)
  {
  }

  method AdoptNameless(base: seq<KeyValue>, patch: seq<KeyValue>, roots: nat, onlyRoot: nat)
    returns (merged: seq<KeyValue>, rest: seq<KeyValue>)
    requires roots == Roots(base, |base|) && onlyRoot == LastRoot(base, |base|)
    ensures merged == Adopt(base, patch) && rest == Rest(base, patch)
  {
    hide Merge, Find, Roots, LastRoot, AdoptOne, SameShape;
    merged, rest := base, [];
    SameShapeSelf(base);
    for n := 0 to |patch|
      invariant |merged| == |base| && SameShape(base, merged)
      invariant Adopt(merged, patch[n..]) == Adopt(base, patch)
      invariant rest + Rest(base, patch[n..]) == Rest(base, patch)
    {
      hide Adopt, Rest;
      var incoming := patch[n];
      AdoptStep(base, merged, patch, n);
      RestStep(base, patch, n, rest);
      SameShapeFind(base, merged, incoming.key);
      var named := FindKey(merged, incoming.key);
      if named == |merged| && incoming.isBlock && roots == 1 {
        ghost var before := merged;
        merged := AdoptInto(merged, incoming, onlyRoot);
        SameShapeTwice(base, before, merged);
      } else {
        rest := rest + [incoming];
      }
    }
    assert patch[|patch|..] == [] && rest + [] == rest;
  }

  lemma SameShapeSelf(a: seq<KeyValue>)
    ensures SameShape(a, a)
  {
  }

  // The lists differ in children only.
  ghost predicate SameShape(a: seq<KeyValue>, b: seq<KeyValue>) {
    |a| == |b| && forall i :: 0 <= i < |a| ==> SameHead(a[i], b[i]) && a[i].isBlock == b[i].isBlock
  }

  lemma {:induction false} SameShapeRoots(a: seq<KeyValue>, b: seq<KeyValue>, n: nat)
    requires SameShape(a, b) && n <= |a|
    ensures Roots(a, n) == Roots(b, n) && LastRoot(a, n) == LastRoot(b, n)
  {
    if n > 0 {
      SameShapeRoots(a, b, n - 1);
    }
  }

  lemma SameShapeFind(a: seq<KeyValue>, b: seq<KeyValue>, key: string)
    requires SameShape(a, b)
    ensures Find(a, key) == Find(b, key)
  {
    hide Find;
    if Find(a, key) < |a| {
      FindIs(b, key, Find(a, key));
    }
  }

  // Every wholesale replacement the file merge makes is gentle.
  ghost predicate GentleFile(base: seq<KeyValue>, patch: seq<KeyValue>) {
    GentleAdoptions(base, patch) && Gentle(Adopt(base, patch), Rest(base, patch))
  }

  ghost predicate GentleAdoptions(base: seq<KeyValue>, patch: seq<KeyValue>)
    decreases |patch|
  {
    patch == [] ||
    (if Adopted(base, patch[0]) then
       && Gentle(base[LastRoot(base, |base|)].children, patch[0].children)
       && GentleAdoptions(AdoptOne(base, patch[0]), patch[1..])
     else GentleAdoptions(base, patch[1..]))
  }

  lemma AdoptOneEmbeds(base: seq<KeyValue>, incoming: KeyValue)
    requires Adopted(base, incoming) && Gentle(base[LastRoot(base, |base|)].children, incoming.children)
    ensures Embeds(base, AdoptOne(base, incoming))
  {
    hide Merge, Find;
    var root := LastRoot(base, |base|);
    GentleEmbeds(base[root].children, incoming.children);
    forall j | 0 <= j < |base|
      ensures Embeds(base[j].children, base[j].children)
    {
      EmbedsSelf(base[j].children);
    }
  }

  lemma {:induction false} AdoptEmbeds(base: seq<KeyValue>, patch: seq<KeyValue>)
    requires GentleAdoptions(base, patch)
    ensures Embeds(base, Adopt(base, patch))
    decreases |patch|
  {
    hide Adopted, AdoptOne;
    if patch == [] {
      EmbedsSelf(base);
    } else if Adopted(base, patch[0]) {
      var b := AdoptOne(base, patch[0]);
      AdoptOneEmbeds(base, patch[0]);
      AdoptEmbeds(b, patch[1..]);
      EmbedsTwice(base, b, Adopt(base, patch));
    } else {
      AdoptEmbeds(base, patch[1..]);
    }
  }

  // A whole-file merge that replaces only values under the same conditional passes the check.
  lemma MergedFileKeepsKeys(base: seq<KeyValue>, patch: seq<KeyValue>)
    requires GentleFile(base, patch)
    ensures KeepsKeys(base, MergeFile(base, patch))
  {
    AdoptEmbeds(base, patch);
    GentleEmbeds(Adopt(base, patch), Rest(base, patch));
    EmbedsTwice(base, Adopt(base, patch), MergeFile(base, patch));
    EmbeddedKeepsKeys(base, MergeFile(base, patch));
  }
}
