// Exactly when a merge passes the check that nothing was lost.
module KeyValuesLoss {
  import opened KeyValues
  import opened KeyValuesMerge

  // ---------- What a merge makes of each entry ----------

  // The entry an incoming one leaves where it lands.
  function Replaced(e: KeyValue, incoming: KeyValue): KeyValue {
    if e.isBlock && incoming.isBlock then e.(children := Merge(e.children, incoming.children)) else incoming
  }

  // Entry i of the base after a patch with distinct keys.
  function Landed(base: seq<KeyValue>, patch: seq<KeyValue>, i: nat): KeyValue
    requires i < |base|
  {
    var n := Find(patch, base[i].key);
    if n < |patch| && Target(base, patch[n]) == i then Replaced(base[i], patch[n]) else base[i]
  }

  // An entry of the patch that landed nowhere.
  ghost predicate Appended(base: seq<KeyValue>, patch: seq<KeyValue>, e: KeyValue) {
    exists n :: 0 <= n < |patch| && patch[n] == e && Target(base, e) == |base|
  }

  // The base position by position, then what was appended.
  ghost predicate Shape(base: seq<KeyValue>, patch: seq<KeyValue>, merged: seq<KeyValue>) {
    && |base| <= |merged|
    && (forall i :: 0 <= i < |base| ==> merged[i] == Landed(base, patch, i))
    && forall j :: |base| <= j < |merged| ==> Appended(base, patch, merged[j])
  }

  ghost predicate DistinctTop(list: seq<KeyValue>) {
    forall i, j :: 0 <= i < j < |list| ==> list[i].key != list[j].key
  }

  // Merging an entry of another key moves no target.
  lemma OtherTarget(base: seq<KeyValue>, incoming: KeyValue, other: KeyValue)
    requires other.key != incoming.key
    ensures var b := MergeOne(base, incoming);
            && |base| <= |b|
            && (Target(base, other) < |base| ==> Target(b, other) == Target(base, other))
            && (Target(base, other) == |base| ==> Target(b, other) == |b|)
  {
    var b := MergeOne(base, incoming);
    MergeOneEffect(base, incoming);
    if Target(base, other) < |base| {
      SameTarget(base, b, other);
    } else {
      NoTarget(base, b, other);
    }
    hide Merge, FirstFit;
  }

  lemma NoTarget(base: seq<KeyValue>, b: seq<KeyValue>, other: KeyValue)
    requires |base| <= |b| && Target(base, other) == |base|
    requires forall j :: 0 <= j < |base| ==> b[j].key == base[j].key && (base[j].key == other.key ==> b[j] == base[j])
    requires forall j :: |base| <= j < |b| ==> b[j].key != other.key
    ensures Target(b, other) == |b|
  {
    assert forall j :: 0 <= j < |base| ==> !Fits(base[j], other, false);
    assert forall j :: 0 <= j < |b| ==> !Fits(b[j], other, false) && !Fits(b[j], other, true);
  }

  lemma FindRest(patch: seq<KeyValue>, key: string)
    requires patch != []
    ensures Find(patch, key) == if patch[0].key == key then 0 else 1 + Find(patch[1..], key)
  {
  }

  lemma {:induction false} MergeShape(base: seq<KeyValue>, patch: seq<KeyValue>)
    requires DistinctTop(patch)
    ensures Shape(base, patch, Merge(base, patch))
    decreases |patch|
  {
    if patch == [] {
      assert forall i :: 0 <= i < |base| ==> Find(patch, base[i].key) == 0;
    } else {
      var b, rest, m := MergeOne(base, patch[0]), patch[1..], Merge(base, patch);
      assert m == Merge(b, rest);
      assert forall n :: 0 <= n < |rest| ==> rest[n] == patch[n + 1];
      MergeShape(b, rest);
      MergeOneEffect(base, patch[0]);
      forall i | 0 <= i < |base| ensures m[i] == Landed(base, patch, i) {
        LandedMore(base, patch, i);
      }
      forall j | |base| <= j < |m| ensures Appended(base, patch, m[j]) {
        AppendedMore(base, patch, m, j);
      }
    }
  }

  lemma LandedMore(base: seq<KeyValue>, patch: seq<KeyValue>, i: nat)
    requires patch != [] && DistinctTop(patch) && i < |base| <= |MergeOne(base, patch[0])|
    ensures Landed(MergeOne(base, patch[0]), patch[1..], i) == Landed(base, patch, i)
  {
    var b, rest := MergeOne(base, patch[0]), patch[1..];
    MergeOneEffect(base, patch[0]);
    FindRest(patch, base[i].key);
    if base[i].key == patch[0].key {
      assert forall n :: 0 <= n < |rest| ==> rest[n] == patch[n + 1];
      assert Find(rest, base[i].key) == |rest|;
    } else {
      var n := Find(rest, base[i].key);
      if n < |rest| {
        OtherTarget(base, patch[0], rest[n]);
      }
    }
    hide Merge, FirstFit, Find;
  }

  lemma AppendedMore(base: seq<KeyValue>, patch: seq<KeyValue>, m: seq<KeyValue>, j: nat)
    requires patch != [] && DistinctTop(patch) && |base| <= j < |m|
    requires Shape(MergeOne(base, patch[0]), patch[1..], m)
    ensures Appended(base, patch, m[j])
  {
    var b, rest := MergeOne(base, patch[0]), patch[1..];
    MergeOneEffect(base, patch[0]);
    assert forall n :: 0 <= n < |rest| ==> rest[n] == patch[n + 1];
    if j < |b| {
      assert b[j] == patch[0];
      assert Find(rest, b[j].key) == |rest|;
    } else {
      var n :| 0 <= n < |rest| && rest[n] == m[j] && Target(b, m[j]) == |b|;
      OtherTarget(base, patch[0], m[j]);
      assert patch[n + 1] == m[j];
    }
  }

  // ---------- The condition ----------

  // The incoming entry replaces, wholesale, one of another condition.
  predicate ChangesHead(base: seq<KeyValue>, incoming: KeyValue) {
    var t := Target(base, incoming);
    t < |base| && !(base[t].isBlock && incoming.isBlock) && base[t].condition != incoming.condition
  }

  // The last entry before i with the head of e, or the length of the list.
  function PreviousCopy(list: seq<KeyValue>, e: KeyValue, i: nat): (r: nat)
    requires i <= |list|
    ensures r <= |list|
    ensures r < |list| ==> r < i && SameHead(list[r], e)
    decreases i
  {
    if i == 0 then |list| else if SameHead(list[i - 1], e) then i - 1 else PreviousCopy(list, e, i - 1)
  }

  // What entry i is compared with after a replacement that changes a head: a copy of the old head with the next
  // copy, or the first of the key when there is none; a copy of the new head with the one before, the replacement
  // itself being first; any other with itself.
  function Partner(base: seq<KeyValue>, incoming: KeyValue, i: nat): KeyValue
    requires i < |base| && Target(base, incoming) < |base|
  {
    var t, e := Target(base, incoming), base[i];
    if e.condition == base[t].condition then
      var next, first := NthCopy(base, e, 0, i + 1), Find(base, e.key);
      if next < |base| then base[next] else if first == t || first == |base| then incoming else base[first]
    else if e.condition == incoming.condition then
      var previous := PreviousCopy(base, e, i);
      if previous < |base| then base[previous] else incoming
    else e
  }

  // Compared with m, entry e lacks nothing.
  predicate Stands(e: KeyValue, m: KeyValue) {
    e.isBlock && m.isBlock ==> KeepsKeys(e.children, m.children)
  }

  // What the patch may do, in terms of the base and the patch alone.
  ghost predicate Harmless(base: seq<KeyValue>, patch: seq<KeyValue>)
    decreases patch, 0
  {
    forall n :: 0 <= n < |patch| ==> HarmlessOne(base, patch[n])
  }

  // The entry is appended, or merged into a block harmlessly, or takes the place of one under the same condition;
  // or it changes a condition, and every entry of its key stands against the one it is then compared with.
  ghost predicate HarmlessOne(base: seq<KeyValue>, incoming: KeyValue)
    decreases incoming, 1
  {
    var t := Target(base, incoming);
    t == |base| ||
    (if base[t].isBlock && incoming.isBlock then Harmless(base[t].children, incoming.children)
     else if base[t].condition == incoming.condition then true
     else forall i :: 0 <= i < |base| && base[i].key == incoming.key ==> Stands(base[i], Partner(base, incoming, i)))
  }

  // ---------- Copies ----------

  lemma {:induction false} CopiesAgree(a: seq<KeyValue>, b: seq<KeyValue>, e: KeyValue, n: nat)
    requires n <= |a| && n <= |b| && forall j :: 0 <= j < n ==> (SameHead(a[j], e) <==> SameHead(b[j], e))
    ensures Copies(a, e, n) == Copies(b, e, n)
  {
    if n > 0 {
      CopiesAgree(a, b, e, n - 1);
    }
  }

  // The counts of two lists that differ at one position in whether it is a copy.
  lemma {:induction false} CopiesDiffer(a: seq<KeyValue>, b: seq<KeyValue>, e: KeyValue, t: nat, n: nat)
    requires n <= |a| && n <= |b| && t < |a| && t < |b| && SameHead(a[t], e) && !SameHead(b[t], e)
    requires forall j :: 0 <= j < n && j != t ==> (SameHead(a[j], e) <==> SameHead(b[j], e))
    ensures Copies(a, e, n) == Copies(b, e, n) + if n > t then 1 else 0
  {
    if n > 0 {
      CopiesDiffer(a, b, e, t, n - 1);
    }
  }

  lemma {:induction false} NoCopies(list: seq<KeyValue>, e: KeyValue, i: nat, k: nat)
    requires i <= k <= |list| && forall j :: i <= j < k ==> !SameHead(list[j], e)
    ensures Copies(list, e, k) == Copies(list, e, i)
  {
    if i < k {
      NoCopies(list, e, i, k - 1);
    }
  }

  lemma {:induction false} NthCopyNone(list: seq<KeyValue>, e: KeyValue, n: nat, i: nat)
    requires i <= |list| && Copies(list, e, |list|) <= Copies(list, e, i) + n
    ensures NthCopy(list, e, n, i) == |list|
    decreases |list| - i
  {
    if i < |list| {
      CopiesMonotone(list, e, i + 1, |list|);
      NthCopyNone(list, e, if SameHead(list[i], e) && n > 0 then n - 1 else n, i + 1);
    }
  }

  lemma {:induction false} NextIs(list: seq<KeyValue>, e: KeyValue, i: nat)
    requires i <= |list|
    ensures var s := NthCopy(list, e, 0, i);
            && i <= s && (forall j :: i <= j < s ==> !SameHead(list[j], e)) && (s < |list| ==> SameHead(list[s], e))
    decreases |list| - i
  {
    if i < |list| && !SameHead(list[i], e) {
      NextIs(list, e, i + 1);
    }
  }

  lemma {:induction false} PreviousIs(list: seq<KeyValue>, e: KeyValue, i: nat)
    requires i <= |list|
    ensures var r := PreviousCopy(list, e, i);
            if r < |list| then Copies(list, e, i) == Copies(list, e, r) + 1 else Copies(list, e, i) == 0
    decreases i
  {
    if i > 0 {
      PreviousIs(list, e, i - 1);
      if PreviousCopy(list, e, i - 1) == |list| && !SameHead(list[i - 1], e) {
        assert Copies(list, e, i) == 0;
      }
    }
  }

  // ---------- Where the check looks ----------

  // An entry whose head's copies all stay is compared with the entry in its own place.
  lemma MatchSelf(base: seq<KeyValue>, m: seq<KeyValue>, i: nat)
    requires i < |base| <= |m|
    requires forall j :: 0 <= j < |base| ==> (SameHead(m[j], base[i]) <==> SameHead(base[j], base[i]))
    ensures MatchOf(base, i, m) == i
  {
    CopiesAgree(m, base, base[i], i);
    NthCopyIs(m, base[i], i, 0);
  }

  // A changed target is the first copy of its old head; one that loses its condition is the first of its key, and
  // one that gains a condition is the only one of its new head.
  lemma ChangedTarget(base: seq<KeyValue>, incoming: KeyValue)
    requires ChangesHead(base, incoming)
    ensures var t := Target(base, incoming);
            && base[t].key == incoming.key
            && (forall j :: 0 <= j < t ==> !SameHead(base[j], base[t]))
            && (incoming.condition == "" ==> forall j :: 0 <= j < t ==> base[j].key != incoming.key)
            && (incoming.condition != "" ==> forall j :: 0 <= j < |base| ==> !SameHead(base[j], incoming))
  {
    var t := Target(base, incoming);
    var exact := FirstFit(base, incoming, true, 0);
    assert exact == |base|;
    assert forall j :: 0 <= j < |base| ==> !Fits(base[j], incoming, true);
    assert forall j :: 0 <= j < t ==> !Fits(base[j], incoming, false);
    assert Fits(base[t], incoming, false);
  }

  // The heads of the merged list, for entries of the changed key.
  lemma ChangedHeads(base: seq<KeyValue>, patch: seq<KeyValue>, m: seq<KeyValue>, n: nat)
    requires DistinctTop(patch) && Shape(base, patch, m) && n < |patch| && ChangesHead(base, patch[n])
    ensures m[Target(base, patch[n])] == patch[n]
    ensures forall j :: 0 <= j < |base| ==> m[j].key == base[j].key
    ensures forall j :: 0 <= j < |base| && base[j].key == patch[n].key && j != Target(base, patch[n]) ==> m[j] == base[j]
    ensures forall j :: |base| <= j < |m| ==> m[j].key != patch[n].key
  {
    hide Merge, FirstFit;
    var p, t := patch[n], Target(base, patch[n]);
    FindIs(patch, p.key, n);
    forall j | |base| <= j < |m| ensures m[j].key != p.key {
      var k :| 0 <= k < |patch| && patch[k] == m[j] && Target(base, m[j]) == |base|;
      assert k != n;
    }
    forall j | 0 <= j < |base| ensures m[j].key == base[j].key {
      assert m[j] == Landed(base, patch, j);
    }
  }

  // After a changed head, every entry of the key is compared with its partner.
  lemma ChangedMatch(base: seq<KeyValue>, patch: seq<KeyValue>, m: seq<KeyValue>, n: nat, i: nat)
    requires DistinctTop(patch) && Shape(base, patch, m) && n < |patch| && ChangesHead(base, patch[n])
    requires i < |base| && base[i].key == patch[n].key
    ensures MatchOf(base, i, m) < |m| && m[MatchOf(base, i, m)] == Partner(base, patch[n], i)
  {
    hide Shape, Landed, FirstFit, Merge, NthCopy, MatchOf, Target;
    var p, t, e := patch[n], Target(base, patch[n]), base[i];
    ChangedHeads(base, patch, m, n);
    ChangedTarget(base, p);
    ShapeLong(base, patch, m);
    if e.condition == base[t].condition {
      OldHeadMatch(base, m, p, i);
    } else if e.condition == p.condition {
      NewHeadMatch(base, m, p, i);
    } else {
      MatchSelf(base, m, i);
    }
  }

  lemma ShapeLong(base: seq<KeyValue>, patch: seq<KeyValue>, m: seq<KeyValue>)
    requires Shape(base, patch, m)
    ensures |base| <= |m|
  {
  }

  // The merged list after one entry of a key changed its head.
  ghost predicate Changed(base: seq<KeyValue>, m: seq<KeyValue>, p: KeyValue) {
    && ChangesHead(base, p) && |base| <= |m| && m[Target(base, p)] == p
    && (forall j :: 0 <= j < |base| ==> m[j].key == base[j].key)
    && (forall j :: 0 <= j < |base| && base[j].key == p.key && j != Target(base, p) ==> m[j] == base[j])
    && forall j :: |base| <= j < |m| ==> m[j].key != p.key
  }

  lemma CountsPast(base: seq<KeyValue>, m: seq<KeyValue>, e: KeyValue, t: nat, i: nat)
    requires t <= i < |base| <= |m| && SameHead(base[t], e) && !SameHead(m[t], e) && SameHead(base[i], e)
    requires forall j :: 0 <= j < |base| && j != t ==> (SameHead(m[j], e) <==> SameHead(base[j], e))
    requires forall j :: |base| <= j < |m| ==> !SameHead(m[j], e)
    ensures Copies(m, e, 0) == 0
    ensures var s := NthCopy(base, e, 0, i + 1);
            && s <= |base| && (s < |base| ==> s != t)
            && Copies(m, e, s) == Copies(base, e, i)
            && (s == |base| ==> Copies(m, e, |m|) == Copies(base, e, i))
  {
    hide NthCopy;
    var s := NthCopy(base, e, 0, i + 1);
    NextIs(base, e, i + 1);
    NoCopies(base, e, i + 1, s);
    CopiesDiffer(base, m, e, t, s);
    NoCopies(m, e, |base|, |m|);
  }

  // The next copy of the old head has, in the merged list, the number this one had.
  lemma OldHeadCounts(base: seq<KeyValue>, m: seq<KeyValue>, p: KeyValue, i: nat)
    requires Changed(base, m, p) && i < |base| && base[i].key == p.key
    requires base[i].condition == base[Target(base, p)].condition
    ensures Copies(m, base[i], 0) == 0
    ensures var s := NthCopy(base, base[i], 0, i + 1);
            && s <= |base| && (s < |base| ==> s != Target(base, p))
            && Copies(m, base[i], s) == Copies(base, base[i], i)
            && (s == |base| ==> Copies(m, base[i], |m|) == Copies(base, base[i], i))
  {
    hide FirstFit, NthCopy, Target, Copies;
    ChangedTarget(base, p);
    hide ChangesHead;
    CountsPast(base, m, base[i], Target(base, p), i);
  }

  lemma OldHeadMatch(base: seq<KeyValue>, m: seq<KeyValue>, p: KeyValue, i: nat)
    requires Changed(base, m, p) && i < |base| && base[i].key == p.key
    requires base[i].condition == base[Target(base, p)].condition
    ensures MatchOf(base, i, m) < |m| && m[MatchOf(base, i, m)] == Partner(base, p, i)
  {
    hide FirstFit, NthCopy, Target, Copies, PreviousCopy, Find;
    var t, e := Target(base, p), base[i];
    ChangedTarget(base, p);
    OldHeadCounts(base, m, p, i);
    var s := NthCopy(base, e, 0, i + 1);
    NextIs(base, e, i + 1);
    if s < |base| {
      NthCopyIs(m, e, s, 0);
      NoCopies(m, e, 0, 0);
    } else {
      NthCopyNone(m, e, Copies(base, e, i), 0);
      SameFind(base, m, e.key, i);
    }
  }

  lemma SameFind(base: seq<KeyValue>, m: seq<KeyValue>, key: string, i: nat)
    requires i < |base| <= |m| && base[i].key == key
    requires forall j :: 0 <= j < |base| ==> m[j].key == base[j].key
    ensures Find(m, key) == Find(base, key) < |base|
  {
    var f := Find(base, key);
    FindIs(m, key, f);
  }

  lemma NewHeadMatch(base: seq<KeyValue>, m: seq<KeyValue>, p: KeyValue, i: nat)
    requires Changed(base, m, p) && i < |base| && base[i].key == p.key && base[i].condition == p.condition
    ensures MatchOf(base, i, m) < |m| && m[MatchOf(base, i, m)] == Partner(base, p, i)
  {
    hide FirstFit, NthCopy, Target;
    var t, e := Target(base, p), base[i];
    ChangedTarget(base, p);
    assert p.condition == "" && t < i;
    var r := PreviousCopy(base, e, i);
    PreviousIs(base, e, i);
    NoCopies(base, e, 0, t);
    if r < |base| {
      assert t < r;
      CopiesDiffer(m, base, e, t, r);
      NthCopyIs(m, e, r, 0);
    } else {
      CopiesDiffer(m, base, e, t, t);
      NthCopyIs(m, e, t, 0);
    }
  }

  // ---------- The check, exactly ----------

  lemma KeepsSelf(list: seq<KeyValue>)
    ensures KeepsKeys(list, list)
  {
    EmbedsSelf(list);
    EmbeddedKeepsKeys(list, list);
  }

  // The patch entry that decides about entry i, if there is one.
  ghost predicate Decides(base: seq<KeyValue>, patch: seq<KeyValue>, i: nat)
    requires i < |base|
  {
    var n := Find(patch, base[i].key);
    n < |patch| && (ChangesHead(base, patch[n]) || Target(base, patch[n]) == i)
  }

  // Entries no replacement decides about pass the check.
  lemma Undecided(base: seq<KeyValue>, patch: seq<KeyValue>, m: seq<KeyValue>, i: nat)
    requires DistinctTop(patch) && Shape(base, patch, m) && i < |base| && !Decides(base, patch, i)
    ensures KeepsEntry(base[i], MatchOf(base, i, m), m)
  {
    hide Merge, FirstFit, NthCopy, Copies, Target;
    HeadsHere(base, patch, m, i);
    MatchSelf(base, m, i);
    assert m[i] == Landed(base, patch, i) == base[i];
    KeepsSelf(base[i].children);
  }

  // Without a changed head of its key, the copies of an entry's head stay where they are.
  lemma HeadsHere(base: seq<KeyValue>, patch: seq<KeyValue>, m: seq<KeyValue>, i: nat)
    requires Shape(base, patch, m) && i < |base|
    requires Find(patch, base[i].key) < |patch| ==> !ChangesHead(base, patch[Find(patch, base[i].key)])
    ensures forall j :: 0 <= j < |base| ==> (SameHead(m[j], base[i]) <==> SameHead(base[j], base[i]))
  {
    hide Merge, FirstFit;
    forall j | 0 <= j < |base| ensures SameHead(m[j], base[i]) <==> SameHead(base[j], base[i]) {
      assert m[j] == Landed(base, patch, j);
    }
  }

  // Where an incoming entry lands without changing the head, blocks decide and nothing else does.
  lemma LandedMatch(base: seq<KeyValue>, patch: seq<KeyValue>, m: seq<KeyValue>, n: nat)
    requires DistinctTop(patch) && Shape(base, patch, m) && n < |patch| && Target(base, patch[n]) < |base|
    requires !ChangesHead(base, patch[n])
    ensures var t := Target(base, patch[n]);
            KeepsEntry(base[t], MatchOf(base, t, m), m) <==> Stands(base[t], Replaced(base[t], patch[n]))
  {
    hide FirstFit, NthCopy, Copies, KeepsKeys;
    var t := Target(base, patch[n]);
    FindIs(patch, patch[n].key, n);
    HeadsHere(base, patch, m, t);
    MatchSelf(base, m, t);
    assert m[t] == Landed(base, patch, t);
  }

  lemma {:induction false} HarmlessIs(base: seq<KeyValue>, incoming: KeyValue)
    requires DistinctKeys(incoming.children) && Target(base, incoming) < |base| && !ChangesHead(base, incoming)
    ensures HarmlessOne(base, incoming) <==> Stands(base[Target(base, incoming)], Replaced(base[Target(base, incoming)], incoming))
    decreases incoming, 1
  {
    hide FirstFit, KeepsKeys, Harmless;
    var t := Target(base, incoming);
    if base[t].isBlock && incoming.isBlock {
      KeepsExactly(base[t].children, incoming.children);
    }
  }

  // The merge of a patch with distinct keys passes the check exactly when every entry of the patch is harmless.
  lemma {:induction false} KeepsExactly(base: seq<KeyValue>, patch: seq<KeyValue>)
    requires DistinctKeys(patch)
    ensures KeepsKeys(base, Merge(base, patch)) <==> Harmless(base, patch)
    decreases patch, 0
  {
    hide FirstFit, Merge, Target, MatchOf, Shape, Partner, KeepsEntry, ChangesHead, Stands, Replaced;
    var m := Merge(base, patch);
    MergeShape(base, patch);
    forall n | 0 <= n < |patch|
      ensures HarmlessOne(base, patch[n]) <==>
              forall i :: 0 <= i < |base| && base[i].key == patch[n].key && Decides(base, patch, i) ==>
                KeepsEntry(base[i], MatchOf(base, i, m), m)
    {
      if Target(base, patch[n]) < |base| && !ChangesHead(base, patch[n]) {
        HarmlessIs(base, patch[n]);
      }
      OneDecided(base, patch, m, n);
    }
    forall i | 0 <= i < |base| && !Decides(base, patch, i) ensures KeepsEntry(base[i], MatchOf(base, i, m), m) {
      Undecided(base, patch, m, i);
    }
    EachDecided(base, patch, m);
  }

  // One incoming entry, against the entries it decides about.
  lemma OneDecided(base: seq<KeyValue>, patch: seq<KeyValue>, m: seq<KeyValue>, n: nat)
    requires DistinctTop(patch) && Shape(base, patch, m) && n < |patch|
    requires Target(base, patch[n]) < |base| && !ChangesHead(base, patch[n]) ==>
               (HarmlessOne(base, patch[n]) <==>
                Stands(base[Target(base, patch[n])], Replaced(base[Target(base, patch[n])], patch[n])))
    ensures HarmlessOne(base, patch[n]) <==>
            forall i :: 0 <= i < |base| && base[i].key == patch[n].key && Decides(base, patch, i) ==>
              KeepsEntry(base[i], MatchOf(base, i, m), m)
  {
    hide FirstFit, Merge, MatchOf, Shape, KeepsKeys, Partner, Replaced;
    var p := patch[n];
    FindIs(patch, p.key, n);
    var t := Target(base, p);
    if t < |base| {
      if ChangesHead(base, p) {
        forall i | 0 <= i < |base| && base[i].key == p.key
          ensures KeepsEntry(base[i], MatchOf(base, i, m), m) <==> Stands(base[i], Partner(base, p, i))
        {
          ChangedMatch(base, patch, m, n, i);
        }
      } else {
        LandedMatch(base, patch, m, n);
      }
    }
  }

  // What is decided is decided by an entry of the patch.
  lemma EachDecided(base: seq<KeyValue>, patch: seq<KeyValue>, m: seq<KeyValue>)
    requires forall n :: 0 <= n < |patch| ==>
               (HarmlessOne(base, patch[n]) <==>
                forall i :: 0 <= i < |base| && base[i].key == patch[n].key && Decides(base, patch, i) ==>
                  KeepsEntry(base[i], MatchOf(base, i, m), m))
    requires forall i :: 0 <= i < |base| && !Decides(base, patch, i) ==> KeepsEntry(base[i], MatchOf(base, i, m), m)
    ensures KeepsKeys(base, m) <==> Harmless(base, patch)
  {
    hide KeepsEntry, MatchOf, HarmlessOne, Target, ChangesHead;
    if Harmless(base, patch) {
      forall i | 0 <= i < |base| ensures KeepsEntry(base[i], MatchOf(base, i, m), m) {
        if Decides(base, patch, i) {
          assert HarmlessOne(base, patch[Find(patch, base[i].key)]);
        }
      }
    }
  }

  // ---------- The premise of the check ----------

  // "The n-th original copy is still the n-th merged one": no entry's head changes.
  ghost predicate HeadsKept(base: seq<KeyValue>, merged: seq<KeyValue>) {
    |base| <= |merged| && forall i :: 0 <= i < |base| ==> SameHead(base[i], merged[i])
  }

  // It holds exactly when no entry of the patch replaces, wholesale, one of another condition.
  lemma HeadsKeptExactly(base: seq<KeyValue>, patch: seq<KeyValue>)
    requires DistinctTop(patch)
    ensures HeadsKept(base, Merge(base, patch)) <==> forall n :: 0 <= n < |patch| ==> !ChangesHead(base, patch[n])
  {
    hide Merge, FirstFit;
    var m := Merge(base, patch);
    MergeShape(base, patch);
    if n :| 0 <= n < |patch| && ChangesHead(base, patch[n]) {
      ChangedHeads(base, patch, m, n);
      assert !SameHead(base[Target(base, patch[n])], m[Target(base, patch[n])]);
    } else {
      forall i | 0 <= i < |base| ensures SameHead(base[i], m[i]) {
        assert m[i] == Landed(base, patch, i);
      }
    }
  }

  // ---------- Three instances ----------

  // Nothing is lost, yet the copies after the replaced one are compared one place on, and the check refuses.
  lemma ShiftedCopiesRefused(key: string, condition: string, value: string, d: KeyValue, e: KeyValue)
    requires condition != "" && d.key != e.key && DistinctKeys(e.children)
    ensures var base := [KeyValue(key, value, condition, [], false), KeyValue(key, "", "", [d], true)];
            var incoming := KeyValue(key, "", "", [e], true);
            && Merge(base, [incoming]) == [incoming, base[1]]
            && !Harmless(base, [incoming]) && !KeepsKeys(base, Merge(base, [incoming]))
  {
    var base := [KeyValue(key, value, condition, [], false), KeyValue(key, "", "", [d], true)];
    var incoming := KeyValue(key, "", "", [e], true);
    var patch := [incoming];
    NeverExact(base, incoming, 0);
    TargetIs(base, incoming, 0);
    assert MergeOne(base, incoming) == [incoming, base[1]];
    MergeSingle(base, incoming);
    OtherKeyRefused(d, e);
    assert PreviousCopy(base, base[1], 1) == 2 by {
      assert PreviousCopy(base, base[1], 0) == 2;
    }
    assert !Stands(base[1], Partner(base, incoming, 1));
    assert !HarmlessOne(base, patch[0]);
    KeepsExactly(base, patch);
  }

  // A changed condition alone does no harm: a single value may lose its condition.
  lemma LoneValuePasses(key: string, condition: string, before: string, after: string)
    requires condition != ""
    ensures var base, incoming := [KeyValue(key, before, condition, [], false)], KeyValue(key, after, "", [], false);
            ChangesHead(base, incoming) && KeepsKeys(base, Merge(base, [incoming]))
  {
    var base, incoming := [KeyValue(key, before, condition, [], false)], KeyValue(key, after, "", [], false);
    var patch := [incoming];
    NeverExact(base, incoming, 0);
    TargetIs(base, incoming, 0);
    assert HarmlessOne(base, patch[0]);
    KeepsExactly(base, patch);
  }

  // With a key twice in the patch, harmless steps can lose children one after the other.
  lemma RepeatedKeyLoses(key: string, d: KeyValue, e: KeyValue)
    requires d.key != e.key
    ensures var base := [KeyValue(key, "", "", [d], true)];
            var first, second := KeyValue(key, "", "", [], false), KeyValue(key, "", "", [e], true);
            && HarmlessOne(base, first) && HarmlessOne(MergeOne(base, first), second)
            && !KeepsKeys(base, Merge(base, [first, second]))
  {
    var base := [KeyValue(key, "", "", [d], true)];
    var first, second := KeyValue(key, "", "", [], false), KeyValue(key, "", "", [e], true);
    NeverExact(base, first, 0);
    TargetIs(base, first, 0);
    var next := MergeOne(base, first);
    assert next == [first];
    NeverExact(next, second, 0);
    TargetIs(next, second, 0);
    var m := MergeOne(next, second);
    assert m == [second];
    assert [first, second][1..] == [second];
    MergeSingle(next, second);
    OtherKeyRefused(d, e);
    MatchSelf(base, m, 0);
    assert !KeepsEntry(base[0], MatchOf(base, 0, m), m);
  }
}
