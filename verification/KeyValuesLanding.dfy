// What a merge of KeyValues lists is, said of the lists alone.
module KeyValuesLanding {
  import opened KeyValues
  import opened KeyValuesMerge

  // Two entries of one key with the same conditional.
  predicate SameGuard(e: KeyValue, f: KeyValue) {
    e.key == f.key && e.condition == f.condition && e.condition != ""
  }

  // Two entries of one key with at most one conditional between them.
  predicate Meets(e: KeyValue, f: KeyValue) {
    e.key == f.key && |{e.condition, f.condition} - {""}| <= 1
  }

  // An incoming entry lands on the first one with its own conditional; without such a one, on the first it meets.
  ghost predicate LandsOn(base: seq<KeyValue>, incoming: KeyValue, i: nat) {
    && i < |base|
    && if exists j :: 0 <= j < |base| && SameGuard(base[j], incoming) then
         SameGuard(base[i], incoming) && forall j :: 0 <= j < i ==> !SameGuard(base[j], incoming)
       else
         Meets(base[i], incoming) && forall j :: 0 <= j < i ==> !Meets(base[j], incoming)
  }

  ghost predicate LandsNowhere(base: seq<KeyValue>, incoming: KeyValue) {
    forall j :: 0 <= j < |base| ==> !Meets(base[j], incoming)
  }

  // Of two blocks the older keeps its key and conditional and takes the children in; otherwise the incoming entry stays.
  ghost predicate Left(e: KeyValue, incoming: KeyValue, r: KeyValue)
    decreases incoming, 0
  {
    if e.isBlock && incoming.isBlock then
      r.key == e.key && r.condition == e.condition && r.value == e.value && r.isBlock
      && Merges(e.children, incoming.children, r.children)
    else r == incoming
  }

  // One entry more: it changes the place it lands on and no other, or stands at the end.
  ghost predicate Placed(base: seq<KeyValue>, incoming: KeyValue, m: seq<KeyValue>)
    decreases incoming, 1
  {
    || (LandsNowhere(base, incoming) && m == base + [incoming])
    || exists i: nat ::
         && LandsOn(base, incoming, i) && |m| == |base| && Left(base[i], incoming, m[i])
         && forall j :: 0 <= j < |base| && j != i ==> m[j] == base[j]
  }

  // One after the other.
  ghost predicate Merges(base: seq<KeyValue>, patch: seq<KeyValue>, m: seq<KeyValue>)
    decreases patch, 0
  {
    if patch == [] then m == base else exists b :: Placed(base, patch[0], b) && Merges(b, patch[1..], m)
  }

  lemma MeetsIs(e: KeyValue, f: KeyValue)
    ensures Meets(e, f) <==> Compatible(e, f)
    ensures SameGuard(e, f) <==> Exact(e, f)
    ensures SameGuard(e, f) ==> Meets(e, f)
  {
    var c, d := e.condition, f.condition;
    if c == "" || d == "" || c == d {
      assert {c, d} - {""} == if c != "" then {c} else if d != "" then {d} else {};
    } else {
      assert {c, d} - {""} == {c, d};
    }
  }

  lemma {:induction false} LandingIs(base: seq<KeyValue>, incoming: KeyValue, i: nat)
    ensures LandsOn(base, incoming, i) <==> i < |base| && Target(base, incoming) == i
  {
    hide SameGuard, Meets, Exact, Compatible;
    forall j | 0 <= j < |base|
      ensures Meets(base[j], incoming) <==> Fits(base[j], incoming, false)
      ensures SameGuard(base[j], incoming) <==> Fits(base[j], incoming, true)
    {
      MeetsIs(base[j], incoming);
    }
  }

  lemma {:induction false} NowhereIs(base: seq<KeyValue>, incoming: KeyValue)
    ensures LandsNowhere(base, incoming) <==> Target(base, incoming) == |base|
  {
    hide SameGuard, Meets, Exact, Compatible;
    forall j | 0 <= j < |base|
      ensures Meets(base[j], incoming) <==> Fits(base[j], incoming, false)
      ensures SameGuard(base[j], incoming) <==> Fits(base[j], incoming, true)
      ensures SameGuard(base[j], incoming) ==> Meets(base[j], incoming)
    {
      MeetsIs(base[j], incoming);
    }
  }

  function Kept(e: KeyValue, incoming: KeyValue): KeyValue {
    if e.isBlock && incoming.isBlock then e.(children := Merge(e.children, incoming.children)) else incoming
  }

  lemma OneIs(base: seq<KeyValue>, incoming: KeyValue)
    ensures var t := Target(base, incoming);
            MergeOne(base, incoming) == if t == |base| then base + [incoming] else base[t := Kept(base[t], incoming)]
  {
  }

  lemma {:induction false} PlacedExactly(base: seq<KeyValue>, incoming: KeyValue, m: seq<KeyValue>)
    ensures Placed(base, incoming, m) <==> m == MergeOne(base, incoming)
    decreases incoming, 1
  {
    hide LandsOn, LandsNowhere, Target, MergeOne, Kept, Left;
    var t := Target(base, incoming);
    OneIs(base, incoming);
    NowhereIs(base, incoming);
    forall i: nat ensures LandsOn(base, incoming, i) <==> i < |base| && t == i {
      LandingIs(base, incoming, i);
    }
    if t < |base| {
      var kept := Kept(base[t], incoming);
      LeftExactly(base[t], incoming, kept);
      if Placed(base, incoming, m) {
        LeftExactly(base[t], incoming, m[t]);
        assert m == base[t := kept];
      }
    }
  }

  // The merged entry, and no other, is left.
  lemma {:induction false} LeftExactly(e: KeyValue, incoming: KeyValue, r: KeyValue)
    ensures Left(e, incoming, r) <==> r == Kept(e, incoming)
    decreases incoming, 0
  {
    hide Merge, Merges;
    if e.isBlock && incoming.isBlock {
      MergedExactly(e.children, incoming.children, r.children);
    }
  }

  // The merged list is the one the lists themselves determine.
  lemma {:induction false} MergedExactly(base: seq<KeyValue>, patch: seq<KeyValue>, m: seq<KeyValue>)
    ensures Merges(base, patch, m) <==> m == Merge(base, patch)
    decreases patch, 0
  {
    hide Placed, MergeOne;
    if patch != [] {
      var b := MergeOne(base, patch[0]);
      PlacedExactly(base, patch[0], b);
      MergedExactly(b, patch[1..], m);
      forall c | Placed(base, patch[0], c) ensures c == b {
        PlacedExactly(base, patch[0], c);
      }
    }
  }
}
