// Bounds on the matcher's steps, from the pattern and the text's length alone.
module RegexCost {
  import opened Bits
  import opened Regex

  // ---------- A bound for every pattern ----------

  // No more occurrences can follow `count` of them from position `at`: each takes a character or is one of those
  // still required.
  function Left(n: Node, count: nat, at: nat, length: nat): int {
    length - at + if count < n.min then n.min - count else 0
  }

  // At most so many steps, if whatever comes after takes at most `after` steps from any position.
  function OneBound(n: Node, length: nat, after: nat): nat
    decreases n, 0
  {
    if n.kind == Group then ChoiceBound(n.alternatives, length, after) else after
  }

  function ChoiceBound(alternatives: seq<Branch>, length: nat, after: nat): nat
    decreases alternatives, 0
  {
    if alternatives == [] then 0
    else SequenceBound(alternatives[0].items, length, after) + ChoiceBound(alternatives[1..], length, after)
  }

  function SequenceBound(s: seq<Node>, length: nat, after: nat): nat
    decreases s, 0
  {
    if s == [] then after
    else RepeatBound(s[0], length + s[0].min, 0, length, SequenceBound(s[1..], length, after))
  }

  // With at most r more occurrences.
  function RepeatBound(n: Node, r: nat, count: nat, length: nat, after: nat): nat
    decreases n, 1, r
  {
    1 + (if !CanRepeat(n, count + 1) then 0
         else OneBound(n, length, if r == 0 then 0 else RepeatBound(n, r - 1, count + 1, length, after)))
      + if count >= n.min then after else 0
  }

  lemma {:induction false} OneBounded(text: seq<Byte>, n: Node, at: nat, k: Next, after: nat)
    requires Valid(k) && at <= |text| && forall p: nat :: at <= p <= |text| ==> NextCost(text, k, p) <= after
    ensures OneCost(text, n, at, k) <= OneBound(n, |text|, after)
    decreases n, 0
  {
    hide NextCost, SequenceCost, RepeatCost, ChoiceCost;
    if n.kind == Group {
      ChoiceBounded(text, n, 0, at, k, after);
      assert n.alternatives[0..] == n.alternatives;
    }
  }

  lemma {:induction false} ChoiceBounded(text: seq<Byte>, n: Node, a: nat, at: nat, k: Next, after: nat)
    requires Valid(k) && at <= |text| && n.kind == Group && a <= |n.alternatives|
    requires forall p: nat :: at <= p <= |text| ==> NextCost(text, k, p) <= after
    ensures ChoiceCost(text, n, a, at, k) <= ChoiceBound(n.alternatives[a..], |text|, after)
    decreases n.alternatives[a..], 0
  {
    hide NextCost, SequenceCost, RepeatCost, SequenceBound;
    if a < |n.alternatives| {
      assert n.alternatives[a..][0] == n.alternatives[a] && n.alternatives[a..][1..] == n.alternatives[a + 1..];
      SequenceBounded(text, n.alternatives[a].items, 0, at, k, after);
      assert n.alternatives[a].items[0..] == n.alternatives[a].items;
      ChoiceBounded(text, n, a + 1, at, k, after);
    }
  }

  lemma {:induction false} SequenceBounded(text: seq<Byte>, s: seq<Node>, index: nat, at: nat, k: Next, after: nat)
    requires Valid(k) && at <= |text| && index <= |s|
    requires forall p: nat :: at <= p <= |text| ==> NextCost(text, k, p) <= after
    ensures SequenceCost(text, s, index, at, k) <= SequenceBound(s[index..], |text|, after)
    decreases s[index..], 0
  {
    hide NextCost, RepeatCost, RepeatBound;
    if index < |s| {
      assert s[index..][0] == s[index] && s[index..][1..] == s[index + 1..];
      var rest, bound := Rest(s, index + 1, k), SequenceBound(s[index + 1..], |text|, after);
      forall p: nat | at <= p <= |text| ensures NextCost(text, rest, p) <= bound {
        SequenceBounded(text, s, index + 1, p, k, after);
        RestCost(text, s, index + 1, p, k);
      }
      RepeatBounded(text, s[index], |text| + s[index].min, 0, at, rest, bound);
    }
  }

  lemma RestCost(text: seq<Byte>, s: seq<Node>, index: nat, p: nat, k: Next)
    requires Valid(k) && index <= |s| && p <= |text|
    ensures NextCost(text, Rest(s, index, k), p) == SequenceCost(text, s, index, p, k)
  {
    hide SequenceCost;
  }

  lemma {:induction false} RepeatBounded(text: seq<Byte>, n: Node, r: nat, count: nat, at: nat, k: Next, after: nat)
    requires Valid(k) && CanRepeat(n, count) && at <= |text| && Left(n, count, at, |text|) <= r
    requires forall p: nat :: at <= p <= |text| ==> NextCost(text, k, p) <= after
    ensures RepeatCost(text, n, count, at, k) <= RepeatBound(n, r, count, |text|, after)
    decreases n, 1, r
  {
    hide NextCost, OneCost, OneBound, SequenceCost;
    var more := Again(n, count, at, k);
    var bound := if r == 0 then 0 else RepeatBound(n, r - 1, count + 1, |text|, after);
    if CanRepeat(n, count + 1) {
      forall p: nat | at <= p <= |text| ensures NextCost(text, more, p) <= bound {
        AgainCost(text, n, count, at, p, k);
        if !(p == at && count >= n.min) {
          RepeatBounded(text, n, r - 1, count + 1, p, k, after);
        }
      }
      OneBounded(text, n, at, more, bound);
    }
  }

  lemma AgainCost(text: seq<Byte>, n: Node, count: nat, at: nat, p: nat, k: Next)
    requires Valid(k) && CanRepeat(n, count + 1) && p <= |text|
    ensures NextCost(text, Again(n, count, at, k), p) ==
            if p == at && count >= n.min then 0 else RepeatCost(text, n, count + 1, p, k)
  {
    hide RepeatCost;
  }

  // The whole search.
  lemma {:induction false} SearchBounded(text: seq<Byte>, root: Node, start: nat)
    requires start <= |text| + 1
    ensures SearchCost(text, root, start) <= (|text| + 1 - start) * OneBound(root, |text|, 0)
    decreases |text| + 1 - start
  {
    hide OneCost, OneBound, NextCost;
    if start <= |text| {
      AcceptCost(text, start);
      OneBounded(text, root, start, Accept, 0);
      SearchBounded(text, root, start + 1);
      var bound, m := OneBound(root, |text|, 0), |text| - start;
      assert (m + 1) * bound == m * bound + bound;
    }
  }

  lemma AcceptCost(text: seq<Byte>, at: nat)
    ensures forall p: nat :: at <= p <= |text| ==> NextCost(text, Accept, p) == 0
  {
  }

  // ---------- Patterns whose alternatives hold no groups ----------

  predicate Once(n: Node) {
    n.min == 1 && n.max == 1
  }

  // How many elements are not taken exactly once.
  function Loose(s: seq<Node>): (u: nat)
    decreases |s|
  {
    if s == [] then 0 else (if Once(s[0]) then 0 else 1) + Loose(s[1..])
  }

  ghost predicate Flat(s: seq<Node>, most: nat) {
    forall i :: 0 <= i < |s| ==> s[i].kind != Group && s[i].min <= most
  }

  function Power(w: nat, u: nat): (r: nat)
    ensures w >= 1 ==> r >= 1
    decreases u, w
  {
    if u == 0 then 1 else PositiveTimes(w, Power(w, u - 1)); w * Power(w, u - 1)
  }

  lemma PositiveTimes(a: nat, b: nat)
    ensures a * b >= 0 && (a >= 1 && b >= 1 ==> a * b >= 1)
  {
    if a >= 1 && b >= 1 {
      Grows(1, a, b);
    }
  }

  lemma Grows(a: nat, b: nat, k: nat)
    requires a <= b
    ensures a * k <= b * k && k * a <= k * b
  {
  }

  // A single character's repetitions: so many stops, each followed by what comes after.
  lemma {:induction false} SimpleRepeat(n: Node, r: nat, count: nat, length: nat, after: nat)
    requires n.kind != Group
    ensures RepeatBound(n, r, count, length, after) <= (r + 1) * (1 + after)
    decreases r
  {
    if r > 0 {
      SimpleRepeat(n, r - 1, count + 1, length, after);
      assert (r + 1) * (1 + after) == r * (1 + after) + (1 + after);
    }
  }

  lemma OnceRepeat(n: Node, r: nat, length: nat, after: nat)
    requires n.kind != Group && Once(n) && r >= 1
    ensures RepeatBound(n, r, 0, length, after) == 2 + after
  {
    assert RepeatBound(n, r - 1, 1, length, after) == 1 + after;
  }

  lemma {:induction false} FlatSequence(s: seq<Node>, most: nat, length: nat, after: nat)
    requires Flat(s, most)
    ensures SequenceBound(s, length, after) <= Power(length + most + 1, Loose(s)) * (2 * |s| + Loose(s) + after)
    decreases |s|
  {
    hide RepeatBound, Power;
    PowerFacts(length + most + 1, Loose(s));
    if s != [] {
      var n, rest := s[0], s[1..];
      FlatSequence(rest, most, length, after);
      var tail, w := SequenceBound(rest, length, after), length + most + 1;
      var p, t := Power(w, Loose(rest)), 2 * |rest| + Loose(rest) + after;
      PowerFacts(w, Loose(rest));
      if Once(n) {
        OnceRepeat(n, length + n.min, length, tail);
        Spread(p, t, 2);
      } else {
        SimpleRepeat(n, length + n.min, 0, length, tail);
        Grows(length + n.min + 1, w, 1 + tail);
        Spread(p, t, 1);
        Grows(1 + tail, p * (t + 1), w);
        Reassociate(w, p, t + 1);
        Grows(t + 1, 2 * |s| + Loose(s) + after, w * p);
      }
    }
  }

  lemma PowerFacts(w: nat, u: nat)
    requires w >= 1
    ensures Power(w, u) >= 1 && Power(w, u + 1) == w * Power(w, u) && Power(w, 0) == 1
  {
  }

  lemma Spread(p: nat, t: nat, k: nat)
    requires p >= 1
    ensures k + p * t <= p * (t + k)
  {
    assert p * (t + k) == p * t + p * k;
    Grows(1, p, k);
  }

  lemma Reassociate(a: nat, b: nat, c: nat)
    ensures a * (b * c) == (a * b) * c && a * b >= 0
  {
  }

  // Their bounds, added up.
  function FlatChoice(alternatives: seq<Branch>, most: nat, length: nat): nat
    decreases |alternatives|
  {
    if alternatives == [] then 0 else
      var s := alternatives[0].items;
      PositiveTimes(Power(length + most + 1, Loose(s)), 2 * |s| + Loose(s));
      Power(length + most + 1, Loose(s)) * (2 * |s| + Loose(s)) + FlatChoice(alternatives[1..], most, length)
  }

  lemma {:induction false} FlatAlternatives(alternatives: seq<Branch>, most: nat, length: nat)
    requires forall a :: 0 <= a < |alternatives| ==> Flat(alternatives[a].items, most)
    ensures ChoiceBound(alternatives, length, 0) <= FlatChoice(alternatives, most, length)
    decreases |alternatives|
  {
    hide SequenceBound, Power, Loose;
    if alternatives != [] {
      FlatSequence(alternatives[0].items, most, length, 0);
      FlatAlternatives(alternatives[1..], most, length);
    }
  }

  // A pattern whose alternatives hold no groups takes, over all starts, at most as many steps as the text is long times a
  // polynomial whose degree is the number of elements that are not taken exactly once.
  lemma FlatSearch(text: seq<Byte>, root: Node, most: nat)
    requires root.kind == Group && forall a :: 0 <= a < |root.alternatives| ==> Flat(root.alternatives[a].items, most)
    ensures SearchCost(text, root, 0) <= (|text| + 1) * FlatChoice(root.alternatives, most, |text|)
  {
    hide SearchCost, FlatChoice, ChoiceBound;
    SearchBounded(text, root, 0);
    FlatAlternatives(root.alternatives, most, |text|);
    Grows(OneBound(root, |text|, 0), FlatChoice(root.alternatives, most, |text|), |text| + 1);
  }

  // A plain word: at most two steps a character from each start.
  lemma WordSearch(text: seq<Byte>, root: Node, s: seq<Node>)
    requires root.kind == Group && root.alternatives == [Branch(s)]
    requires forall i :: 0 <= i < |s| ==> s[i].kind != Group && Once(s[i])
    ensures SearchCost(text, root, 0) <= (|text| + 1) * (2 * |s|)
  {
    hide SearchCost;
    AllOnce(s);
    assert Flat(s, 1);
    FlatSearch(text, root, 1);
    assert root.alternatives[1..] == [];
    assert Power(|text| + 2, 0) == 1;
    assert FlatChoice([], 1, |text|) == 0;
  }

  lemma {:induction false} AllOnce(s: seq<Node>)
    requires forall i :: 0 <= i < |s| ==> Once(s[i])
    ensures Loose(s) == 0
    decreases |s|
  {
    if s != [] {
      AllOnce(s[1..]);
    }
  }
}
