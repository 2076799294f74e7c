// The backtracking matcher and the declarative meaning of the patterns it runs.
module Regex {
  import opened Options
  import opened Bits

  const NEWLINE: Byte := 10

  datatype Kind = Char | Any | Class | Group | Start | End

  datatype Branch = Branch(items: seq<Node>)

  // One pattern element with its repetition bounds; a negative max is unbounded.
  datatype Node = Node(kind: Kind, c: Byte, negate: bool, ranges: seq<(Byte, Byte)>, alternatives: seq<Branch>,
                       min: nat, max: int)

  predicate InRanges(ranges: seq<(Byte, Byte)>, b: Byte) {
    exists i :: 0 <= i < |ranges| && ranges[i].0 <= b <= ranges[i].1
  }

  // ---------- What a pattern matches ----------

  // One occurrence of the element, its repetition aside, spans text[i..j].
  ghost predicate One(text: seq<Byte>, n: Node, i: nat, j: nat)
    decreases n, 0
  {
    match n.kind
    case Char => i < |text| && text[i] == n.c && j == i + 1
    case Any => i < |text| && text[i] != '\n' as int && j == i + 1
    case Class => i < |text| && InRanges(n.ranges, text[i]) != n.negate && j == i + 1
    case Start => i == 0 && j == i
    case End => i == |text| && j == i
    case Group => exists a :: 0 <= a < |n.alternatives| && Sequence(text, n.alternatives[a].items, i, j)
  }

  // c occurrences in a row.
  ghost predicate Times(text: seq<Byte>, n: Node, c: nat, i: nat, j: nat)
    decreases n, 1, c
  {
    if c == 0 then i == j else exists m: nat :: One(text, n, i, m) && Times(text, n, c - 1, m, j)
  }

  // As many more occurrences after `count` of them as the bounds allow.
  ghost predicate Repeats(text: seq<Byte>, n: Node, count: nat, i: nat, j: nat)
    decreases n, 2
  {
    exists c: nat :: n.min <= count + c && (n.max < 0 || count + c <= n.max) && Times(text, n, c, i, j)
  }

  ghost predicate Sequence(text: seq<Byte>, s: seq<Node>, i: nat, j: nat)
    decreases s, 0
  {
    if s == [] then i == j
    else exists m: nat :: Repeats(text, s[0], 0, i, m) && Sequence(text, s[1..], m, j)
  }

  // Some part of the text matches.
  ghost predicate Found(text: seq<Byte>, root: Node) {
    exists i: nat, j: nat :: i <= |text| && One(text, root, i, j)
  }

  // ---------- What is left to match ----------

  // The matcher's closures as data: accept, go on with a sequence, or come back from one occurrence
  // that started at `at`, the (count + 1)-th.
  datatype Next =
    | Accept
    | Rest(s: seq<Node>, index: nat, next: Next)
    | Again(node: Node, count: nat, at: nat, next: Next)

  predicate CanRepeat(n: Node, count: nat) {
    n.max < 0 || count <= n.max
  }

  predicate Valid(k: Next) {
    match k
    case Accept => true
    case Rest(s, index, next) => index <= |s| && Valid(next)
    case Again(n, count, _, next) => CanRepeat(n, count + 1) && Valid(next)
  }

  // The remaining work can succeed from position p.
  ghost predicate Succeeds(text: seq<Byte>, k: Next, p: nat)
    requires Valid(k)
    decreases k, 0
  {
    match k
    case Accept => true
    case Rest(s, index, next) => SequenceThen(text, s[index..], p, next)
    case Again(n, count, at, next) => !(p == at && count >= n.min) && RepeatsThen(text, n, count + 1, p, next)
  }

  ghost predicate SequenceThen(text: seq<Byte>, s: seq<Node>, p: nat, k: Next)
    requires Valid(k)
    decreases k, 1
  {
    exists q: nat :: Sequence(text, s, p, q) && Succeeds(text, k, q)
  }

  ghost predicate RepeatsThen(text: seq<Byte>, n: Node, count: nat, p: nat, k: Next)
    requires Valid(k)
    decreases k, 1
  {
    exists q: nat :: Repeats(text, n, count, p, q) && Succeeds(text, k, q)
  }

  ghost predicate OneThen(text: seq<Byte>, n: Node, p: nat, k: Next)
    requires Valid(k)
  {
    exists q: nat :: One(text, n, p, q) && Succeeds(text, k, q)
  }

  // ---------- The cases of the search ----------

  lemma SequenceSplit(text: seq<Byte>, s: seq<Node>, i: nat, j: nat) returns (m: nat)
    requires s != [] && Sequence(text, s, i, j)
    ensures Repeats(text, s[0], 0, i, m) && Sequence(text, s[1..], m, j)
  {
    m :| Repeats(text, s[0], 0, i, m) && Sequence(text, s[1..], m, j);
  }

  lemma RepeatsSplit(text: seq<Byte>, n: Node, count: nat, i: nat, j: nat) returns (c: nat)
    requires Repeats(text, n, count, i, j)
    ensures n.min <= count + c && CanRepeat(n, count + c) && Times(text, n, c, i, j)
  {
    c :| n.min <= count + c && (n.max < 0 || count + c <= n.max) && Times(text, n, c, i, j);
  }

  lemma SequenceThenSplit(text: seq<Byte>, s: seq<Node>, p: nat, k: Next) returns (q: nat)
    requires Valid(k) && SequenceThen(text, s, p, k)
    ensures Sequence(text, s, p, q) && Succeeds(text, k, q)
  {
    q :| Sequence(text, s, p, q) && Succeeds(text, k, q);
  }

  lemma RepeatsThenSplit(text: seq<Byte>, n: Node, count: nat, p: nat, k: Next) returns (q: nat)
    requires Valid(k) && RepeatsThen(text, n, count, p, k)
    ensures Repeats(text, n, count, p, q) && Succeeds(text, k, q)
  {
    q :| Repeats(text, n, count, p, q) && Succeeds(text, k, q);
  }

  lemma SequenceStep(text: seq<Byte>, s: seq<Node>, index: nat, p: nat, k: Next)
    requires Valid(k) && index < |s|
    ensures SequenceThen(text, s[index..], p, k) <==> RepeatsThen(text, s[index], 0, p, Rest(s, index + 1, k))
  {
    var rest := Rest(s, index + 1, k);
    assert s[index..][0] == s[index] && s[index..][1..] == s[index + 1..];
    if SequenceThen(text, s[index..], p, k) {
      var q := SequenceThenSplit(text, s[index..], p, k);
      var m := SequenceSplit(text, s[index..], p, q);
      assert SequenceThen(text, s[index + 1..], m, k);
      assert Succeeds(text, rest, m);
    }
    if RepeatsThen(text, s[index], 0, p, rest) {
      var m := RepeatsThenSplit(text, s[index], 0, p, rest);
      var q := SequenceThenSplit(text, s[index + 1..], m, k);
      assert Sequence(text, s[index..], p, q);
    }
  }

  // Going on with one more occurrence, or stopping here, covers every repetition: an optional
  // occurrence that matches nothing can be dropped.
  lemma {:induction false} DropEmpty(text: seq<Byte>, n: Node, count: nat, p: nat, c: nat, q: nat, k: Next)
    requires Valid(k) && CanRepeat(n, count)
    requires n.min <= count + c && CanRepeat(n, count + c) && Times(text, n, c, p, q) && Succeeds(text, k, q)
    ensures (count >= n.min && Succeeds(text, k, p)) ||
            (CanRepeat(n, count + 1) && OneThen(text, n, p, Again(n, count, p, k)))
    decreases c
  {
    if c > 0 {
      var m: nat :| One(text, n, p, m) && Times(text, n, c - 1, m, q);
      if m == p && count >= n.min {
        DropEmpty(text, n, count, p, c - 1, q, k);
      } else {
        assert Repeats(text, n, count + 1, m, q);
        assert RepeatsThen(text, n, count + 1, m, k);
        assert Succeeds(text, Again(n, count, p, k), m);
      }
    }
  }

  lemma TimesMore(text: seq<Byte>, n: Node, c: nat, p: nat, m: nat, q: nat)
    requires One(text, n, p, m) && Times(text, n, c, m, q)
    ensures Times(text, n, c + 1, p, q)
  {
  }

  lemma RepeatStep(text: seq<Byte>, n: Node, count: nat, p: nat, k: Next)
    requires Valid(k) && CanRepeat(n, count)
    ensures RepeatsThen(text, n, count, p, k) <==>
            (count >= n.min && Succeeds(text, k, p)) ||
            (CanRepeat(n, count + 1) && OneThen(text, n, p, Again(n, count, p, k)))
  {
    if RepeatsThen(text, n, count, p, k) {
      var q := RepeatsThenSplit(text, n, count, p, k);
      var c := RepeatsSplit(text, n, count, p, q);
      DropEmpty(text, n, count, p, c, q, k);
    }
    if count >= n.min && Succeeds(text, k, p) {
      assert Times(text, n, 0, p, p);
      assert Repeats(text, n, count, p, p);
    }
    if CanRepeat(n, count + 1) && OneThen(text, n, p, Again(n, count, p, k)) {
      var m: nat :| One(text, n, p, m) && Succeeds(text, Again(n, count, p, k), m);
      var q := RepeatsThenSplit(text, n, count + 1, m, k);
      var c := RepeatsSplit(text, n, count + 1, m, q);
      TimesMore(text, n, c, p, m, q);
      assert Repeats(text, n, count, p, q);
    }
  }

  lemma GroupStep(text: seq<Byte>, n: Node, p: nat, k: Next)
    requires Valid(k) && n.kind == Group
    ensures OneThen(text, n, p, k) <==>
            exists a :: 0 <= a < |n.alternatives| && SequenceThen(text, n.alternatives[a].items, p, k)
  {
    if OneThen(text, n, p, k) {
      var q: nat :| One(text, n, p, q) && Succeeds(text, k, q);
      var a :| 0 <= a < |n.alternatives| && Sequence(text, n.alternatives[a].items, p, q);
      assert SequenceThen(text, n.alternatives[a].items, p, k);
    }
    if a :| 0 <= a < |n.alternatives| && SequenceThen(text, n.alternatives[a].items, p, k) {
      var q: nat :| Sequence(text, n.alternatives[a].items, p, q) && Succeeds(text, k, q);
      assert One(text, n, p, q);
    }
  }

  // ---------- Why the search ends ----------

  // The work an element can cause before any text is consumed. Between two consumed characters the
  // matcher strictly uses this up: an optional occurrence that consumed nothing is not repeated.
  ghost function OneWork(n: Node): nat
    decreases n, 0
  {
    1 + if n.kind == Group then ChoiceWork(n.alternatives) else 0
  }

  ghost function ChoiceWork(alternatives: seq<Branch>): nat
    decreases alternatives, 0
  {
    if alternatives == [] then 0 else SequenceWork(alternatives[0].items) + ChoiceWork(alternatives[1..])
  }

  ghost function RepeatWork(n: Node, count: nat): nat
    decreases n, 1, n.min - count
  {
    2 + OneWork(n) + if count < n.min then RepeatWork(n, count + 1) else 0
  }

  ghost function SequenceWork(s: seq<Node>): nat
    decreases s, 0
  {
    if s == [] then 1 else 2 + RepeatWork(s[0], 0) + SequenceWork(s[1..])
  }

  ghost function NextWork(k: Next, p: nat): nat
    requires Valid(k)
  {
    match k
    case Accept => 0
    case Rest(s, index, next) => 1 + SequenceWork(s[index..]) + NextWork(next, p)
    case Again(n, count, at, next) =>
      1 + (if p == at && count >= n.min then 0 else RepeatWork(n, count + 1)) + NextWork(next, p)
  }

  lemma {:induction false} ChoiceWorkAt(alternatives: seq<Branch>, a: nat)
    requires a < |alternatives|
    ensures SequenceWork(alternatives[a].items) <= ChoiceWork(alternatives)
  {
    if a > 0 {
      ChoiceWorkAt(alternatives[1..], a - 1);
    }
  }

  // ---------- How many steps it takes ----------

  // The repetition steps the search makes from here until it has its answer, if nothing stops it: an alternative or a
  // shorter repetition is tried only after what comes before it has failed.
  ghost function NextCost(text: seq<Byte>, k: Next, p: nat): nat
    requires Valid(k) && p <= |text|
    decreases |text| - p, NextWork(k, p), 2
  {
    match k
    case Accept => 0
    case Rest(s, index, next) => SequenceCost(text, s, index, p, next)
    case Again(n, count, at, next) => if p == at && count >= n.min then 0 else RepeatCost(text, n, count + 1, p, next)
  }

  ghost function SequenceCost(text: seq<Byte>, s: seq<Node>, index: nat, at: nat, k: Next): nat
    requires Valid(k) && index <= |s| && at <= |text|
    decreases |text| - at, SequenceWork(s[index..]) + NextWork(k, at), 2
  {
    if index == |s| then
      assert s[index..] == [];
      NextCost(text, k, at)
    else
      assert s[index..][0] == s[index] && s[index..][1..] == s[index + 1..];
      RepeatCost(text, s[index], 0, at, Rest(s, index + 1, k))
  }

  ghost function RepeatCost(text: seq<Byte>, n: Node, count: nat, at: nat, k: Next): nat
    requires Valid(k) && CanRepeat(n, count) && at <= |text|
    decreases |text| - at, RepeatWork(n, count) + NextWork(k, at), 2
  {
    var more := Again(n, count, at, k);
    1 + if CanRepeat(n, count + 1) && OneThen(text, n, at, more) then OneCost(text, n, at, more)
        else (if CanRepeat(n, count + 1) then OneCost(text, n, at, more) else 0)
             + if count >= n.min then NextCost(text, k, at) else 0
  }

  ghost function OneCost(text: seq<Byte>, n: Node, at: nat, k: Next): nat
    requires Valid(k) && at <= |text|
    decreases |text| - at, OneWork(n) + NextWork(k, at), 1
  {
    match n.kind
    case Char => if at < |text| && text[at] == n.c then NextCost(text, k, at + 1) else 0
    case Any => if at < |text| && text[at] != NEWLINE then NextCost(text, k, at + 1) else 0
    case Class => if at < |text| && InRanges(n.ranges, text[at]) != n.negate then NextCost(text, k, at + 1) else 0
    case Start => if at == 0 then NextCost(text, k, at) else 0
    case End => if at == |text| then NextCost(text, k, at) else 0
    case Group => ChoiceCost(text, n, 0, at, k)
  }

  // The alternatives from a on.
  ghost function ChoiceCost(text: seq<Byte>, n: Node, a: nat, at: nat, k: Next): nat
    requires Valid(k) && at <= |text| && n.kind == Group && a <= |n.alternatives|
    decreases |text| - at, OneWork(n) + NextWork(k, at), 0, |n.alternatives| - a
  {
    if a == |n.alternatives| then 0 else
      ChoiceWorkAt(n.alternatives, a);
      assert n.alternatives[a].items[0..] == n.alternatives[a].items;
      SequenceCost(text, n.alternatives[a].items, 0, at, k)
      + if SequenceThen(text, n.alternatives[a].items, at, k) then 0 else ChoiceCost(text, n, a + 1, at, k)
  }

  // Where an element that is no group lets the matcher go on, if it does.
  ghost predicate Passes(text: seq<Byte>, n: Node, at: nat) {
    match n.kind
    case Char => at < |text| && text[at] == n.c
    case Any => at < |text| && text[at] != NEWLINE
    case Class => at < |text| && InRanges(n.ranges, text[at]) != n.negate
    case Start => at == 0
    case End => at == |text|
    case Group => false
  }

  function Behind(n: Node, at: nat): nat {
    if n.kind == Char || n.kind == Any || n.kind == Class then at + 1 else at
  }

  lemma LeafStep(text: seq<Byte>, n: Node, at: nat, k: Next)
    requires Valid(k) && at <= |text| && n.kind != Group
    ensures Passes(text, n, at) ==> Behind(n, at) <= |text| && OneCost(text, n, at, k) == NextCost(text, k, Behind(n, at))
    ensures !Passes(text, n, at) ==> OneCost(text, n, at, k) == 0
    ensures OneThen(text, n, at, k) <==> Passes(text, n, at) && Succeeds(text, k, Behind(n, at))
  {
    hide Succeeds, NextCost, InRanges;
    forall q: nat ensures One(text, n, at, q) <==> Passes(text, n, at) && q == Behind(n, at) {
    }
  }

  // The attempts from `start` on, up to the first that succeeds.
  ghost function SearchCost(text: seq<Byte>, root: Node, start: nat): nat
    requires start <= |text| + 1
    decreases |text| + 1 - start
  {
    if start > |text| then 0 else
      OneCost(text, root, start, Accept)
      + if OneThen(text, root, start, Accept) then 0 else SearchCost(text, root, start + 1)
  }

  // ---------- The matcher ----------

  class Regex {
    var root: Option<Node>
    var text: seq<Byte>
    var steps: nat
    // A pattern that needs more steps than this gives up, unmatched.
    const maxSteps: nat

    constructor (root: Option<Node>, maxSteps: nat)
      ensures this.root == root && this.maxSteps == maxSteps
    {
      this.root, this.maxSteps := root, maxSteps;
      text, steps := [], 0;
    }

    // An answer to `goal`: true only when it holds, and false without giving up only when it does not. It gives up
    // exactly when the `cost` steps it takes from `before` on are too many; else it takes them all.
    ghost predicate Answers(r: bool, goal: bool, before: nat, cost: nat)
      reads this`steps
    {
      && (r ==> goal) && (!r && steps <= maxSteps ==> !goal)
      && (steps <= maxSteps <==> before + cost <= maxSteps) && (steps <= maxSteps ==> steps == before + cost)
    }

    method Search(input: seq<Byte>) returns (r: bool)
      modifies this`text, this`steps
      ensures root == None ==> !r
      ensures root.Some? ==> Answers(r, Found(input, root.value), 0, SearchCost(input, root.value, 0))
      ensures root.Some? && SearchCost(input, root.value, 0) <= maxSteps ==> (r <==> Found(input, root.value))
    {
      if root == None {
        return false;
      }
      text := input;
      steps := 0;
      var start := 0;
      while start <= |text|
        invariant 0 <= start <= |text| + 1 && text == input
        invariant steps <= maxSteps ==> forall i: nat, j: nat :: i < start ==> !One(text, root.value, i, j)
        invariant steps <= maxSteps ==> SearchCost(text, root.value, 0) == steps + SearchCost(text, root.value, start)
        invariant steps > maxSteps ==> SearchCost(text, root.value, 0) > maxSteps
      {
        var matched := MatchOne(root.value, start, Accept);
        if matched {
          return true;
        }
        if steps <= maxSteps {
          assert forall j: nat :: One(text, root.value, start, j) ==> Succeeds(text, Accept, j);
        }
        start := start + 1;
      }
      return false;
    }

    // Goes on with what is left from position p.
    method Resume(k: Next, p: nat) returns (r: bool)
      requires Valid(k) && p <= |text|
      modifies this`steps
      ensures Answers(r, Succeeds(text, k, p), old(steps), NextCost(text, k, p))
      decreases |text| - p, NextWork(k, p)
    {
      match k
      case Accept => return true;
      case Rest(s, index, next) =>
        r := MatchSequence(s, index, p, next);
      case Again(n, count, at, next) =>
        if p == at && count >= n.min {
          return false;
        }
        r := MatchRepeat(n, count + 1, p, next);
    }

    method MatchSequence(s: seq<Node>, index: nat, at: nat, next: Next) returns (r: bool)
      requires Valid(next) && index <= |s| && at <= |text|
      modifies this`steps
      ensures Answers(r, SequenceThen(text, s[index..], at, next), old(steps), SequenceCost(text, s, index, at, next))
      decreases |text| - at, SequenceWork(s[index..]) + NextWork(next, at)
    {
      if index == |s| {
        assert s[index..] == [];
        r := Resume(next, at);
        assert Sequence(text, [], at, at);
        return;
      }
      SequenceStep(text, s, index, at, next);
      assert s[index..][0] == s[index] && s[index..][1..] == s[index + 1..];
      r := MatchRepeat(s[index], 0, at, Rest(s, index + 1, next));
    }

    method MatchRepeat(n: Node, count: nat, at: nat, next: Next) returns (r: bool)
      requires Valid(next) && CanRepeat(n, count) && at <= |text|
      modifies this`steps
      ensures Answers(r, RepeatsThen(text, n, count, at, next), old(steps), RepeatCost(text, n, count, at, next))
      decreases |text| - at, RepeatWork(n, count) + NextWork(next, at)
    {
      RepeatStep(text, n, count, at, next);
      steps := steps + 1;
      if steps > maxSteps {
        return false;
      }
      if n.max < 0 || count < n.max {
        var matched := MatchOne(n, at, Again(n, count, at, next));
        if matched {
          return true;
        }
      }
      if count >= n.min {
        r := Resume(next, at);
      } else {
        r := false;
      }
    }

    method MatchOne(n: Node, at: nat, next: Next) returns (r: bool)
      requires Valid(next) && at <= |text|
      modifies this`steps
      ensures Answers(r, OneThen(text, n, at, next), old(steps), OneCost(text, n, at, next))
      decreases |text| - at, OneWork(n) + NextWork(next, at), 1
    {
      hide One, OneThen, OneCost, InRanges, Succeeds, NextCost;
      if n.kind != Group {
        LeafStep(text, n, at, next);
      }
      match n.kind
      case Char =>
        r := false;
        if at < |text| && text[at] == n.c {
          r := Resume(next, at + 1);
        }
      case Any =>
        r := false;
        if at < |text| && text[at] != NEWLINE {
          r := Resume(next, at + 1);
        }
      case Start =>
        r := false;
        if at == 0 {
          r := Resume(next, at);
        }
      case End =>
        r := false;
        if at == |text| {
          r := Resume(next, at);
        }
      case Class =>
        if at >= |text| {
          return false;
        }
        var inside := InClass(n.ranges, text[at]);
        r := false;
        if inside != n.negate {
          r := Resume(next, at + 1);
        }
      case Group =>
        r := MatchGroup(n, at, next);
    }

    static method InClass(ranges: seq<(Byte, Byte)>, b: Byte) returns (inside: bool)
      ensures inside == InRanges(ranges, b)
    {
      inside := false;
      for i := 0 to |ranges|
        invariant inside == InRanges(ranges[..i], b)
      {
        inside := inside || ranges[i].0 <= b <= ranges[i].1;
      }
      assert ranges[..|ranges|] == ranges;
    }

    method MatchGroup(n: Node, at: nat, next: Next) returns (r: bool)
      requires Valid(next) && at <= |text| && n.kind == Group
      modifies this`steps
      ensures Answers(r, OneThen(text, n, at, next), old(steps), OneCost(text, n, at, next))
      decreases |text| - at, OneWork(n) + NextWork(next, at), 0
    {
      GroupStep(text, n, at, next);
      for i := 0 to |n.alternatives|
        invariant steps <= maxSteps ==>
          ChoiceCost(text, n, 0, at, next) == steps - old(steps) + ChoiceCost(text, n, i, at, next)
        invariant steps > maxSteps ==> old(steps) + ChoiceCost(text, n, 0, at, next) > maxSteps
        invariant steps <= maxSteps ==> forall a :: 0 <= a < i ==> !SequenceThen(text, n.alternatives[a].items, at, next)
      {
        ChoiceWorkAt(n.alternatives, i);
        assert n.alternatives[i].items[0..] == n.alternatives[i].items;
        var matched := MatchSequence(n.alternatives[i].items, 0, at, next);
        if matched {
          return true;
        }
      }
      return false;
    }
  }
}
