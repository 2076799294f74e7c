// A string standing at a position of another.
module Substrings {
  ghost predicate At<T>(whole: seq<T>, p: nat, s: seq<T>) {
    p + |s| <= |whole| && whole[p..p + |s|] == s
  }

  lemma AtBound<T>(whole: seq<T>, p: nat, s: seq<T>)
    requires At(whole, p, s)
    ensures p + |s| <= |whole|
  {
  }

  lemma AtEmpty<T>(whole: seq<T>, p: nat)
    requires p <= |whole|
    ensures At(whole, p, [])
  {
  }

  lemma OneAt<T>(whole: seq<T>, p: nat, x: T)
    requires At(whole, p, [x])
    ensures p < |whole| && whole[p] == x
  {
    assert whole[p..p + 1][0] == x;
  }

  lemma AtConcat<T>(whole: seq<T>, p: nat, a: seq<T>, b: seq<T>)
    ensures At(whole, p, a + b) <==> At(whole, p, a) && At(whole, p + |a|, b)
    ensures At(whole, p, a + b) ==> p + |a| + |b| <= |whole|
  {
    if p + |a| + |b| <= |whole| {
      var part := whole[p..p + |a + b|];
      assert part[..|a|] == whole[p..p + |a|];
      assert part[|a|..] == whole[p + |a|..p + |a| + |b|];
      assert part == part[..|a|] + part[|a|..];
      assert (a + b)[..|a|] == a && (a + b)[|a|..] == b;
    }
  }

  lemma AtConcat3<T>(whole: seq<T>, p: nat, a: seq<T>, b: seq<T>, c: seq<T>)
    ensures At(whole, p, a + b + c) <==> At(whole, p, a) && At(whole, p + |a|, b) && At(whole, p + |a| + |b|, c)
    ensures At(whole, p, a + b + c) ==> p + |a| + |b| + |c| <= |whole|
  {
    hide At;
    AtConcat(whole, p, a + b, c);
    AtConcat(whole, p, a, b);
  }
}
