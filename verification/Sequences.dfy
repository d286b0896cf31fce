/** Stock facts about the members of sequences. */
module Sequences {
  lemma SameMembers<T>(xs: seq<T>, ys: seq<T>)
    requires multiset(xs) == multiset(ys)
    ensures |xs| == |ys| && forall x :: x in xs <==> x in ys
  {
    assert |multiset(xs)| == |xs| && |multiset(ys)| == |ys|;
    assert forall x :: x in xs <==> x in multiset(xs);
    assert forall x :: x in ys <==> x in multiset(ys);
  }

  lemma SameParts<T>(xs: seq<T>, ys: seq<T>)
    requires xs != [] && ys != [] && xs[0] == ys[0] && xs[1..] == ys[1..]
    ensures xs == ys
  {
    assert xs == [xs[0]] + xs[1..] && ys == [ys[0]] + ys[1..];
  }

  lemma TailCounts<T>(xs: seq<T>)
    requires xs != []
    ensures multiset(xs[1..]) == multiset(xs) - multiset{xs[0]}
  {
    assert xs == [xs[0]] + xs[1..];
  }

  lemma {:induction false} CountedOnce<T>(xs: seq<T>)
    requires forall i, j :: 0 <= i < j < |xs| ==> xs[i] != xs[j]
    ensures forall x :: multiset(xs)[x] == if x in xs then 1 else 0
  {
    if xs == [] {
    } else {
      CountedOnce(xs[1..]);
      assert xs == [xs[0]] + xs[1..];
    }
  }

  /** Without repetitions, members are all there is to count. */
  lemma SameCounts<T>(xs: seq<T>, ys: seq<T>)
    requires forall i, j :: 0 <= i < j < |xs| ==> xs[i] != xs[j]
    requires forall i, j :: 0 <= i < j < |ys| ==> ys[i] != ys[j]
    requires forall x :: x in xs <==> x in ys
    ensures multiset(xs) == multiset(ys)
  {
    CountedOnce(xs);
    CountedOnce(ys);
  }

  lemma CountedTwice<T>(xs: seq<T>, i: nat, j: nat)
    requires i < j < |xs| && xs[i] == xs[j]
    ensures multiset(xs)[xs[i]] >= 2
  {
    assert xs == xs[..i] + [xs[i]] + xs[i + 1..j] + [xs[j]] + xs[j + 1..];
  }
}
