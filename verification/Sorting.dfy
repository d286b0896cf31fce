/** Python's `sorted`, over any strict order: stable, by insertion. */
module Sorting {
  import opened Sequences

  function Insert<T>(x: T, xs: seq<T>, before: (T, T) -> bool): (r: seq<T>)
    ensures multiset(r) == multiset([x]) + multiset(xs)
  {
    if xs == [] || !before(xs[0], x) then [x] + xs
    else
      assert xs == [xs[0]] + xs[1..];
      [xs[0]] + Insert(x, xs[1..], before)
  }

  function Sort<T>(xs: seq<T>, before: (T, T) -> bool): (r: seq<T>)
    ensures multiset(r) == multiset(xs)
  {
    if xs == [] then []
    else
      assert xs == [xs[0]] + xs[1..];
      Insert(xs[0], Sort(xs[1..], before), before)
  }

  /** Nothing stands behind what it should stand before. */
  ghost predicate IsSorted<T>(xs: seq<T>, before: (T, T) -> bool) {
    forall i, j :: 0 <= i < j < |xs| ==> !before(xs[j], xs[i])
  }

  /** A strict weak order. */
  ghost predicate IsOrder<T(!new)>(before: (T, T) -> bool) {
    && (forall a, b :: before(a, b) ==> !before(b, a))
    && (forall a, b, c :: !before(b, a) && !before(c, b) ==> !before(c, a))
  }

  lemma InsertedMembers<T>(x: T, xs: seq<T>, before: (T, T) -> bool)
    ensures forall y :: y in Insert(x, xs, before) <==> y == x || y in xs
  {
    SameMembers(Insert(x, xs, before), [x] + xs);
  }

  lemma SortedMembers<T>(xs: seq<T>, before: (T, T) -> bool)
    ensures |Sort(xs, before)| == |xs| && forall x :: x in Sort(xs, before) <==> x in xs
  {
    SameMembers(Sort(xs, before), xs);
  }

  lemma PrependKeepsSorted<T>(x: T, xs: seq<T>, before: (T, T) -> bool)
    requires IsSorted(xs, before) && forall y :: y in xs ==> !before(y, x)
    ensures IsSorted([x] + xs, before)
  {
  }

  lemma {:induction false} InsertKeepsSorted<T(!new)>(x: T, xs: seq<T>, before: (T, T) -> bool)
    requires IsOrder(before) && IsSorted(xs, before)
    ensures IsSorted(Insert(x, xs, before), before)
  {
    if xs == [] {
    } else if before(xs[0], x) {
      InsertKeepsSorted(x, xs[1..], before);
      InsertedMembers(x, xs[1..], before);
      PrependKeepsSorted(xs[0], Insert(x, xs[1..], before), before);
    } else {
      PrependKeepsSorted(x, xs, before);
    }
  }

  lemma {:induction false} SortIsSorted<T(!new)>(xs: seq<T>, before: (T, T) -> bool)
    requires IsOrder(before)
    ensures IsSorted(Sort(xs, before), before)
  {
    if xs == [] {
    } else {
      SortIsSorted(xs[1..], before);
      InsertKeepsSorted(xs[0], Sort(xs[1..], before), before);
    }
  }

  /** Where the order ties no two different members, sorting leaves no choice. */
  lemma {:induction false} SortedIsUnique<T>(xs: seq<T>, ys: seq<T>, before: (T, T) -> bool)
    requires IsSorted(xs, before) && IsSorted(ys, before) && multiset(xs) == multiset(ys)
    requires forall x, y :: x in xs && y in xs && !before(x, y) && !before(y, x) ==> x == y
    ensures xs == ys
  {
    SameMembers(xs, ys);
    if xs == [] {
    } else {
      assert xs[0] in ys && ys[0] in xs;
      assert !before(ys[0], xs[0]) || xs[0] == ys[0];
      assert !before(xs[0], ys[0]) || xs[0] == ys[0];
      TailCounts(xs);
      TailCounts(ys);
      SortedIsUnique(xs[1..], ys[1..], before);
      SameParts(xs, ys);
    }
  }
}
