/** Python's order on strings: by code point, shorter first. */
module Lexicographic {
  import opened Sorting

  predicate Less(a: string, b: string) {
    if b == [] then false
    else if a == [] then true
    else if a[0] != b[0] then a[0] < b[0]
    else Less(a[1..], b[1..])
  }

  lemma {:induction false} LessIrreflexive(a: string)
    ensures !Less(a, a)
  {
    if a == [] {
    } else {
      LessIrreflexive(a[1..]);
    }
  }

  lemma {:induction false} LessTransitive(a: string, b: string, c: string)
    requires Less(a, b) && Less(b, c)
    ensures Less(a, c)
  {
    if a != [] && a[0] == b[0] && b[0] == c[0] {
      LessTransitive(a[1..], b[1..], c[1..]);
    }
  }

  lemma {:induction false} LessTotal(a: string, b: string)
    ensures Less(a, b) || a == b || Less(b, a)
  {
    if a != [] && b != [] && a[0] == b[0] {
      LessTotal(a[1..], b[1..]);
      assert a == [a[0]] + a[1..] && b == [b[0]] + b[1..];
    }
  }

  /** Neither of two different strings goes unordered, and the order is strict. */
  lemma LessIsOrder()
    ensures IsOrder(Less)
    ensures forall a, b :: !Less(a, b) && !Less(b, a) ==> a == b
  {
    forall a, b
      ensures Less(a, b) ==> !Less(b, a)
      ensures !Less(a, b) && !Less(b, a) ==> a == b
    {
      LessTotal(a, b);
      LessIrreflexive(a);
      if Less(a, b) && Less(b, a) {
        LessTransitive(a, b, a);
      }
    }
    forall a, b, c | !Less(b, a) && !Less(c, b)
      ensures !Less(c, a)
    {
      LessTotal(a, b);
      LessTotal(b, c);
      if Less(a, b) && Less(b, c) {
        LessTransitive(a, b, c);
      }
    }
  }

  /** `a` comes first where the two part, having a smaller character there or none. */
  predicate PartsBelow(a: string, b: string, k: nat) {
    && k <= |a| && k < |b| && a[..k] == b[..k]
    && (k == |a| || a[k] < b[k])
  }

  lemma FirstAgrees(a: string, b: string, k: nat)
    requires 0 < k <= |a| && k <= |b| && a[..k] == b[..k]
    ensures a[0] == b[0]
  {
    assert a[..k][0] == a[0] && b[..k][0] == b[0];
  }

  /** The order is by the first character in which two strings differ. */
  lemma {:induction false} LessExactly(a: string, b: string)
    ensures Less(a, b) <==> exists k: nat :: PartsBelow(a, b, k)
  {
    if b == [] || a == [] {
      assert a == [] && b != [] ==> PartsBelow(a, b, 0);
    } else if a[0] != b[0] {
      assert a[0] < b[0] ==> PartsBelow(a, b, 0);
      forall k: nat | PartsBelow(a, b, k)
        ensures k == 0
      {
        if k > 0 {
          FirstAgrees(a, b, k);
        }
      }
    } else {
      LessExactly(a[1..], b[1..]);
      if k: nat :| PartsBelow(a[1..], b[1..], k) {
        assert a[..k + 1] == [a[0]] + a[1..][..k] && b[..k + 1] == [b[0]] + b[1..][..k];
        assert PartsBelow(a, b, k + 1);
      }
      if k: nat :| PartsBelow(a, b, k) {
        assert k > 0;
        assert a[1..][..k - 1] == a[..k][1..] && b[1..][..k - 1] == b[..k][1..];
        assert PartsBelow(a[1..], b[1..], k - 1);
      }
    }
  }
}
