/** The declared-dependency graph of glass_ionomer/verify/identity.py, and reachability in it. */
module DependencyGraph {
  type Id = string

  /** Declared dependencies, in order and with repetitions, of every premise node that has a verification. */
  type Deps = map<Id, seq<Id>>

  predicate Edge(g: Deps, a: Id, b: Id) {
    a in g && b in g[a]
  }

  /** A dependency on something that is itself a node of the graph. */
  predicate InnerEdge(g: Deps, a: Id, b: Id) {
    Edge(g, a, b) && b in g
  }

  ghost predicate ReachesIn(g: Deps, a: Id, b: Id, n: nat)
    decreases n
  {
    if n == 0 then a == b else exists m :: Edge(g, a, m) && ReachesIn(g, m, b, n - 1)
  }

  /** `b` is in the reflexive-transitive dependency closure of `a`. */
  ghost predicate Reaches(g: Deps, a: Id, b: Id) {
    exists n: nat :: ReachesIn(g, a, b, n)
  }

  /** `b` is in the transitive dependency closure of `a`. */
  ghost predicate Below(g: Deps, a: Id, b: Id) {
    exists m :: Edge(g, a, m) && Reaches(g, m, b)
  }

  ghost predicate OnCycle(g: Deps, a: Id) {
    Below(g, a, a)
  }

  /** `a` leads to an id nobody assessed, or into a dependency cycle. */
  ghost predicate Unresolved(g: Deps, known: set<Id>, a: Id) {
    exists x :: Reaches(g, a, x) && (x !in known || OnCycle(g, x))
  }

  lemma ReachesSelf(g: Deps, a: Id)
    ensures Reaches(g, a, a)
  {
    assert ReachesIn(g, a, a, 0);
  }

  lemma ReachesByEdge(g: Deps, a: Id, m: Id, b: Id)
    requires Edge(g, a, m) && Reaches(g, m, b)
    ensures Reaches(g, a, b)
  {
    var n: nat :| ReachesIn(g, m, b, n);
    assert ReachesIn(g, a, b, n + 1);
  }

  lemma EdgeReaches(g: Deps, a: Id, b: Id)
    requires Edge(g, a, b)
    ensures Reaches(g, a, b)
  {
    ReachesSelf(g, b);
    ReachesByEdge(g, a, b, b);
  }

  /** The closure of a node is the node and the closures of its dependencies. */
  lemma ReachesUnfolds(g: Deps, a: Id, b: Id)
    ensures Reaches(g, a, b) <==> a == b || Below(g, a, b)
  {
    if Reaches(g, a, b) && a != b {
      var n: nat :| ReachesIn(g, a, b, n);
      var m :| Edge(g, a, m) && ReachesIn(g, m, b, n - 1);
      assert Reaches(g, m, b);
    }
    if a == b {
      ReachesSelf(g, a);
    }
    if Below(g, a, b) {
      var m :| Edge(g, a, m) && Reaches(g, m, b);
      ReachesByEdge(g, a, m, b);
    }
  }

  lemma {:induction false} ReachesInTrans(g: Deps, a: Id, b: Id, c: Id, n: nat)
    requires ReachesIn(g, a, b, n) && Reaches(g, b, c)
    ensures Reaches(g, a, c)
    decreases n
  {
    if n == 0 {
    } else {
      var m :| Edge(g, a, m) && ReachesIn(g, m, b, n - 1);
      ReachesInTrans(g, m, b, c, n - 1);
      ReachesByEdge(g, a, m, c);
    }
  }

  lemma ReachesTrans(g: Deps, a: Id, b: Id, c: Id)
    requires Reaches(g, a, b) && Reaches(g, b, c)
    ensures Reaches(g, a, c)
  {
    var n: nat :| ReachesIn(g, a, b, n);
    ReachesInTrans(g, a, b, c, n);
  }

  lemma UnresolvedByEdge(g: Deps, known: set<Id>, a: Id, b: Id)
    requires Edge(g, a, b) && Unresolved(g, known, b)
    ensures Unresolved(g, known, a)
  {
    var x :| Reaches(g, b, x) && (x !in known || OnCycle(g, x));
    ReachesByEdge(g, a, b, x);
  }

  lemma ResolvedReachesKnown(g: Deps, known: set<Id>, a: Id, x: Id)
    requires !Unresolved(g, known, a) && Reaches(g, a, x)
    ensures x in known && !OnCycle(g, x) && !Unresolved(g, known, x)
  {
    if Unresolved(g, known, x) {
      var y :| Reaches(g, x, y) && (y !in known || OnCycle(g, y));
      ReachesTrans(g, a, x, y);
    }
  }

  /** `s` behaves as if closed: whatever leaves it is not a node or stays in it, and the rank falls. */
  ghost predicate RanksDownward(g: Deps, s: set<Id>, rank: map<Id, nat>) {
    && s <= g.Keys && s <= rank.Keys
    && forall a, b :: a in s && InnerEdge(g, a, b) ==> b in s && rank[b] < rank[a]
  }

  lemma {:induction false} RanksDownwardAlong(g: Deps, s: set<Id>, rank: map<Id, nat>, a: Id, b: Id, n: nat)
    requires RanksDownward(g, s, rank) && a in s && b in g && ReachesIn(g, a, b, n)
    ensures b in s && (n > 0 ==> rank[b] < rank[a])
    decreases n
  {
    if n == 0 {
    } else {
      var m :| Edge(g, a, m) && ReachesIn(g, m, b, n - 1);
      if n - 1 > 0 {
        assert m in g by {
          var k :| Edge(g, m, k) && ReachesIn(g, k, b, n - 2);
        }
      }
      RanksDownwardAlong(g, s, rank, m, b, n - 1);
    }
  }

  /** A falling rank excludes cycles. */
  lemma RankedIsAcyclic(g: Deps, s: set<Id>, rank: map<Id, nat>, a: Id)
    requires RanksDownward(g, s, rank) && a in s
    ensures !OnCycle(g, a)
  {
    if OnCycle(g, a) {
      var m :| Edge(g, a, m) && Reaches(g, m, a);
      var n: nat :| ReachesIn(g, m, a, n);
      assert ReachesIn(g, a, a, n + 1);
      RanksDownwardAlong(g, s, rank, a, a, n + 1);
    }
  }
}
