/** Which nodes cannot be resolved: missing dependencies and propagation, from glass_ionomer/verify/identity.py. */
module TopologicalOrder {
  import opened DependencyGraph
  import opened CycleSearch

  /** Nodes with a declared dependency that nobody assessed. */
  function MissingDeps(g: Deps, known: set<Id>): set<Id> {
    set c | c in g && exists d :: d in g[c] && d !in known
  }

  /** Nothing outside `u` depends on something inside it. */
  ghost predicate ClosedUpward(g: Deps, u: set<Id>) {
    forall a, b :: Edge(g, a, b) && a !in u ==> b !in u
  }

  ghost predicate AllUnresolved(g: Deps, known: set<Id>, u: set<Id>) {
    forall c :: c in u ==> c in g && Unresolved(g, known, c)
  }

  lemma SeedsAreUnresolved(g: Deps, known: set<Id>, onCycle: set<Id>)
    requires TrulyCyclic(g, onCycle)
    ensures AllUnresolved(g, known, MissingDeps(g, known) + onCycle)
  {
    forall c | c in MissingDeps(g, known) + onCycle
      ensures c in g && Unresolved(g, known, c)
    {
      if c in onCycle {
        ReachesSelf(g, c);
      } else {
        var d :| d in g[c] && d !in known;
        EdgeReaches(g, c, d);
      }
    }
  }

  method Propagate(g: Deps, keys: seq<Id>, known: set<Id>, onCycle: set<Id>) returns (unresolved: set<Id>)
    requires (forall c :: c in keys <==> c in g) && TrulyCyclic(g, onCycle)
    ensures MissingDeps(g, known) + onCycle <= unresolved
    ensures AllUnresolved(g, known, unresolved) && ClosedUpward(g, unresolved)
  {
    unresolved := MissingDeps(g, known) + onCycle;
    SeedsAreUnresolved(g, known, onCycle);
    var changed := true;
    while changed
      invariant MissingDeps(g, known) + onCycle <= unresolved && AllUnresolved(g, known, unresolved)
      invariant !changed ==> ClosedUpward(g, unresolved)
      decreases g.Keys - unresolved, changed
    {
      changed := false;
      ghost var before := unresolved;
      for i := 0 to |keys|
        invariant before <= unresolved && AllUnresolved(g, known, unresolved)
        invariant !changed ==> unresolved == before
        invariant changed ==> before < unresolved
        invariant !changed ==> forall a, b :: a in keys[..i] && Edge(g, a, b) && a !in unresolved ==> b !in unresolved
      {
        var cid := keys[i];
        assert cid in keys && keys[..i + 1] == keys[..i] + [cid];
        if cid !in unresolved {
          if exists d :: d in g[cid] && d in unresolved {
            ghost var d :| d in g[cid] && d in unresolved;
            UnresolvedByEdge(g, known, cid, d);
            unresolved := unresolved + {cid};
            changed := true;
          }
        }
      }
      assert keys[..|keys|] == keys;
      assert changed ==> g.Keys - unresolved < g.Keys - before;
    }
  }

  /**
   The computed set is exactly the nodes that lead to a missing dependency or into a cycle, although the
   search need not have marked every node of a cycle.
  */
  lemma PropagationIsExact(g: Deps, known: set<Id>, onCycle: set<Id>, finish: map<Id, nat>, unresolved: set<Id>)
    requires FallsOffCycles(g, onCycle, finish) && g.Keys <= known
    requires MissingDeps(g, known) + onCycle <= unresolved
    requires AllUnresolved(g, known, unresolved) && ClosedUpward(g, unresolved)
    ensures forall c :: c in g ==> (c in unresolved <==> Unresolved(g, known, c))
  {
    var s := g.Keys - unresolved;
    forall a, b | a in s && InnerEdge(g, a, b)
      ensures b in s && finish[b] < finish[a]
    {
      assert Edge(g, a, b);
    }
    forall c | c in s
      ensures !Unresolved(g, known, c)
    {
      if Unresolved(g, known, c) {
        var x :| Reaches(g, c, x) && (x !in known || OnCycle(g, x));
        var n: nat :| ReachesIn(g, c, x, n);
        if x in g {
          RanksDownwardAlong(g, s, finish, c, x, n);
          RankedIsAcyclic(g, s, finish, x);
        } else {
          OutsideIsMissing(g, known, unresolved, c, x, n);
        }
      }
    }
  }

  lemma {:induction false} OutsideIsMissing(g: Deps, known: set<Id>, unresolved: set<Id>, a: Id, x: Id, n: nat)
    requires g.Keys <= known && MissingDeps(g, known) <= unresolved && ClosedUpward(g, unresolved)
    requires a in g && ReachesIn(g, a, x, n) && x !in known
    ensures a in unresolved
    decreases n
  {
    if n == 0 {
    } else {
      var m :| Edge(g, a, m) && ReachesIn(g, m, x, n - 1);
      if m in g {
        OutsideIsMissing(g, known, unresolved, m, x, n - 1);
      } else {
        assert n - 1 == 0 && m == x;
        assert a in MissingDeps(g, known);
      }
    }
  }
}
