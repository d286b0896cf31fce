/** Kahn's topological sort over the resolvable nodes, from glass_ionomer/verify/identity.py. */
module KahnQueue {
  import opened DependencyGraph

  /** How often `x` occurs in `s`. */
  function Occurrences(s: seq<Id>, x: Id): nat {
    if s == [] then 0
    else Occurrences(s[..|s| - 1], x) + (if s[|s| - 1] == x then 1 else 0)
  }

  /** How many entries of `ds`, repetitions included, are in `nodes` and not yet done. */
  function Pending(ds: seq<Id>, nodes: set<Id>, done: set<Id>): nat {
    if ds == [] then 0
    else Pending(ds[..|ds| - 1], nodes, done) + (if ds[|ds| - 1] in nodes - done then 1 else 0)
  }

  lemma PrefixStep(s: seq<Id>, x: Id, nodes: set<Id>, done: set<Id>, j: nat)
    requires j < |s|
    ensures Occurrences(s[..j + 1], x) == Occurrences(s[..j], x) + (if s[j] == x then 1 else 0)
    ensures Pending(s[..j + 1], nodes, done) == Pending(s[..j], nodes, done) + (if s[j] in nodes - done then 1 else 0)
  {
    assert s[..j + 1][..j] == s[..j];
  }

  lemma {:induction false} OccurrencesInPrefix(s: seq<Id>, x: Id, j: nat)
    requires j <= |s|
    ensures Occurrences(s[..j], x) <= Occurrences(s, x)
  {
    if j < |s| {
      OccurrencesInPrefix(s[..|s| - 1], x, j);
      assert s[..|s| - 1][..j] == s[..j];
    } else {
      assert s[..j] == s;
    }
  }

  lemma {:induction false} PendingAfter(ds: seq<Id>, nodes: set<Id>, done: set<Id>, x: Id)
    requires x in nodes - done
    ensures Pending(ds, nodes, done) == Pending(ds, nodes, done + {x}) + Occurrences(ds, x)
  {
    if ds == [] {
    } else {
      PendingAfter(ds[..|ds| - 1], nodes, done, x);
    }
  }

  lemma {:induction false} NothingPending(ds: seq<Id>, nodes: set<Id>, done: set<Id>)
    ensures Pending(ds, nodes, done) == 0 <==> forall d :: d in ds && d in nodes ==> d in done
  {
    if ds == [] {
    } else {
      NothingPending(ds[..|ds| - 1], nodes, done);
      assert ds == ds[..|ds| - 1] + [ds[|ds| - 1]];
    }
  }

  predicate Distinct(s: seq<Id>) {
    forall i, j :: 0 <= i < j < |s| ==> s[i] != s[j]
  }

  function Elements(s: seq<Id>): set<Id> {
    set x | x in s
  }

  /** The reversed edges: `children[d]` lists `c` once for each time `c` declares `d`. */
  ghost predicate Reversed(g: Deps, nodes: set<Id>, children: map<Id, seq<Id>>) {
    && children.Keys == nodes && nodes <= g.Keys
    && (forall d, c :: d in nodes && c in children[d] ==> c in nodes)
    && (forall d, c :: d in nodes && c in nodes ==> Occurrences(children[d], c) == Occurrences(g[c], d))
  }

  ghost predicate CountsPending(g: Deps, nodes: set<Id>, done: set<Id>, indegree: map<Id, int>) {
    && indegree.Keys == nodes && nodes <= g.Keys
    && forall c :: c in nodes ==> indegree[c] == Pending(g[c], nodes, done)
  }

  /** Every node comes after all its dependencies among `nodes`. */
  ghost predicate DependenciesFirst(g: Deps, nodes: set<Id>, order: seq<Id>) {
    forall i, d :: 0 <= i < |order| && Edge(g, order[i], d) && d in nodes ==> d in order[..i]
  }

  /** `ranked` dependencies among `nodes` have a falling rank, so `nodes` holds no cycle. */
  ghost predicate Ranked(g: Deps, nodes: set<Id>, rank: map<Id, nat>) {
    && nodes <= g.Keys && nodes <= rank.Keys
    && forall a, b :: a in nodes && b in nodes && Edge(g, a, b) ==> rank[b] < rank[a]
  }

  lemma {:induction false} SomethingIsReady(g: Deps, nodes: set<Id>, rank: map<Id, nat>, done: set<Id>, c: Id)
    requires Ranked(g, nodes, rank) && c in nodes && c !in done
    ensures exists r :: r in nodes && r !in done && Pending(g[r], nodes, done) == 0
    decreases rank[c]
  {
    NothingPending(g[c], nodes, done);
    if Pending(g[c], nodes, done) != 0 {
      var d :| d in g[c] && d in nodes && d !in done;
      assert Edge(g, c, d);
      SomethingIsReady(g, nodes, rank, done, d);
    }
  }

  ghost predicate Lists(nodes: set<Id>, children: map<Id, seq<Id>>) {
    children.Keys == nodes && forall d, c :: d in nodes && c in children[d] ==> c in nodes
  }

  /** `cid` has been appended to the list of each entry of `listed`, once per occurrence. */
  ghost predicate ListedSoFar(nodes: set<Id>, children0: map<Id, seq<Id>>, children: map<Id, seq<Id>>, cid: Id, listed: seq<Id>)
    requires nodes <= children0.Keys && nodes <= children.Keys
  {
    forall d, c :: d in nodes
      ==> Occurrences(children[d], c) == Occurrences(children0[d], c) + (if c == cid then Occurrences(listed, d) else 0)
  }

  lemma ListOnce(nodes: set<Id>, children0: map<Id, seq<Id>>, children: map<Id, seq<Id>>, cid: Id, ds: seq<Id>, j: nat)
    requires nodes <= children0.Keys && nodes <= children.Keys && j < |ds| && ds[j] in nodes
    requires ListedSoFar(nodes, children0, children, cid, ds[..j])
    ensures ListedSoFar(nodes, children0, children[ds[j] := children[ds[j]] + [cid]], cid, ds[..j + 1])
  {
    var dep := ds[j];
    var next := children[dep := children[dep] + [cid]];
    forall d, c | d in nodes
      ensures Occurrences(next[d], c)
              == Occurrences(children0[d], c) + (if c == cid then Occurrences(ds[..j + 1], d) else 0)
    {
      PrefixStep(ds, d, nodes, {}, j);
      if d == dep {
        assert next[d] == children[dep] + [cid];
      } else {
        assert next[d] == children[d];
      }
    }
  }

  lemma ListNothing(nodes: set<Id>, children0: map<Id, seq<Id>>, children: map<Id, seq<Id>>, cid: Id, ds: seq<Id>, j: nat)
    requires nodes <= children0.Keys && nodes <= children.Keys && j < |ds| && ds[j] !in nodes
    requires ListedSoFar(nodes, children0, children, cid, ds[..j])
    ensures ListedSoFar(nodes, children0, children, cid, ds[..j + 1])
  {
    forall d | d in nodes
      ensures Occurrences(ds[..j + 1], d) == Occurrences(ds[..j], d)
    {
      PrefixStep(ds, d, nodes, {}, j);
    }
  }

  /** Counts and lists are complete for the nodes in `counted`, and empty for the others. */
  ghost predicate Counted(g: Deps, nodes: set<Id>, counted: set<Id>, indegree: map<Id, int>, children: map<Id, seq<Id>>) {
    && nodes <= g.Keys && indegree.Keys == nodes && Lists(nodes, children)
    && (forall c :: c in nodes ==> indegree[c] == if c in counted then Pending(g[c], nodes, {}) else 0)
    && (forall d, c :: d in nodes && c in nodes
                       ==> Occurrences(children[d], c) == if c in counted then Occurrences(g[c], d) else 0)
  }

  /** The counts and lists after the dependencies `listed` of `cid`. */
  ghost predicate Tally(nodes: set<Id>, indegree0: map<Id, int>, children0: map<Id, seq<Id>>,
                        indegree: map<Id, int>, children: map<Id, seq<Id>>, cid: Id, listed: seq<Id>)
    requires cid in nodes && indegree0.Keys == nodes && nodes <= children0.Keys
  {
    && indegree == indegree0[cid := indegree0[cid] + Pending(listed, nodes, {})]
    && Lists(nodes, children) && ListedSoFar(nodes, children0, children, cid, listed)
  }

  lemma TallyStep(nodes: set<Id>, indegree0: map<Id, int>, children0: map<Id, seq<Id>>,
                  indegree: map<Id, int>, children: map<Id, seq<Id>>, cid: Id, ds: seq<Id>, j: nat)
    requires cid in nodes && indegree0.Keys == nodes && nodes <= children0.Keys && j < |ds|
    requires Tally(nodes, indegree0, children0, indegree, children, cid, ds[..j])
    ensures indegree.Keys == nodes
    ensures ds[j] in nodes ==>
              Tally(nodes, indegree0, children0, indegree[cid := indegree[cid] + 1],
                    children[ds[j] := children[ds[j]] + [cid]], cid, ds[..j + 1])
    ensures ds[j] !in nodes ==> Tally(nodes, indegree0, children0, indegree, children, cid, ds[..j + 1])
  {
    PrefixStep(ds, ds[j], nodes, {}, j);
    if ds[j] in nodes {
      ListOnce(nodes, children0, children, cid, ds, j);
    } else {
      ListNothing(nodes, children0, children, cid, ds, j);
    }
  }

  /** Counts the dependencies of one node and lists it under each of them. */
  method CountNode(g: Deps, nodes: set<Id>, ghost counted: set<Id>, cid: Id,
                   indegree0: map<Id, int>, children0: map<Id, seq<Id>>)
    returns (indegree: map<Id, int>, children: map<Id, seq<Id>>)
    requires Counted(g, nodes, counted, indegree0, children0) && cid in nodes && cid !in counted
    ensures Counted(g, nodes, counted + {cid}, indegree, children)
  {
    indegree, children := indegree0, children0;
    var ds := g[cid];
    assert ds[..0] == [];
    for j := 0 to |ds|
      invariant Tally(nodes, indegree0, children0, indegree, children, cid, ds[..j])
    {
      var dep := ds[j];
      TallyStep(nodes, indegree0, children0, indegree, children, cid, ds, j);
      if dep in indegree {
        indegree := indegree[cid := indegree[cid] + 1];
        children := children[dep := children[dep] + [cid]];
      }
    }
    assert ds[..|ds|] == ds;
  }

  lemma PrefixElements(s: seq<Id>, i: nat)
    requires Distinct(s) && i < |s|
    ensures s[i] in Elements(s) && s[i] !in Elements(s[..i])
    ensures Elements(s[..i + 1]) == Elements(s[..i]) + {s[i]}
  {
    assert s[..i + 1] == s[..i] + [s[i]];
  }

  lemma NothingCounted(g: Deps, nodes: set<Id>, indegree: map<Id, int>, children: map<Id, seq<Id>>)
    requires nodes <= g.Keys && indegree.Keys == nodes == children.Keys
    requires forall c :: c in nodes ==> indegree[c] == 0 && children[c] == []
    ensures Counted(g, nodes, {}, indegree, children)
  {
  }

  /** The counting loops that precede the queue. */
  method CountIndegrees(g: Deps, resolvable: seq<Id>)
    returns (indegree: map<Id, int>, children: map<Id, seq<Id>>)
    requires Distinct(resolvable) && Elements(resolvable) <= g.Keys
    ensures CountsPending(g, Elements(resolvable), {}, indegree)
    ensures Reversed(g, Elements(resolvable), children)
  {
    var nodes := Elements(resolvable);
    indegree := map c | c in nodes :: 0;
    children := map c | c in nodes :: [];
    ghost var counted := {};
    NothingCounted(g, nodes, indegree, children);
    assert resolvable[..0] == [];
    for i := 0 to |resolvable|
      invariant counted == Elements(resolvable[..i]) && Counted(g, nodes, counted, indegree, children)
    {
      PrefixElements(resolvable, i);
      indegree, children := CountNode(g, nodes, counted, resolvable[i], indegree, children);
      counted := counted + {resolvable[i]};
    }
    assert resolvable[..|resolvable|] == resolvable;
  }

  /** What holds of the queue between two dequeues. */
  ghost predicate QueueInv(g: Deps, nodes: set<Id>, order: seq<Id>, queue: seq<Id>, indegree: map<Id, int>) {
    && CountsPending(g, nodes, Elements(order), indegree)
    && Distinct(order + queue)
    && (forall c :: c in order + queue <==> c in nodes && indegree[c] == 0)
  }

  lemma HeadIsNew(g: Deps, nodes: set<Id>, order: seq<Id>, queue: seq<Id>, indegree: map<Id, int>)
    requires QueueInv(g, nodes, order, queue, indegree) && queue != []
    ensures queue[0] in nodes && queue[0] !in order && indegree[queue[0]] == 0
  {
    assert (order + queue)[|order|] == queue[0];
    assert queue[0] in order + queue;
    assert forall i :: 0 <= i < |order| ==> (order + queue)[i] == order[i];
  }

  /** What holds after `cid`, which depends on nothing still pending, has released its first `j` children. */
  ghost predicate Releasing(g: Deps, nodes: set<Id>, done: set<Id>, released: seq<Id>, j: nat,
                            enqueued: seq<Id>, indegree: map<Id, int>)
    requires j <= |released| && nodes <= g.Keys
  {
    && indegree.Keys == nodes
    && (forall c :: c in nodes ==> indegree[c] == Pending(g[c], nodes, done) - Occurrences(released[..j], c))
    && Distinct(enqueued)
    && (forall c :: c in enqueued <==> c in nodes && indegree[c] == 0)
  }

  lemma ReleasingOneMore(g: Deps, nodes: set<Id>, children: map<Id, seq<Id>>, cid: Id, done: set<Id>, j: nat,
                         enqueued: seq<Id>, indegree: map<Id, int>)
    requires Reversed(g, nodes, children) && cid in nodes && cid !in done && j < |children[cid]|
    requires Releasing(g, nodes, done, children[cid], j, enqueued, indegree)
    ensures var child := children[cid][j];
            && child in nodes
            && var left := indegree[child] - 1;
               Releasing(g, nodes, done, children[cid], j + 1, Enqueue(enqueued, child, left), indegree[child := left])
  {
    ReleaseStep(g, nodes, children, cid, done, j);
  }

  function Enqueue(queue: seq<Id>, child: Id, left: int): seq<Id> {
    if left == 0 then queue + [child] else queue
  }

  lemma EnqueueAfter(ordered: seq<Id>, queue: seq<Id>, child: Id, left: int)
    ensures Enqueue(ordered + queue, child, left) == ordered + Enqueue(queue, child, left)
  {
  }

  method ReleaseChild(g: Deps, ghost nodes: set<Id>, ghost children: map<Id, seq<Id>>, ghost cid: Id, child: Id,
                      ghost done: set<Id>, ghost j: nat, ghost ordered: seq<Id>, queue0: seq<Id>, indegree0: map<Id, int>)
    returns (queue: seq<Id>, indegree: map<Id, int>)
    requires Reversed(g, nodes, children) && cid in nodes && cid !in done && j < |children[cid]|
    requires child == children[cid][j]
    requires Releasing(g, nodes, done, children[cid], j, ordered + queue0, indegree0)
    ensures Releasing(g, nodes, done, children[cid], j + 1, ordered + queue, indegree)
  {
    ReleasingOneMore(g, nodes, children, cid, done, j, ordered + queue0, indegree0);
    EnqueueAfter(ordered, queue0, child, indegree0[child] - 1);
    indegree := indegree0[child := indegree0[child] - 1];
    queue := Enqueue(queue0, child, indegree[child]);
  }

  /** Releases the children of `cid`, which has just been dequeued and ordered. */
  method Release(g: Deps, nodes: set<Id>, children: map<Id, seq<Id>>, cid: Id,
                 ghost order: seq<Id>, queue0: seq<Id>, indegree0: map<Id, int>)
    returns (queue: seq<Id>, indegree: map<Id, int>)
    requires Reversed(g, nodes, children)
    requires QueueInv(g, nodes, order, [cid] + queue0, indegree0)
    ensures QueueInv(g, nodes, order + [cid], queue, indegree)
  {
    queue, indegree := queue0, indegree0;
    var released := children[cid];
    ghost var done, ordered := Elements(order), order + [cid];
    StartRelease(g, nodes, released, cid, order, queue0, indegree0);
    for j := 0 to |released|
      invariant Releasing(g, nodes, done, released, j, ordered + queue, indegree)
    {
      queue, indegree := ReleaseChild(g, nodes, children, cid, released[j], done, j, ordered, queue, indegree);
    }
    FinishRelease(g, nodes, children, cid, order, queue, indegree);
  }

  lemma FinishRelease(g: Deps, nodes: set<Id>, children: map<Id, seq<Id>>, cid: Id, order: seq<Id>,
                      queue: seq<Id>, indegree: map<Id, int>)
    requires Reversed(g, nodes, children) && cid in nodes && cid !in order
    requires Releasing(g, nodes, Elements(order), children[cid], |children[cid]|, order + [cid] + queue, indegree)
    ensures QueueInv(g, nodes, order + [cid], queue, indegree)
  {
    ReleaseDone(g, nodes, children, cid, order);
  }

  lemma StartRelease(g: Deps, nodes: set<Id>, released: seq<Id>, cid: Id, order: seq<Id>, queue: seq<Id>, indegree: map<Id, int>)
    requires QueueInv(g, nodes, order, [cid] + queue, indegree)
    ensures cid in nodes && cid !in order
    ensures Releasing(g, nodes, Elements(order), released, 0, order + [cid] + queue, indegree)
  {
    HeadIsNew(g, nodes, order, [cid] + queue, indegree);
    assert released[..0] == [] && order + ([cid] + queue) == order + [cid] + queue;
  }

  lemma ReleaseStep(g: Deps, nodes: set<Id>, children: map<Id, seq<Id>>, cid: Id, done: set<Id>, j: nat)
    requires Reversed(g, nodes, children) && cid in nodes && cid !in done && j < |children[cid]|
    ensures var child := children[cid][j];
            && child in nodes
            && Pending(g[child], nodes, done) > Occurrences(children[cid][..j], child)
            && forall c :: Occurrences(children[cid][..j + 1], c)
                           == Occurrences(children[cid][..j], c) + (if child == c then 1 else 0)
  {
    var released := children[cid];
    var child := released[j];
    assert child in released;
    forall c
      ensures Occurrences(released[..j + 1], c) == Occurrences(released[..j], c) + (if child == c then 1 else 0)
    {
      PrefixStep(released, c, nodes, done, j);
    }
    OccurrencesInPrefix(released, child, j + 1);
    PendingAfter(g[child], nodes, done, cid);
  }

  lemma ReleaseDone(g: Deps, nodes: set<Id>, children: map<Id, seq<Id>>, cid: Id, order: seq<Id>)
    requires Reversed(g, nodes, children) && cid in nodes && cid !in order
    ensures children[cid][..|children[cid]|] == children[cid]
    ensures forall c :: c in nodes
              ==> Pending(g[c], nodes, Elements(order + [cid]))
                  == Pending(g[c], nodes, Elements(order)) - Occurrences(children[cid], c)
  {
    assert Elements(order + [cid]) == Elements(order) + {cid};
    forall c | c in nodes
      ensures Pending(g[c], nodes, Elements(order + [cid]))
              == Pending(g[c], nodes, Elements(order)) - Occurrences(children[cid], c)
    {
      PendingAfter(g[c], nodes, Elements(order), cid);
    }
  }

  /** The nodes that depend on nothing pending, in order. */
  method ReadyNodes(resolvable: seq<Id>, indegree: map<Id, int>) returns (queue: seq<Id>)
    requires Distinct(resolvable) && indegree.Keys == Elements(resolvable)
    ensures Distinct(queue) && forall c :: c in queue <==> c in resolvable && indegree[c] == 0
  {
    queue := [];
    for i := 0 to |resolvable|
      invariant Distinct(queue) && forall c :: c in queue <==> c in resolvable[..i] && indegree[c] == 0
    {
      PrefixElements(resolvable, i);
      assert resolvable[..i + 1] == resolvable[..i] + [resolvable[i]];
      if indegree[resolvable[i]] == 0 {
        queue := queue + [resolvable[i]];
      }
    }
    assert resolvable[..|resolvable|] == resolvable;
  }

  lemma StartQueue(g: Deps, nodes: set<Id>, queue: seq<Id>, indegree: map<Id, int>)
    requires CountsPending(g, nodes, {}, indegree) && Distinct(queue)
    requires forall c :: c in queue <==> c in nodes && indegree[c] == 0
    ensures QueueInv(g, nodes, [], queue, indegree)
  {
    assert [] + queue == queue && Elements([]) == {};
  }

  lemma NothingLeft(g: Deps, nodes: set<Id>, rank: map<Id, nat>, order: seq<Id>, indegree: map<Id, int>)
    requires QueueInv(g, nodes, order, [], indegree) && Ranked(g, nodes, rank)
    ensures Distinct(order) && Elements(order) == nodes
  {
    assert order + [] == order;
    if c :| c in nodes && c !in order {
      SomethingIsReady(g, nodes, rank, Elements(order), c);
    }
  }

  /** Every resolvable node is ordered exactly once, after all its dependencies. */
  method Kahn(g: Deps, resolvable: seq<Id>, ghost rank: map<Id, nat>) returns (order: seq<Id>)
    requires Distinct(resolvable) && Ranked(g, Elements(resolvable), rank)
    ensures Distinct(order) && Elements(order) == Elements(resolvable)
    ensures DependenciesFirst(g, Elements(resolvable), order)
  {
    var nodes := Elements(resolvable);
    var indegree, children := CountIndegrees(g, resolvable);
    var queue := ReadyNodes(resolvable, indegree);
    order := [];
    StartQueue(g, nodes, queue, indegree);
    while queue != []
      invariant QueueInv(g, nodes, order, queue, indegree)
      invariant DependenciesFirst(g, nodes, order)
      decreases nodes - Elements(order)
    {
      var cid := queue[0];
      assert queue == [cid] + queue[1..];
      Dequeued(g, nodes, order, queue, indegree);
      queue, indegree := Release(g, nodes, children, cid, order, queue[1..], indegree);
      order := order + [cid];
    }
    NothingLeft(g, nodes, rank, order, indegree);
  }

  lemma Dequeued(g: Deps, nodes: set<Id>, order: seq<Id>, queue: seq<Id>, indegree: map<Id, int>)
    requires QueueInv(g, nodes, order, queue, indegree) && DependenciesFirst(g, nodes, order) && queue != []
    ensures DependenciesFirst(g, nodes, order + [queue[0]])
    ensures nodes - Elements(order + [queue[0]]) < nodes - Elements(order)
  {
    var cid := queue[0];
    HeadIsNew(g, nodes, order, queue, indegree);
    NothingPending(g[cid], nodes, Elements(order));
    var order' := order + [cid];
    forall i, d | 0 <= i < |order'| && Edge(g, order'[i], d) && d in nodes
      ensures d in order'[..i]
    {
      if i < |order| {
        assert order'[..i] == order[..i];
      } else {
        assert order'[..i] == order;
      }
    }
    assert Elements(order') == Elements(order) + {cid};
  }
}
