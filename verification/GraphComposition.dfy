/** Composition of a whole dependency graph: `compose_graph` of glass_ionomer/verify/identity.py. */
module GraphComposition {
  import opened Status
  import opened DependencyGraph
  import opened CycleSearch
  import opened TopologicalOrder
  import opened KahnQueue
  import opened ClosureSpec

  datatype Entry = Entry(text: string, decision: StatusDecision)

  datatype PremiseNode = PremiseNode(premiseId: Id, dependsOn: seq<Id>)

  type Index = map<Id, nat>

  /** `m` sends each claim id to the last entry that carries it. */
  ghost predicate IsIndex(v: seq<Entry>, m: Index) {
    && (forall c :: c in m ==> m[c] < |v| && v[m[c]].decision.claimId == c)
    && (forall i :: 0 <= i < |v| ==> v[i].decision.claimId in m && i <= m[v[i].decision.claimId])
  }

  /** Where each claim id's decision is found; with repeated ids the last entry wins. */
  function IndexOf(v: seq<Entry>): (m: Index)
    ensures IsIndex(v, m)
  {
    if v == [] then map[]
    else
      assert v == v[..|v| - 1] + [v[|v| - 1]];
      IndexOf(v[..|v| - 1])[v[|v| - 1].decision.claimId := |v| - 1]
  }

  /** The decisions that `m` points at. */
  function InputsAt(v: seq<Entry>, m: Index): (inputs: Inputs)
    requires forall c :: c in m ==> m[c] < |v|
    ensures inputs.Keys == m.Keys
  {
    map c | c in m :: v[m[c]].decision
  }

  function InputsOf(v: seq<Entry>): Inputs {
    InputsAt(v, IndexOf(v))
  }

  /** Dependencies of the premise nodes that have a verification; with repeated ids the last node wins. */
  function DepsOf(graph: seq<PremiseNode>, known: set<Id>): (g: Deps)
    ensures g.Keys <= known
  {
    if graph == [] then map[]
    else
      var node := graph[|graph| - 1];
      var g := DepsOf(graph[..|graph| - 1], known);
      if node.premiseId in known then g[node.premiseId := node.dependsOn] else g
  }

  /** The keys of `DepsOf` in the order a Python dictionary keeps them. */
  function KeysOf(graph: seq<PremiseNode>, known: set<Id>): (keys: seq<Id>)
    ensures Distinct(keys) && forall c :: c in keys <==> c in DepsOf(graph, known)
  {
    if graph == [] then []
    else
      var node := graph[|graph| - 1];
      var keys := KeysOf(graph[..|graph| - 1], known);
      if node.premiseId in known && node.premiseId !in keys then keys + [node.premiseId] else keys
  }

  /** Keys that are not in `u`, in order. */
  function Without(keys: seq<Id>, u: set<Id>): (r: seq<Id>)
    requires Distinct(keys)
    ensures Distinct(r) && forall c :: c in r <==> c in keys && c !in u
  {
    if keys == [] then []
    else
      var r := Without(keys[..|keys| - 1], u);
      if keys[|keys| - 1] in u then r else r + [keys[|keys| - 1]]
  }

  /** Every entry keeps its place and text; the entry that speaks for a claim gets the claim's outcome. */
  ghost predicate ResultAt(v: seq<Entry>, m: Index, g: Deps, now: int, out: seq<Entry>)
    requires IsIndex(v, m)
  {
    && |out| == |v|
    && forall i :: 0 <= i < |v| ==>
         var c := v[i].decision.claimId;
         && out[i].text == v[i].text
         && if m[c] == i then Outcome(InputsAt(v, m), g, now, c, out[i].decision) else out[i] == v[i]
  }

  /** What `compose_graph` should return. */
  ghost predicate IsResult(v: seq<Entry>, g: Deps, now: int, out: seq<Entry>) {
    ResultAt(v, IndexOf(v), g, now, out)
  }

  /** Entries keep their text and claim id; entries shadowed by a later one keep everything. */
  ghost predicate SamePlaces(v: seq<Entry>, m: Index, out: seq<Entry>)
    requires IsIndex(v, m)
  {
    && |out| == |v|
    && forall i :: 0 <= i < |v| ==>
         && out[i].text == v[i].text
         && (m[v[i].decision.claimId] != i ==> out[i] == v[i])
  }

  /** Claims in `done` are composed; the others have not been touched. */
  ghost predicate Progress(inputs: Inputs, g: Deps, now: int, done: set<Id>, current: Inputs)
    requires done <= g.Keys <= inputs.Keys
  {
    && current.Keys == inputs.Keys
    && forall c :: c in inputs ==>
         if c in done then Composed(inputs, g, now, c, current[c]) else current[c] == inputs[c]
  }

  function PremiseDecisions(current: Inputs, ds: seq<Id>): (ps: seq<StatusDecision>)
    requires forall d :: d in ds ==> d in current
    ensures |ps| == |ds| && forall j :: 0 <= j < |ds| ==> ps[j] == current[ds[j]]
  {
    seq(|ds|, j requires 0 <= j < |ds| => current[ds[j]])
  }

  lemma PremiseSummarises(inputs: Inputs, g: Deps, now: int, done: set<Id>, current: Inputs, d: Id)
    requires done <= g.Keys <= inputs.Keys && Progress(inputs, g, now, done, current)
    requires d in inputs && (d in g ==> d in done)
    ensures Summarises(inputs, now, Closure(inputs, g, d), current[d])
  {
    if d !in g {
      LoneClosure(inputs, g, now, d);
    }
  }

  lemma NodeComposes(inputs: Inputs, g: Deps, now: int, done: set<Id>, current: Inputs, c: Id)
    requires done <= g.Keys <= inputs.Keys && Progress(inputs, g, now, done, current) && c in g
    requires forall d :: d in g[c] ==> d in inputs && (d in g ==> d in done)
    ensures Composed(inputs, g, now, c, Compose(inputs[c], PremiseDecisions(current, g[c]), now))
  {
    var ps := PremiseDecisions(current, g[c]);
    forall j | 0 <= j < |ps|
      ensures Summarises(inputs, now, Closure(inputs, g, g[c][j]), ps[j])
    {
      assert g[c][j] in g[c];
      PremiseSummarises(inputs, g, now, done, current, g[c][j]);
    }
    ComposeStep(inputs, g, now, c, ps);
  }

  lemma OneMoreComposed(inputs: Inputs, g: Deps, now: int, done: set<Id>, current: Inputs, c: Id, d: StatusDecision)
    requires done <= g.Keys <= inputs.Keys && Progress(inputs, g, now, done, current)
    requires c in g && Composed(inputs, g, now, c, d)
    ensures Progress(inputs, g, now, done + {c}, current[c := d])
  {
  }

  lemma ProgressStep(inputs: Inputs, g: Deps, now: int, done: set<Id>, current: Inputs, c: Id)
    requires done <= g.Keys <= inputs.Keys && Progress(inputs, g, now, done, current)
    requires c in g && c !in done
    requires forall d :: d in g[c] ==> d in inputs && (d in g ==> d in done)
    ensures current[c] == inputs[c]
    ensures Progress(inputs, g, now, done + {c},
                     current[c := Compose(current[c], PremiseDecisions(current, g[c]), now)])
  {
    NodeComposes(inputs, g, now, done, current, c);
    OneMoreComposed(inputs, g, now, done, current, c, Compose(inputs[c], PremiseDecisions(current, g[c]), now));
  }

  /** Replaces the decision of one claim. */
  method SetDecision(ghost v: seq<Entry>, m: Index, out: seq<Entry>, c: Id, d: StatusDecision) returns (r: seq<Entry>)
    requires IsIndex(v, m) && SamePlaces(v, m, out) && c in m && d.claimId == c
    ensures SamePlaces(v, m, r) && InputsAt(r, m) == InputsAt(out, m)[c := d]
  {
    r := out[m[c] := Entry(out[m[c]].text, d)];
  }

  /** All dependencies of the ordered nodes are assessed, and those with a premise node are ordered too. */
  ghost predicate Grounded(g: Deps, known: set<Id>, nodes: set<Id>) {
    forall c, d :: c in nodes && Edge(g, c, d) ==> d in known && (d in g ==> d in nodes)
  }

  /** Step 4 of the source: composes in topological order, each conclusion over composed premises. */
  method ComposeInOrder(v: seq<Entry>, byClaimId: Index, g: Deps, order: seq<Id>, now: int) returns (out: seq<Entry>)
    requires IsIndex(v, byClaimId) && Distinct(order) && Elements(order) <= g.Keys <= byClaimId.Keys
    requires DependenciesFirst(g, Elements(order), order) && Grounded(g, byClaimId.Keys, Elements(order))
    ensures SamePlaces(v, byClaimId, out)
    ensures Progress(InputsAt(v, byClaimId), g, now, Elements(order), InputsAt(out, byClaimId))
  {
    ghost var inputs, done := InputsAt(v, byClaimId), {};
    out := v;
    for i := 0 to |order|
      invariant SamePlaces(v, byClaimId, out) && done == Elements(order[..i]) && done <= g.Keys
      invariant Progress(inputs, g, now, done, InputsAt(out, byClaimId))
    {
      var cid := order[i];
      PrefixElements(order, i);
      DependenciesDone(g, order, byClaimId.Keys, i);
      var current := InputsAt(out, byClaimId);
      ProgressStep(inputs, g, now, done, current, cid);
      out := SetDecision(v, byClaimId, out, cid, Compose(current[cid], PremiseDecisions(current, g[cid]), now));
      done := done + {cid};
    }
    assert order[..|order|] == order;
  }

  lemma DependenciesDone(g: Deps, order: seq<Id>, known: set<Id>, i: nat)
    requires i < |order| && DependenciesFirst(g, Elements(order), order) && Elements(order) <= g.Keys
    requires Grounded(g, known, Elements(order))
    ensures forall d :: d in g[order[i]] ==> d in known && (d in g ==> d in Elements(order[..i]))
  {
    var c := order[i];
    assert c in Elements(order);
    forall d | d in g[c]
      ensures d in known && (d in g ==> d in Elements(order[..i]))
    {
      assert Edge(g, c, d);
    }
  }

  /** Claims in `rest` still await their downgrade; every other claim has its outcome. */
  ghost predicate Remaining(inputs: Inputs, g: Deps, now: int, rest: set<Id>, current: Inputs) {
    && current.Keys == inputs.Keys
    && forall c :: c in inputs ==>
         if c in rest then current[c] == inputs[c] else Outcome(inputs, g, now, c, current[c])
  }

  method DowngradeOne(ghost v: seq<Entry>, byClaimId: Index, ghost g: Deps, ghost rest: set<Id>, now: int, out0: seq<Entry>, cid: Id)
    returns (out: seq<Entry>)
    requires IsIndex(v, byClaimId) && SamePlaces(v, byClaimId, out0)
    requires cid in rest && cid in g && cid in byClaimId && Unresolved(g, byClaimId.Keys, cid)
    requires Remaining(InputsAt(v, byClaimId), g, now, rest, InputsAt(out0, byClaimId))
    ensures SamePlaces(v, byClaimId, out)
    ensures Remaining(InputsAt(v, byClaimId), g, now, rest - {cid}, InputsAt(out, byClaimId))
  {
    var current := InputsAt(out0, byClaimId);
    out := SetDecision(v, byClaimId, out0, cid, Downgrade(current[cid], now));
  }

  /** Step 5 of the source, in whatever order: its downgrades do not read one another. */
  method DowngradeUnresolved(ghost v: seq<Entry>, byClaimId: Index, ghost g: Deps, unresolved: set<Id>, now: int, out0: seq<Entry>)
    returns (out: seq<Entry>)
    requires IsIndex(v, byClaimId) && SamePlaces(v, byClaimId, out0) && unresolved <= g.Keys <= byClaimId.Keys
    requires forall c :: c in unresolved ==> Unresolved(g, byClaimId.Keys, c)
    requires Remaining(InputsAt(v, byClaimId), g, now, unresolved, InputsAt(out0, byClaimId))
    ensures SamePlaces(v, byClaimId, out)
    ensures Remaining(InputsAt(v, byClaimId), g, now, {}, InputsAt(out, byClaimId))
  {
    ghost var inputs := InputsAt(v, byClaimId);
    var rest := unresolved;
    out := out0;
    while rest != {}
      invariant SamePlaces(v, byClaimId, out) && rest <= unresolved
      invariant Remaining(inputs, g, now, rest, InputsAt(out, byClaimId))
      decreases rest
    {
      var cid :| cid in rest;
      out := DowngradeOne(v, byClaimId, g, rest, now, out, cid);
      rest := rest - {cid};
    }
  }

  /** The whole program: the outcome of every claim is the declarative one. */
  method ComposeGraph(v: seq<Entry>, graph: seq<PremiseNode>, now: int) returns (out: seq<Entry>)
    ensures IsResult(v, DepsOf(graph, InputsOf(v).Keys), now, out)
  {
    var byClaimId := IndexOf(v);
    var known := byClaimId.Keys;
    var g, keys := DepsOf(graph, known), KeysOf(graph, known);
    var onCycle, finish := FindCycles(g, keys);
    var unresolved := Propagate(g, keys, known, onCycle);
    PropagationIsExact(g, known, onCycle, finish, unresolved);
    var resolvable := Without(keys, unresolved);
    ResolvableIsGrounded(g, known, onCycle, unresolved, finish, resolvable);
    var order := Kahn(g, resolvable, finish);
    out := ComposeInOrder(v, byClaimId, g, order, now);
    assert unresolved * g.Keys == unresolved;
    out := DowngradeUnresolved(v, byClaimId, g, unresolved, now, out);
  }

  lemma ResolvableIsGrounded(g: Deps, known: set<Id>, onCycle: set<Id>, unresolved: set<Id>, finish: map<Id, nat>, resolvable: seq<Id>)
    requires FallsOffCycles(g, onCycle, finish) && MissingDeps(g, known) + onCycle <= unresolved
    requires ClosedUpward(g, unresolved)
    requires forall c :: c in resolvable <==> c in g && c !in unresolved
    ensures Ranked(g, Elements(resolvable), finish) && Grounded(g, known, Elements(resolvable))
  {
    forall c, d | c in Elements(resolvable) && Edge(g, c, d)
      ensures d in known && (d in g ==> d in Elements(resolvable))
      ensures d in g ==> finish[d] < finish[c]
    {
      assert c !in MissingDeps(g, known);
      assert d in g ==> InnerEdge(g, c, d);
    }
  }
}
