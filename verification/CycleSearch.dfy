/** Cycle detection: the iterative three-colour depth-first search of glass_ionomer/verify/identity.py. */
module CycleSearch {
  import opened DependencyGraph

  datatype Colour = White | Grey | Black

  type Colouring = map<Id, Colour>

  /** A node on the search stack, with what its iterator has yet to yield. */
  datatype Frame = Frame(node: Id, rest: seq<Id>)

  /** The dependencies of `a` that are themselves nodes of the graph. */
  function NodesAmong(g: Deps, ds: seq<Id>): (r: seq<Id>)
    ensures forall d :: d in r <==> d in ds && d in g
  {
    if ds == [] then []
    else if ds[0] in g then [ds[0]] + NodesAmong(g, ds[1..])
    else NodesAmong(g, ds[1..])
  }

  predicate NodesOf(stack: seq<Frame>, path: seq<Id>) {
    |path| == |stack| && forall i :: 0 <= i < |stack| ==> path[i] == stack[i].node
  }

  ghost predicate IsChain(g: Deps, path: seq<Id>) {
    forall i, j :: 0 <= i && j == i + 1 < |path| ==> Edge(g, path[i], path[j])
  }

  /** The path is a chain of dependencies without repetition, and holds exactly the grey nodes. */
  ghost predicate GreyPath(g: Deps, colour: Colouring, path: seq<Id>) {
    && colour.Keys == g.Keys
    && (forall i :: 0 <= i < |path| ==> path[i] in g && colour[path[i]] == Grey)
    && (forall i, j :: 0 <= i < j < |path| ==> path[i] != path[j])
    && (forall c :: c in g && colour[c] == Grey ==> c in path)
    && IsChain(g, path)
  }

  ghost predicate StackedAbove(stack: seq<Frame>, i: nat, d: Id) {
    exists j :: i < j < |stack| && stack[j].node == d
  }

  /** What has become of a dependency `d` of the frame at depth `i`. */
  ghost predicate Accounted(colour: Colouring, onCycle: set<Id>, stack: seq<Frame>, i: nat, d: Id)
    requires i < |stack| && d in colour
  {
    || d in stack[i].rest
    || colour[d] == Black
    || stack[i].node in onCycle
    || StackedAbove(stack, i, d)
  }

  /** Iterators yield dependencies that are nodes of the graph. */
  ghost predicate IteratorsOk(g: Deps, stack: seq<Frame>) {
    forall f, d :: f in stack && d in f.rest ==> InnerEdge(g, f.node, d)
  }

  ghost predicate AllAccounted(g: Deps, colour: Colouring, onCycle: set<Id>, stack: seq<Frame>)
    requires colour.Keys == g.Keys
  {
    forall i, d :: 0 <= i < |stack| && InnerEdge(g, stack[i].node, d) ==> Accounted(colour, onCycle, stack, i, d)
  }

  /** Finishing times: a finished node off every marked cycle finished after all its dependencies. */
  ghost predicate Finished(g: Deps, colour: Colouring, onCycle: set<Id>, finish: map<Id, nat>, clock: nat) {
    && colour.Keys == g.Keys
    && (forall c :: c in finish <==> c in g && colour[c] == Black)
    && (forall c :: c in finish ==> finish[c] < clock)
    && (forall a, b :: a in finish && a !in onCycle && InnerEdge(g, a, b)
                       ==> b in finish && finish[b] < finish[a])
  }

  ghost predicate TrulyCyclic(g: Deps, onCycle: set<Id>) {
    forall c :: c in onCycle ==> c in g && OnCycle(g, c)
  }

  lemma {:induction false} ChainReaches(g: Deps, path: seq<Id>, i: nat, j: nat)
    requires i <= j < |path|
    requires IsChain(g, path)
    ensures Reaches(g, path[i], path[j])
    decreases j - i
  {
    if i == j {
      ReachesSelf(g, path[i]);
    } else {
      ChainReaches(g, path, i + 1, j);
      ReachesByEdge(g, path[i], path[i + 1], path[j]);
    }
  }

  /** A back edge from the end of the path closes a cycle through every node from its target on. */
  lemma BackEdgeClosesCycle(g: Deps, path: seq<Id>, i: nat, k: nat)
    requires i <= k < |path|
    requires IsChain(g, path)
    requires Edge(g, path[|path| - 1], path[i])
    ensures OnCycle(g, path[k])
  {
    var last := |path| - 1;
    ChainReaches(g, path, i, k);
    if k < last {
      ChainReaches(g, path, k + 1, last);
      ReachesByEdge(g, path[last], path[i], path[k]);
      ReachesTrans(g, path[k + 1], path[last], path[k]);
    }
  }

  /** Python's `list.index`: the first position of `x`. */
  method IndexOf(path: seq<Id>, x: Id) returns (i: nat)
    requires x in path
    ensures i < |path| && path[i] == x && x !in path[..i]
  {
    i := 0;
    while path[i] != x
      invariant i < |path| && x !in path[..i]
      decreases |path| - i
    {
      i := i + 1;
    }
  }

  /** What holds of a visit at every step. */
  ghost predicate SearchInv(g: Deps, colour: Colouring, onCycle: set<Id>, stack: seq<Frame>, path: seq<Id>,
                            finish: map<Id, nat>, clock: nat)
  {
    && NodesOf(stack, path)
    && GreyPath(g, colour, path)
    && IteratorsOk(g, stack)
    && AllAccounted(g, colour, onCycle, stack)
    && Finished(g, colour, onCycle, finish, clock)
    && TrulyCyclic(g, onCycle)
  }

  /** The stack after its top iterator has yielded one dependency. */
  function Advance(stack: seq<Frame>): seq<Frame>
    requires stack != [] && stack[|stack| - 1].rest != []
  {
    var top := |stack| - 1;
    stack[..top] + [Frame(stack[top].node, stack[top].rest[1..])]
  }

  lemma StackGrowsAbove(stack: seq<Frame>, stack': seq<Frame>, i: nat, d: Id)
    requires |stack| <= |stack'| && forall j :: 0 <= j < |stack| ==> stack'[j].node == stack[j].node
    requires StackedAbove(stack, i, d)
    ensures StackedAbove(stack', i, d)
  {
    var j :| i < j < |stack| && stack[j].node == d;
    assert stack'[j].node == d;
  }

  /** Consuming `nxt` keeps the accounts if `nxt` is black, has been stacked, or its frame's node is marked. */
  lemma AccountsKept(g: Deps, colour: Colouring, onCycle: set<Id>, stack: seq<Frame>,
                     colour': Colouring, onCycle': set<Id>, pushed: seq<Frame>)
    requires colour.Keys == g.Keys == colour'.Keys && AllAccounted(g, colour, onCycle, stack)
    requires stack != [] && stack[|stack| - 1].rest != []
    requires onCycle <= onCycle' && forall c :: c in g && colour[c] == Black ==> colour'[c] == Black
    requires forall f, d :: f in pushed && InnerEdge(g, f.node, d) ==> d in f.rest
    requires var nxt := stack[|stack| - 1].rest[0];
             || (nxt in g && colour'[nxt] == Black)
             || stack[|stack| - 1].node in onCycle'
             || (pushed != [] && pushed[0].node == nxt)
    ensures AllAccounted(g, colour', onCycle', Advance(stack) + pushed)
  {
    var stack' := Advance(stack) + pushed;
    var top := |stack| - 1;
    forall i, d | 0 <= i < |stack'| && InnerEdge(g, stack'[i].node, d)
      ensures Accounted(colour', onCycle', stack', i, d)
    {
      if i <= top {
        assert stack'[i].node == stack[i].node;
        assert Accounted(colour, onCycle, stack, i, d);
        if StackedAbove(stack, i, d) {
          StackGrowsAbove(stack, stack', i, d);
        } else if d in stack[i].rest && d !in stack'[i].rest {
          assert i == top && d == stack[top].rest[0];
          if pushed != [] && pushed[0].node == d {
            assert stack'[|stack|].node == d;
          }
        }
      } else {
        assert stack'[i] in pushed;
      }
    }
  }

  lemma TopYieldsEdge(g: Deps, stack: seq<Frame>)
    requires IteratorsOk(g, stack) && stack != [] && stack[|stack| - 1].rest != []
    ensures InnerEdge(g, stack[|stack| - 1].node, stack[|stack| - 1].rest[0])
  {
    var f := stack[|stack| - 1];
    assert f in stack && f.rest[0] in f.rest;
  }

  lemma IteratorsKept(g: Deps, stack: seq<Frame>, pushed: seq<Frame>)
    requires IteratorsOk(g, stack) && IteratorsOk(g, pushed)
    requires stack != [] && stack[|stack| - 1].rest != []
    ensures IteratorsOk(g, Advance(stack) + pushed)
  {
    var top := |stack| - 1;
    forall f, d | f in Advance(stack) + pushed && d in f.rest
      ensures InnerEdge(g, f.node, d)
    {
      var yielded := Frame(stack[top].node, stack[top].rest[1..]);
      assert f in pushed || f in stack[..top] || f == yielded;
      if f in pushed {
        assert InnerEdge(g, f.node, d);
      } else if f == yielded {
        assert stack[top] in stack && d in stack[top].rest;
        assert InnerEdge(g, stack[top].node, d);
      } else {
        assert f in stack[..top];
        assert f in stack;
        assert InnerEdge(g, f.node, d);
      }
    }
  }

  lemma StepOverBlack(g: Deps, colour: Colouring, onCycle: set<Id>, stack: seq<Frame>, path: seq<Id>,
                      finish: map<Id, nat>, clock: nat)
    requires SearchInv(g, colour, onCycle, stack, path, finish, clock)
    requires stack != [] && stack[|stack| - 1].rest != []
    requires stack[|stack| - 1].rest[0] in colour && colour[stack[|stack| - 1].rest[0]] == Black
    ensures SearchInv(g, colour, onCycle, Advance(stack), path, finish, clock)
  {
    AccountsKept(g, colour, onCycle, stack, colour, onCycle, []);
    IteratorsKept(g, stack, []);
    assert Advance(stack) + [] == Advance(stack);
  }

  /** Marking more nodes keeps the finishing-time claim. */
  lemma BackEdgeMarks(g: Deps, path: seq<Id>, at: nat, onCycle: set<Id>)
    requires IsChain(g, path) && TrulyCyclic(g, onCycle) && forall c :: c in path ==> c in g
    requires at < |path| && Edge(g, path[|path| - 1], path[at])
    ensures TrulyCyclic(g, onCycle + (set c | c in path[at..]) + {path[|path| - 1]})
  {
    forall c | c in path[at..] || c == path[|path| - 1]
      ensures c in g && OnCycle(g, c)
    {
      var k :| at <= k < |path| && path[k] == c;
      BackEdgeClosesCycle(g, path, at, k);
    }
  }

  lemma StepOnBackEdge(g: Deps, colour: Colouring, onCycle: set<Id>, stack: seq<Frame>, path: seq<Id>,
                       finish: map<Id, nat>, clock: nat, at: nat)
    requires SearchInv(g, colour, onCycle, stack, path, finish, clock)
    requires stack != [] && stack[|stack| - 1].rest != []
    requires at < |path| && path[at] == stack[|stack| - 1].rest[0]
    ensures SearchInv(g, colour, onCycle + (set c | c in path[at..]) + {stack[|stack| - 1].node},
                      Advance(stack), path, finish, clock)
  {
    var marked := onCycle + (set c | c in path[at..]) + {stack[|stack| - 1].node};
    TopYieldsEdge(g, stack);
    assert path[|path| - 1] == stack[|stack| - 1].node;
    BackEdgeMarks(g, path, at, onCycle);
    AccountsKept(g, colour, onCycle, stack, colour, marked, []);
    IteratorsKept(g, stack, []);
    assert Advance(stack) + [] == Advance(stack);
  }

  lemma FinishedOnGrey(g: Deps, colour: Colouring, onCycle: set<Id>, finish: map<Id, nat>, clock: nat, nxt: Id)
    requires Finished(g, colour, onCycle, finish, clock) && nxt in g && colour[nxt] == White
    ensures Finished(g, colour[nxt := Grey], onCycle, finish, clock)
  {
  }

  lemma StepIntoWhite(g: Deps, colour: Colouring, onCycle: set<Id>, stack: seq<Frame>, path: seq<Id>,
                      finish: map<Id, nat>, clock: nat, nxt: Id)
    requires SearchInv(g, colour, onCycle, stack, path, finish, clock)
    requires stack != [] && stack[|stack| - 1].rest != [] && nxt == stack[|stack| - 1].rest[0]
    requires nxt in g && colour[nxt] == White
    ensures SearchInv(g, colour[nxt := Grey], onCycle, Advance(stack) + [Frame(nxt, NodesAmong(g, g[nxt]))],
                      path + [nxt], finish, clock)
  {
    var frame := Frame(nxt, NodesAmong(g, g[nxt]));
    TopYieldsEdge(g, stack);
    AccountsKept(g, colour, onCycle, stack, colour[nxt := Grey], onCycle, [frame]);
    IteratorsKept(g, stack, [frame]);
    FinishedOnGrey(g, colour, onCycle, finish, clock, nxt);
  }

  lemma GreyPathShrinks(g: Deps, colour: Colouring, path: seq<Id>)
    requires GreyPath(g, colour, path) && path != []
    ensures GreyPath(g, colour[path[|path| - 1] := Black], path[..|path| - 1])
  {
  }

  lemma AccountsAfterPop(g: Deps, colour: Colouring, onCycle: set<Id>, stack: seq<Frame>)
    requires colour.Keys == g.Keys && AllAccounted(g, colour, onCycle, stack)
    requires stack != [] && stack[|stack| - 1].node in g
    ensures AllAccounted(g, colour[stack[|stack| - 1].node := Black], onCycle, stack[..|stack| - 1])
  {
    var top := |stack| - 1;
    var stack', colour' := stack[..top], colour[stack[top].node := Black];
    forall i, d | 0 <= i < |stack'| && InnerEdge(g, stack'[i].node, d)
      ensures Accounted(colour', onCycle, stack', i, d)
    {
      assert Accounted(colour, onCycle, stack, i, d);
      if StackedAbove(stack, i, d) {
        var j :| i < j < |stack| && stack[j].node == d;
        assert j < top ==> stack'[j].node == d;
      }
    }
  }

  lemma FinishedOnBlack(g: Deps, colour: Colouring, onCycle: set<Id>, finish: map<Id, nat>, clock: nat, node: Id)
    requires Finished(g, colour, onCycle, finish, clock) && node in g && colour[node] == Grey
    requires forall d :: InnerEdge(g, node, d) ==> node in onCycle || d in finish
    ensures Finished(g, colour[node := Black], onCycle, finish[node := clock], clock + 1)
  {
  }

  lemma ExhaustedIsFinished(g: Deps, colour: Colouring, onCycle: set<Id>, stack: seq<Frame>,
                            finish: map<Id, nat>, clock: nat)
    requires Finished(g, colour, onCycle, finish, clock) && AllAccounted(g, colour, onCycle, stack)
    requires stack != [] && stack[|stack| - 1].rest == []
    ensures forall d :: InnerEdge(g, stack[|stack| - 1].node, d)
                        ==> stack[|stack| - 1].node in onCycle || d in finish
  {
    forall d | InnerEdge(g, stack[|stack| - 1].node, d)
      ensures stack[|stack| - 1].node in onCycle || d in finish
    {
      assert Accounted(colour, onCycle, stack, |stack| - 1, d);
    }
  }

  lemma IteratorsAfterPop(g: Deps, stack: seq<Frame>)
    requires IteratorsOk(g, stack) && stack != []
    ensures IteratorsOk(g, stack[..|stack| - 1])
  {
  }

  lemma NodesAfterPop(stack: seq<Frame>, path: seq<Id>)
    requires NodesOf(stack, path) && stack != []
    ensures NodesOf(stack[..|stack| - 1], path[..|stack| - 1])
  {
  }

  lemma StepOut(g: Deps, colour: Colouring, onCycle: set<Id>, stack: seq<Frame>, path: seq<Id>,
                finish: map<Id, nat>, clock: nat)
    requires SearchInv(g, colour, onCycle, stack, path, finish, clock)
    requires stack != [] && stack[|stack| - 1].rest == []
    ensures var top := |stack| - 1;
            SearchInv(g, colour[stack[top].node := Black], onCycle, stack[..top], path[..top],
                      finish[stack[top].node := clock], clock + 1)
  {
    var top := |stack| - 1;
    var node := stack[top].node;
    assert path[top] == node && colour[node] == Grey;
    GreyPathShrinks(g, colour, path);
    AccountsAfterPop(g, colour, onCycle, stack);
    ExhaustedIsFinished(g, colour, onCycle, stack, finish, clock);
    FinishedOnBlack(g, colour, onCycle, finish, clock, node);
    IteratorsAfterPop(g, stack);
    NodesAfterPop(stack, path);
  }

  lemma StartVisit(g: Deps, start: Id, colour: Colouring, onCycle: set<Id>, finish: map<Id, nat>, clock: nat)
    requires start in g && start in colour && colour[start] == White
    requires SearchInv(g, colour, onCycle, [], [], finish, clock)
    ensures SearchInv(g, colour[start := Grey], onCycle, [Frame(start, NodesAmong(g, g[start]))], [start], finish, clock)
  {
    FinishedOnGrey(g, colour, onCycle, finish, clock, start);
  }

  ghost function Whites(colour: Colouring): set<Id> {
    set c | c in colour && colour[c] == White
  }

  lemma GreyingShrinksWhites(colour: Colouring, node: Id)
    requires node in colour && colour[node] == White
    ensures Whites(colour[node := Grey]) < Whites(colour)
  {
    assert node in Whites(colour) && node !in Whites(colour[node := Grey]);
  }

  lemma BlackeningKeepsWhites(colour: Colouring, node: Id)
    requires node in colour && colour[node] == Grey
    ensures Whites(colour[node := Black]) == Whites(colour)
  {
  }

  // ----- The search as a state machine -----

  datatype Search = Search(colour: Colouring, onCycle: set<Id>, stack: seq<Frame>, path: seq<Id>)

  /** The path from the first position of `x` on. */
  function PathFrom(path: seq<Id>, x: Id): seq<Id> {
    if path == [] || path[0] == x then path else PathFrom(path[1..], x)
  }

  /** One step: the top iterator yields a dependency, or is exhausted and its node is finished. */
  function Next(g: Deps, s: Search): Search {
    if s.stack == [] then s
    else
      var top := |s.stack| - 1;
      var node, rest := s.stack[top].node, s.stack[top].rest;
      if rest == [] then
        Search(s.colour[node := Black], s.onCycle, s.stack[..top],
               if s.path != [] && s.path[|s.path| - 1] == node then s.path[..|s.path| - 1] else s.path)
      else if rest[0] !in g || rest[0] !in s.colour then s
      else
        match s.colour[rest[0]]
        case Grey =>
          Search(s.colour, s.onCycle + (set c | c in PathFrom(s.path, rest[0])) + {node}, Advance(s.stack), s.path)
        case White =>
          Search(s.colour[rest[0] := Grey], s.onCycle,
                 Advance(s.stack) + [Frame(rest[0], NodesAmong(g, g[rest[0]]))], s.path + [rest[0]])
        case Black => Search(s.colour, s.onCycle, Advance(s.stack), s.path)
  }

  /** Steps keep the property. */
  ghost predicate IsKept(g: Deps, inv: Search -> bool) {
    forall s :: inv(s) ==> inv(Next(g, s))
  }

  /** `t` is reached from `s`: it has every property that `s` has and steps keep. */
  ghost predicate Runs(g: Deps, s: Search, t: Search) {
    forall inv: Search -> bool :: inv(s) && IsKept(g, inv) ==> inv(t)
  }

  function Started(g: Deps, start: Id, colour: Colouring, onCycle: set<Id>): Search
    requires start in g
  {
    Search(colour[start := Grey], onCycle, [Frame(start, NodesAmong(g, g[start]))], [start])
  }

  lemma RunsSelf(g: Deps, s: Search)
    ensures Runs(g, s, s)
  {
  }

  lemma RunsNext(g: Deps, s: Search, t: Search)
    requires Runs(g, s, t)
    ensures Runs(g, s, Next(g, t))
  {
    forall inv: Search -> bool | inv(s) && IsKept(g, inv)
      ensures inv(Next(g, t))
    {
      assert inv(t);
    }
  }

  lemma {:induction false} PathFromIndex(path: seq<Id>, x: Id, at: nat)
    requires at < |path| && path[at] == x && x !in path[..at]
    ensures PathFrom(path, x) == path[at..]
  {
    if at == 0 {
    } else {
      assert path[0] == path[..at][0];
      assert path[1..][..at - 1] == path[..at][1..];
      PathFromIndex(path[1..], x, at - 1);
    }
  }

  lemma RunsOnBackEdge(g: Deps, from: Search, s: Search, at: nat)
    requires Runs(g, from, s) && s.stack != [] && s.stack[|s.stack| - 1].rest != []
    requires var nxt := s.stack[|s.stack| - 1].rest[0];
             && nxt in g && nxt in s.colour && s.colour[nxt] == Grey
             && at < |s.path| && s.path[at] == nxt && nxt !in s.path[..at]
    ensures Runs(g, from, Search(s.colour, s.onCycle + (set c | c in s.path[at..]) + {s.stack[|s.stack| - 1].node},
                                 Advance(s.stack), s.path))
  {
    RunsNext(g, from, s);
    PathFromIndex(s.path, s.stack[|s.stack| - 1].rest[0], at);
  }

  lemma RunsIntoWhite(g: Deps, from: Search, s: Search, nxt: Id)
    requires Runs(g, from, s) && s.stack != [] && s.stack[|s.stack| - 1].rest != []
    requires nxt == s.stack[|s.stack| - 1].rest[0] && nxt in g && nxt in s.colour && s.colour[nxt] == White
    ensures Runs(g, from, Search(s.colour[nxt := Grey], s.onCycle,
                                 Advance(s.stack) + [Frame(nxt, NodesAmong(g, g[nxt]))], s.path + [nxt]))
  {
    RunsNext(g, from, s);
  }

  lemma RunsOverBlack(g: Deps, from: Search, s: Search)
    requires Runs(g, from, s) && s.stack != [] && s.stack[|s.stack| - 1].rest != []
    requires var nxt := s.stack[|s.stack| - 1].rest[0]; nxt in g && nxt in s.colour && s.colour[nxt] == Black
    ensures Runs(g, from, Search(s.colour, s.onCycle, Advance(s.stack), s.path))
  {
    RunsNext(g, from, s);
  }

  /** The top iterator yields a grey node: the cycle that closes is marked. */
  method MarkCycle(g: Deps, colour: Colouring, onCycle0: set<Id>, stack0: seq<Frame>, path: seq<Id>,
                   ghost finish: map<Id, nat>, ghost clock: nat, ghost from: Search)
    returns (onCycle: set<Id>, stack: seq<Frame>)
    requires SearchInv(g, colour, onCycle0, stack0, path, finish, clock)
    requires stack0 != [] && stack0[|stack0| - 1].rest != []
    requires stack0[|stack0| - 1].rest[0] in colour && colour[stack0[|stack0| - 1].rest[0]] == Grey
    requires Runs(g, from, Search(colour, onCycle0, stack0, path))
    ensures SearchInv(g, colour, onCycle, stack, path, finish, clock)
    ensures Runs(g, from, Search(colour, onCycle, stack, path))
    ensures stack == Advance(stack0)
  {
    var node, nxt := stack0[|stack0| - 1].node, stack0[|stack0| - 1].rest[0];
    // Every grey node is on the path, so the source's other branch here cannot be reached.
    var at := IndexOf(path, nxt);
    StepOnBackEdge(g, colour, onCycle0, stack0, path, finish, clock, at);
    RunsOnBackEdge(g, from, Search(colour, onCycle0, stack0, path), at);
    stack := Advance(stack0);
    onCycle := onCycle0 + (set c | c in path[at..]);
    onCycle := onCycle + {node};
  }

  /** The top iterator yields a white node: it is stacked. */
  method StackNode(g: Deps, colour0: Colouring, ghost onCycle: set<Id>, stack0: seq<Frame>, path0: seq<Id>,
                   ghost finish: map<Id, nat>, ghost clock: nat, ghost from: Search)
    returns (colour: Colouring, stack: seq<Frame>, path: seq<Id>)
    requires SearchInv(g, colour0, onCycle, stack0, path0, finish, clock)
    requires stack0 != [] && stack0[|stack0| - 1].rest != []
    requires stack0[|stack0| - 1].rest[0] in g && stack0[|stack0| - 1].rest[0] in colour0
    requires colour0[stack0[|stack0| - 1].rest[0]] == White
    requires Runs(g, from, Search(colour0, onCycle, stack0, path0))
    ensures SearchInv(g, colour, onCycle, stack, path, finish, clock) && stack != []
    ensures Runs(g, from, Search(colour, onCycle, stack, path))
    ensures Whites(colour) < Whites(colour0)
  {
    var nxt := stack0[|stack0| - 1].rest[0];
    StepIntoWhite(g, colour0, onCycle, stack0, path0, finish, clock, nxt);
    RunsIntoWhite(g, from, Search(colour0, onCycle, stack0, path0), nxt);
    GreyingShrinksWhites(colour0, nxt);
    colour := colour0[nxt := Grey];
    path := path0 + [nxt];
    stack := Advance(stack0) + [Frame(nxt, NodesAmong(g, g[nxt]))];
  }

  /** One turn of the loop over the top iterator. */
  method Yield(g: Deps, colour0: Colouring, onCycle0: set<Id>, stack0: seq<Frame>, path0: seq<Id>,
               ghost finish: map<Id, nat>, ghost clock: nat, ghost from: Search)
    returns (colour: Colouring, onCycle: set<Id>, stack: seq<Frame>, path: seq<Id>, advanced: bool)
    requires SearchInv(g, colour0, onCycle0, stack0, path0, finish, clock)
    requires stack0 != [] && stack0[|stack0| - 1].rest != []
    requires Runs(g, from, Search(colour0, onCycle0, stack0, path0))
    ensures SearchInv(g, colour, onCycle, stack, path, finish, clock) && stack != []
    ensures Runs(g, from, Search(colour, onCycle, stack, path))
    ensures advanced ==> Whites(colour) < Whites(colour0)
    ensures !advanced ==> colour == colour0 && path == path0 && stack == Advance(stack0)
  {
    colour, onCycle, stack, path, advanced := colour0, onCycle0, stack0, path0, false;
    var nxt := stack[|stack| - 1].rest[0];
    TopYieldsEdge(g, stack);
    if colour[nxt] == Grey {
      onCycle, stack := MarkCycle(g, colour, onCycle, stack, path, finish, clock, from);
    } else if colour[nxt] == White {
      colour, stack, path := StackNode(g, colour, onCycle, stack, path, finish, clock, from);
      advanced := true;
    } else {
      StepOverBlack(g, colour, onCycle, stack, path, finish, clock);
      RunsOverBlack(g, from, Search(colour, onCycle, stack, path));
      stack := Advance(stack);
    }
  }

  /** Consumes the top iterator until it yields a white node, which is stacked, or is exhausted. */
  method Scan(g: Deps, colour0: Colouring, onCycle0: set<Id>, stack0: seq<Frame>, path0: seq<Id>,
              ghost finish: map<Id, nat>, ghost clock: nat, ghost from: Search)
    returns (colour: Colouring, onCycle: set<Id>, stack: seq<Frame>, path: seq<Id>, advanced: bool)
    requires SearchInv(g, colour0, onCycle0, stack0, path0, finish, clock) && stack0 != []
    requires Runs(g, from, Search(colour0, onCycle0, stack0, path0))
    ensures SearchInv(g, colour, onCycle, stack, path, finish, clock) && stack != []
    ensures Runs(g, from, Search(colour, onCycle, stack, path))
    ensures advanced ==> Whites(colour) < Whites(colour0)
    ensures !advanced ==> colour == colour0 && path == path0 && |stack| == |stack0|
    ensures !advanced ==> stack[|stack| - 1] == Frame(stack0[|stack0| - 1].node, [])
  {
    colour, onCycle, stack, path := colour0, onCycle0, stack0, path0;
    advanced := false;
    while stack[|stack| - 1].rest != [] && !advanced
      invariant stack != [] && SearchInv(g, colour, onCycle, stack, path, finish, clock)
      invariant Runs(g, from, Search(colour, onCycle, stack, path))
      invariant !advanced ==> |stack| == |stack0| && colour == colour0 && path == path0
      invariant !advanced ==> stack[|stack| - 1].node == stack0[|stack0| - 1].node
      invariant advanced ==> Whites(colour) < Whites(colour0)
      decreases !advanced, |stack[|stack| - 1].rest|
    {
      colour, onCycle, stack, path, advanced := Yield(g, colour, onCycle, stack, path, finish, clock, from);
    }
  }

  method Visit(g: Deps, start: Id, colour0: Colouring, onCycle0: set<Id>, ghost finish0: map<Id, nat>, ghost clock0: nat)
    returns (colour: Colouring, onCycle: set<Id>, ghost finish: map<Id, nat>, ghost clock: nat)
    requires start in g && start in colour0 && colour0[start] == White
    requires SearchInv(g, colour0, onCycle0, [], [], finish0, clock0)
    ensures SearchInv(g, colour, onCycle, [], [], finish, clock)
    ensures Runs(g, Started(g, start, colour0, onCycle0), Search(colour, onCycle, [], []))
    ensures Whites(colour) < Whites(colour0) && start !in Whites(colour)
  {
    onCycle, finish, clock := onCycle0, finish0, clock0;
    var stack := [Frame(start, NodesAmong(g, g[start]))];
    StartVisit(g, start, colour0, onCycle0, finish0, clock0);
    GreyingShrinksWhites(colour0, start);
    colour := colour0[start := Grey];
    var path := [start];
    ghost var from := Started(g, start, colour0, onCycle0);
    RunsSelf(g, from);
    while stack != []
      invariant SearchInv(g, colour, onCycle, stack, path, finish, clock)
      invariant Runs(g, from, Search(colour, onCycle, stack, path))
      invariant Whites(colour) < Whites(colour0) && start !in Whites(colour)
      decreases Whites(colour), |stack|
    {
      var node := stack[|stack| - 1].node;
      var advanced;
      colour, onCycle, stack, path, advanced := Scan(g, colour, onCycle, stack, path, finish, clock, from);
      if !advanced {
        StepOut(g, colour, onCycle, stack, path, finish, clock);
        RunsNext(g, from, Search(colour, onCycle, stack, path));
        assert path[|path| - 1] == node;
        BlackeningKeepsWhites(colour, node);
        colour := colour[node := Black];
        finish, clock := finish[node := clock], clock + 1;
        stack := stack[..|stack| - 1];
        if path != [] && path[|path| - 1] == node {
          path := path[..|path| - 1];
        }
      }
    }
  }

  /** Off the marked nodes, finishing times fall along every dependency. */
  ghost predicate FallsOffCycles(g: Deps, onCycle: set<Id>, finish: map<Id, nat>) {
    finish.Keys == g.Keys && forall a, b :: InnerEdge(g, a, b) && a !in onCycle ==> finish[b] < finish[a]
  }

  lemma NothingVisited(g: Deps, colour: Colouring)
    requires colour.Keys == g.Keys && forall c :: c in g ==> colour[c] == White
    ensures SearchInv(g, colour, {}, [], [], map[], 0)
  {
  }

  function Last(keys: seq<Id>): Id
    requires keys != []
  {
    keys[|keys| - 1]
  }

  /** Where the loop over `keys`, which visits those still white, arrives. */
  ghost predicate Swept(g: Deps, keys: seq<Id>, colour: Colouring, onCycle: set<Id>) {
    if keys == [] then colour == AllWhite(g) && onCycle == {}
    else exists colour0, onCycle0 ::
      && Swept(g, keys[..|keys| - 1], colour0, onCycle0)
      && SweptOne(g, Last(keys), colour0, onCycle0, colour, onCycle)
  }

  ghost predicate SweptOne(g: Deps, key: Id, colour0: Colouring, onCycle0: set<Id>, colour: Colouring, onCycle: set<Id>) {
    if key in g && key in colour0 && colour0[key] == White then
      Runs(g, Started(g, key, colour0, onCycle0), Search(colour, onCycle, [], []))
    else colour == colour0 && onCycle == onCycle0
  }

  function AllWhite(g: Deps): Colouring {
    map c | c in g :: White
  }

  lemma SweepFurther(g: Deps, keys: seq<Id>, key: Id, colour0: Colouring, onCycle0: set<Id>, colour: Colouring, onCycle: set<Id>)
    requires Swept(g, keys, colour0, onCycle0) && SweptOne(g, key, colour0, onCycle0, colour, onCycle)
    ensures Swept(g, keys + [key], colour, onCycle)
  {
    assert (keys + [key])[..|keys|] == keys && Last(keys + [key]) == key;
  }

  method VisitIfWhite(g: Deps, cid: Id, colour0: Colouring, onCycle0: set<Id>, ghost finish0: map<Id, nat>, ghost clock0: nat)
    returns (colour: Colouring, onCycle: set<Id>, ghost finish: map<Id, nat>, ghost clock: nat)
    requires cid in g && SearchInv(g, colour0, onCycle0, [], [], finish0, clock0)
    ensures SearchInv(g, colour, onCycle, [], [], finish, clock)
    ensures SweptOne(g, cid, colour0, onCycle0, colour, onCycle)
    ensures Whites(colour) <= Whites(colour0) && cid !in Whites(colour)
  {
    colour, onCycle, finish, clock := colour0, onCycle0, finish0, clock0;
    if colour[cid] == White {
      colour, onCycle, finish, clock := Visit(g, cid, colour, onCycle, finish, clock);
    }
  }

  ghost predicate NoneWhite(keys: seq<Id>, colour: Colouring) {
    forall c :: c in keys ==> c !in Whites(colour)
  }

  lemma OneMoreVisited(keys: seq<Id>, i: nat, colour0: Colouring, colour: Colouring)
    requires i < |keys| && NoneWhite(keys[..i], colour0) && Whites(colour) <= Whites(colour0) && keys[i] !in Whites(colour)
    ensures NoneWhite(keys[..i + 1], colour)
  {
    assert keys[..i + 1] == keys[..i] + [keys[i]];
  }

  lemma OneMoreSwept(g: Deps, keys: seq<Id>, i: nat, colour0: Colouring, onCycle0: set<Id>, colour: Colouring, onCycle: set<Id>)
    requires i < |keys| && Swept(g, keys[..i], colour0, onCycle0) && SweptOne(g, keys[i], colour0, onCycle0, colour, onCycle)
    ensures Swept(g, keys[..i + 1], colour, onCycle)
  {
    SweepFurther(g, keys[..i], keys[i], colour0, onCycle0, colour, onCycle);
    assert keys[..i + 1] == keys[..i] + [keys[i]];
  }

  /** What is marked lies on a cycle; off the marks the finishing times leave no room for another cycle. */
  method FindCycles(g: Deps, keys: seq<Id>) returns (onCycle: set<Id>, ghost finish: map<Id, nat>)
    requires forall c :: c in keys <==> c in g
    ensures TrulyCyclic(g, onCycle) && FallsOffCycles(g, onCycle, finish)
    ensures exists colour :: Swept(g, keys, colour, onCycle)
  {
    var colour := AllWhite(g);
    onCycle, finish := {}, map[];
    ghost var clock := 0;
    NothingVisited(g, colour);
    for i := 0 to |keys|
      invariant SearchInv(g, colour, onCycle, [], [], finish, clock)
      invariant Swept(g, keys[..i], colour, onCycle) && NoneWhite(keys[..i], colour)
    {
      assert keys[i] in keys;
      ghost var colour0, onCycle0 := colour, onCycle;
      colour, onCycle, finish, clock := VisitIfWhite(g, keys[i], colour, onCycle, finish, clock);
      OneMoreVisited(keys, i, colour0, colour);
      OneMoreSwept(g, keys, i, colour0, onCycle0, colour, onCycle);
    }
    assert keys[..|keys|] == keys;
    AllFinished(g, keys, colour, onCycle, finish, clock);
  }

  lemma AllFinished(g: Deps, keys: seq<Id>, colour: Colouring, onCycle: set<Id>, finish: map<Id, nat>, clock: nat)
    requires (forall c :: c in keys <==> c in g) && NoneWhite(keys, colour)
    requires SearchInv(g, colour, onCycle, [], [], finish, clock)
    ensures FallsOffCycles(g, onCycle, finish)
  {
    forall c | c in g
      ensures c in finish
    {
      assert c !in Whites(colour);
    }
  }

  lemma {:induction false} FallsAlongChain(g: Deps, onCycle: set<Id>, finish: map<Id, nat>, path: seq<Id>, j: nat)
    requires FallsOffCycles(g, onCycle, finish) && IsChain(g, path) && j < |path|
    requires forall c :: c in path ==> c in g && c !in onCycle
    ensures finish[path[j]] <= finish[path[0]]
    decreases j
  {
    if j == 0 {
    } else {
      FallsAlongChain(g, onCycle, finish, path, j - 1);
      assert path[j] in path && path[j - 1] in path;
      assert InnerEdge(g, path[j - 1], path[j]);
    }
  }

  /** The search marks at least one node of every cycle; it is not promised to mark them all. */
  lemma EveryCycleHasAMark(g: Deps, onCycle: set<Id>, finish: map<Id, nat>, cycle: seq<Id>)
    requires FallsOffCycles(g, onCycle, finish)
    requires cycle != [] && IsChain(g, cycle) && Edge(g, cycle[|cycle| - 1], cycle[0])
    ensures exists c :: c in cycle && c in onCycle
  {
    var last := |cycle| - 1;
    if forall c :: c in cycle ==> c !in onCycle {
      forall c | c in cycle
        ensures c in g
      {
        var i :| 0 <= i < |cycle| && cycle[i] == c;
        assert i < last ==> Edge(g, cycle[i], cycle[i + 1]);
      }
      FallsAlongChain(g, onCycle, finish, cycle, last);
      assert cycle[last] in cycle && cycle[0] in cycle;
      assert InnerEdge(g, cycle[last], cycle[0]);
    }
  }
}
