/** A run of the cycle search that leaves a node of a cycle unmarked. */
module CycleWitness {
  import opened DependencyGraph
  import opened CycleSearch

  /** A triangle with a chord: "A" leads to "B" and "C", "B" back to "A", and "C" to "B". */
  function Triangle(): Deps {
    map["A" := ["B", "C"], "B" := ["A"], "C" := ["B"]]
  }

  function Colours(a: Colour, b: Colour, c: Colour): Colouring {
    map["A" := a, "B" := b, "C" := c]
  }

  /** The eight states of the visit from "A". */
  function Visited(n: nat): Search {
    if n == 0 then Search(Colours(Grey, White, White), {}, [Frame("A", ["B", "C"])], ["A"])
    else if n == 1 then Search(Colours(Grey, Grey, White), {}, [Frame("A", ["C"]), Frame("B", ["A"])], ["A", "B"])
    else if n == 2 then Search(Colours(Grey, Grey, White), {"A", "B"}, [Frame("A", ["C"]), Frame("B", [])], ["A", "B"])
    else if n == 3 then Search(Colours(Grey, Black, White), {"A", "B"}, [Frame("A", ["C"])], ["A"])
    else if n == 4 then Search(Colours(Grey, Black, Grey), {"A", "B"}, [Frame("A", []), Frame("C", ["B"])], ["A", "C"])
    else if n == 5 then Search(Colours(Grey, Black, Grey), {"A", "B"}, [Frame("A", []), Frame("C", [])], ["A", "C"])
    else if n == 6 then Search(Colours(Grey, Black, Black), {"A", "B"}, [Frame("A", [])], ["A"])
    else Search(Colours(Black, Black, Black), {"A", "B"}, [], [])
  }

  lemma TriangleLists()
    ensures NodesAmong(Triangle(), ["B", "C"]) == ["B", "C"]
    ensures NodesAmong(Triangle(), ["A"]) == ["A"] && NodesAmong(Triangle(), ["B"]) == ["B"]
  {
  }

  lemma VisitStarts()
    ensures Started(Triangle(), "A", AllWhite(Triangle()), {}) == Visited(0)
  {
    TriangleLists();
    assert AllWhite(Triangle()) == Colours(White, White, White);
  }

  lemma VisitGoesDown(n: nat)
    requires n < 4
    ensures Next(Triangle(), Visited(n)) == Visited(n + 1)
  {
    TriangleLists();
    match n
    case 0 =>
    case 1 =>
      assert PathFrom(["A", "B"], "A") == ["A", "B"];
      assert (set c | c in ["A", "B"]) == {"A", "B"};
    case 2 =>
      assert Colours(Grey, Grey, White)["B" := Black] == Colours(Grey, Black, White);
    case _ =>
  }

  lemma VisitComesUp(n: nat)
    requires 4 <= n < 7
    ensures Next(Triangle(), Visited(n)) == Visited(n + 1)
  {
    match n
    case 4 =>
      var stack := [Frame("A", []), Frame("C", ["B"])];
      assert stack == Visited(4).stack && stack[..1] == [Frame("A", [])] && stack[1].rest[1..] == [];
      assert Advance(stack) == [Frame("A", []), Frame("C", [])];
    case 5 =>
      assert Colours(Grey, Black, Grey)["C" := Black] == Colours(Grey, Black, Black);
    case _ =>
      assert Colours(Grey, Black, Black)["A" := Black] == Colours(Black, Black, Black);
  }

  ghost predicate IsVisited(s: Search) {
    exists n: nat :: n <= 7 && s == Visited(n)
  }

  lemma VisitFromA(colour: Colouring, onCycle: set<Id>)
    requires Runs(Triangle(), Visited(0), Search(colour, onCycle, [], []))
    ensures Search(colour, onCycle, [], []) == Visited(7)
  {
    forall s | IsVisited(s)
      ensures IsVisited(Next(Triangle(), s))
    {
      var n: nat :| n <= 7 && s == Visited(n);
      if n < 4 {
        VisitGoesDown(n);
      } else if n < 7 {
        VisitComesUp(n);
      }
    }
    assert IsVisited(Visited(0)) && IsKept(Triangle(), IsVisited);
    assert IsVisited(Search(colour, onCycle, [], []));
  }

  /**
   Marking is not complete. From "A" the search closes the cycle through "B" and finishes "B" before it comes to
   "C": what the code marks on this graph is "A" and "B", and "C" is on a cycle all the same.
  */
  lemma MarksMissANode(colour: Colouring, onCycle: set<Id>)
    requires Swept(Triangle(), ["A", "B", "C"], colour, onCycle)
    ensures onCycle == {"A", "B"} && OnCycle(Triangle(), "C")
  {
    var g := Triangle();
    TriangleMarks(["A"], ["A", "B"], ["A", "B", "C"], colour, onCycle);
    assert IsChain(g, ["A", "C", "B"]) && Edge(g, "B", "A");
    BackEdgeClosesCycle(g, ["A", "C", "B"], 0, 1);
  }

  lemma SweepUnfolds(g: Deps, keys: seq<Id>, key: Id, colour: Colouring, onCycle: set<Id>)
    returns (colour0: Colouring, onCycle0: set<Id>)
    requires Swept(g, keys + [key], colour, onCycle)
    ensures Swept(g, keys, colour0, onCycle0) && SweptOne(g, key, colour0, onCycle0, colour, onCycle)
  {
    assert (keys + [key])[..|keys|] == keys && Last(keys + [key]) == key;
    colour0, onCycle0 :| Swept(g, keys, colour0, onCycle0) && SweptOne(g, key, colour0, onCycle0, colour, onCycle);
  }

  lemma SweptFirst(colour0: Colouring, onCycle0: set<Id>, colour: Colouring, onCycle: set<Id>)
    requires Swept(Triangle(), [], colour0, onCycle0) && SweptOne(Triangle(), "A", colour0, onCycle0, colour, onCycle)
    ensures colour == Colours(Black, Black, Black) && onCycle == {"A", "B"}
  {
    VisitStarts();
    VisitFromA(colour, onCycle);
  }

  /** `keys` start with the three nodes of the triangle, one at a time. */
  lemma TriangleMarks(a: seq<Id>, ab: seq<Id>, abc: seq<Id>, colour: Colouring, onCycle: set<Id>)
    requires a == [] + ["A"] && ab == a + ["B"] && abc == ab + ["C"]
    requires Swept(Triangle(), abc, colour, onCycle)
    ensures onCycle == {"A", "B"}
  {
    var g := Triangle();
    var colour2, onCycle2 := SweepUnfolds(g, ab, "C", colour, onCycle);
    var colour1, onCycle1 := SweepUnfolds(g, a, "B", colour2, onCycle2);
    var colour0, onCycle0 := SweepUnfolds(g, [], "A", colour1, onCycle1);
    SweptFirst(colour0, onCycle0, colour1, onCycle1);
  }
}
