/** The hash that anchors a conclusion to its premises: glass_ionomer/engine/synthesizer.py. */
module GraphAnchor {
  import opened Wrappers
  import opened Sequences
  import opened Sorting
  import opened Lexicographic
  import opened Status
  import opened CanonicalValues

  /** One premise's contribution to a conclusion. */
  datatype SupportNode = SupportNode(claimId: string, status: EvidenceStatus, definitiveNonLlm: bool, recordHash: string)

  predicate SameKey(m: SupportNode, n: SupportNode) {
    m.claimId == n.claimId && m.recordHash == n.recordHash
  }

  /** The order the premises are listed in: by claim id and then record hash. */
  predicate KeyLess(m: SupportNode, n: SupportNode) {
    Less(m.claimId, n.claimId) || (m.claimId == n.claimId && Less(m.recordHash, n.recordHash))
  }

  /** Python's `sorted` by that order: nodes of one key keep theirs. */
  function SortNodes(ns: seq<SupportNode>): (r: seq<SupportNode>)
    ensures multiset(r) == multiset(ns)
  {
    Sort(ns, KeyLess)
  }

  function NodeValue(n: SupportNode): Value {
    VDict([
      Entry("claim_id", VStr(n.claimId)),
      Entry("definitive_nonllm", VBool(n.definitiveNonLlm)),
      Entry("record_hash", VStr(n.recordHash)),
      Entry("status", VStr(StatusText(n.status)))])
  }

  function NodeValues(ns: seq<SupportNode>): (vs: seq<Value>)
    ensures |vs| == |ns| && forall i :: 0 <= i < |ns| ==> vs[i] == NodeValue(ns[i])
  {
    seq(|ns|, i requires 0 <= i < |ns| => NodeValue(ns[i]))
  }

  function GraphValue(conclusionId: string, ns: seq<SupportNode>): Value {
    VDict([Entry("conclusion", VStr(conclusionId)), Entry("premises", VList(NodeValues(SortNodes(ns))))])
  }

  /** `_graph_hash`. */
  function GraphHash(hash: Digest, conclusionId: string, ns: seq<SupportNode>): Result<string> {
    CanonicalHash(hash, GraphValue(conclusionId, ns), None)
  }

  lemma SizeOfNode(n: SupportNode)
    ensures Size(NodeValue(n)) == 5 && Height(NodeValue(n)) <= 1 && Printable(NodeValue(n), None)
  {
    MeasureLeaves(NodeValue(n).entries, None);
  }

  lemma SizeOfNodes(ns: seq<SupportNode>)
    ensures Sizes(NodeValues(ns)) == 5 * |ns| && Heights(NodeValues(ns)) <= 2 && AllPrintable(NodeValues(ns), None)
  {
    forall v | v in NodeValues(ns)
      ensures Size(v) == 5 && Height(v) <= 1 && Printable(v, None)
    {
      var i :| 0 <= i < |ns| && NodeValues(ns)[i] == v;
      SizeOfNode(ns[i]);
    }
    MeasureItems(NodeValues(ns), 5, 1, None);
  }

  lemma SizeOfGraph(id: string, ns: seq<SupportNode>)
    ensures Size(GraphValue(id, ns)) == 3 + 5 * |ns| && Height(GraphValue(id, ns)) <= 3 && Printable(GraphValue(id, ns), None)
  {
    SizeOfNodes(SortNodes(ns));
    SameMembers(SortNodes(ns), ns);
    var conclusion, premises := Entry("conclusion", VStr(id)), Entry("premises", VList(NodeValues(SortNodes(ns))));
    MeasureEntries([conclusion], premises, [], None);
    assert [conclusion] + [premises] + [] == GraphValue(id, ns).entries;
  }

  /** The anchor is computed exactly for graphs of up to 19999 premises. */
  lemma HashableExactly(hash: Digest, id: string, ns: seq<SupportNode>)
    ensures GraphHash(hash, id, ns).Ok? <==> 3 + 5 * |ns| <= MAX_NODES
  {
    SizeOfGraph(id, ns);
  }

  lemma NodeValuesAreInjective(ms: seq<SupportNode>, ns: seq<SupportNode>)
    requires NodeValues(ms) == NodeValues(ns)
    ensures ms == ns
  {
    assert |NodeValues(ms)| == |NodeValues(ns)|;
    forall i | 0 <= i < |ms|
      ensures ms[i] == ns[i]
    {
      assert NodeValues(ms)[i] == NodeValues(ns)[i];
    }
  }

  /** The hash, where it is computed, pins the conclusion and the listed premises, every authority field included. */
  lemma HashPinsGraph(hash: Digest, a: string, b: string, ms: seq<SupportNode>, ns: seq<SupportNode>)
    requires IsInjective(hash) && GraphHash(hash, a, ms).Ok?
    ensures GraphHash(hash, a, ms) == GraphHash(hash, b, ns) <==> a == b && SortNodes(ms) == SortNodes(ns)
  {
    var v, w := GraphValue(a, ms), GraphValue(b, ns);
    HashPinsValue(hash, v, w, None);
    if v == w {
      assert v.entries[0] == w.entries[0] && v.entries[1] == w.entries[1];
      NodeValuesAreInjective(SortNodes(ms), SortNodes(ns));
    }
  }

  /** The key tells nodes apart. */
  predicate KeysTell(ns: seq<SupportNode>) {
    forall m, n :: m in ns && n in ns && SameKey(m, n) ==> m == n
  }

  lemma KeyTrichotomy(m: SupportNode, n: SupportNode)
    ensures KeyLess(m, n) || KeyLess(n, m) || SameKey(m, n)
    ensures !(KeyLess(m, n) && KeyLess(n, m))
    ensures SameKey(m, n) ==> !KeyLess(m, n)
  {
    LessTotal(m.claimId, n.claimId);
    LessTotal(m.recordHash, n.recordHash);
    LessIrreflexive(m.claimId);
    LessIrreflexive(m.recordHash);
    if Less(m.claimId, n.claimId) && Less(n.claimId, m.claimId) {
      LessTransitive(m.claimId, n.claimId, m.claimId);
    }
    if Less(m.recordHash, n.recordHash) && Less(n.recordHash, m.recordHash) {
      LessTransitive(m.recordHash, n.recordHash, m.recordHash);
    }
  }

  lemma KeyLessIsOrder()
    ensures IsOrder(KeyLess)
  {
    LessIsOrder();
    forall m, n
      ensures KeyLess(m, n) ==> !KeyLess(n, m)
    {
      KeyTrichotomy(m, n);
    }
    forall a, b, c | !KeyLess(b, a) && !KeyLess(c, b)
      ensures !KeyLess(c, a)
    {
      NotLessTransitive(a, b, c);
    }
  }

  lemma NotLessTransitive(a: SupportNode, b: SupportNode, c: SupportNode)
    requires !KeyLess(b, a) && !KeyLess(c, b)
    ensures !KeyLess(c, a)
  {
    KeyTrichotomy(a, b);
    KeyTrichotomy(b, c);
    KeyTrichotomy(a, c);
    if Less(a.claimId, b.claimId) && Less(b.claimId, c.claimId) {
      LessTransitive(a.claimId, b.claimId, c.claimId);
    }
    if Less(a.recordHash, b.recordHash) && Less(b.recordHash, c.recordHash) {
      LessTransitive(a.recordHash, b.recordHash, c.recordHash);
    }
  }

  /** The nodes of one key, in order. */
  function ByKey(ns: seq<SupportNode>, k: SupportNode): seq<SupportNode> {
    if ns == [] then []
    else if SameKey(ns[0], k) then [ns[0]] + ByKey(ns[1..], k)
    else ByKey(ns[1..], k)
  }

  lemma {:induction false} ByKeyConcat(a: seq<SupportNode>, b: seq<SupportNode>, k: SupportNode)
    ensures ByKey(a + b, k) == ByKey(a, k) + ByKey(b, k)
  {
    if a == [] {
      assert a + b == b;
    } else {
      ByKeyConcat(a[1..], b, k);
      assert (a + b)[1..] == a[1..] + b;
    }
  }

  lemma {:induction false} InsertIsStable(n: SupportNode, ns: seq<SupportNode>, k: SupportNode)
    ensures ByKey(Insert(n, ns, KeyLess), k) == ByKey([n] + ns, k)
  {
    assert ([n] + ns)[1..] == ns;
    if ns == [] || !KeyLess(ns[0], n) {
    } else {
      var r := Insert(n, ns[1..], KeyLess);
      InsertIsStable(n, ns[1..], k);
      KeyTrichotomy(ns[0], n);
      assert ([ns[0]] + r)[1..] == r && ([n] + ns[1..])[1..] == ns[1..];
    }
  }

  lemma {:induction false} SortIsStable(ns: seq<SupportNode>, k: SupportNode)
    ensures ByKey(SortNodes(ns), k) == ByKey(ns, k)
  {
    if ns == [] {
    } else {
      SortIsStable(ns[1..], k);
      var r := SortNodes(ns[1..]);
      InsertIsStable(ns[0], r, k);
      assert ([ns[0]] + r)[1..] == r;
    }
  }

  /** Swapping two different nodes of one key changes the listing. */
  lemma SwapShows(p: seq<SupportNode>, x: SupportNode, q: seq<SupportNode>, y: SupportNode, r: seq<SupportNode>)
    requires SameKey(x, y) && x != y
    ensures SortNodes(p + [x] + q + [y] + r) != SortNodes(p + [y] + q + [x] + r)
  {
    SplitByKey(p, x, q, y, r, x);
    SplitByKey(p, y, q, x, r, x);
    SortIsStable(p + [x] + q + [y] + r, x);
    SortIsStable(p + [y] + q + [x] + r, x);
    assert ByKey(p + [x] + q + [y] + r, x)[|ByKey(p, x)|] == x;
    assert ByKey(p + [y] + q + [x] + r, x)[|ByKey(p, x)|] == y;
  }

  lemma SplitByKey(p: seq<SupportNode>, x: SupportNode, q: seq<SupportNode>, y: SupportNode, r: seq<SupportNode>, k: SupportNode)
    requires SameKey(x, k) && SameKey(y, k)
    ensures ByKey(p + [x] + q + [y] + r, k) == ByKey(p, k) + [x] + ByKey(q, k) + [y] + ByKey(r, k)
  {
    ByKeyConcat(p + [x] + q + [y], r, k);
    ByKeyAppend(p + [x] + q, y, k);
    ByKeyConcat(p + [x], q, k);
    ByKeyAppend(p, x, k);
  }

  lemma ByKeyAppend(p: seq<SupportNode>, x: SupportNode, k: SupportNode)
    requires SameKey(x, k)
    ensures ByKey(p + [x], k) == ByKey(p, k) + [x]
  {
    ByKeyConcat(p, [x], k);
    assert [x][1..] == [];
  }

  /** Every reordering of the premises leads to the same hash. */
  ghost predicate OrderFree(hash: Digest, id: string, ns: seq<SupportNode>) {
    forall ms :: multiset(ms) == multiset(ns) ==> GraphHash(hash, id, ms) == GraphHash(hash, id, ns)
  }

  lemma TellingKeysSortAlike(ms: seq<SupportNode>, ns: seq<SupportNode>)
    requires multiset(ms) == multiset(ns) && KeysTell(ns)
    ensures SortNodes(ms) == SortNodes(ns)
  {
    KeyLessIsOrder();
    SortIsSorted(ms, KeyLess);
    SortIsSorted(ns, KeyLess);
    SortedMembers(ns, KeyLess);
    forall m, n | m in ns && n in ns && !KeyLess(m, n) && !KeyLess(n, m)
      ensures m == n
    {
      KeyTrichotomy(m, n);
    }
    SortedIsUnique(SortNodes(ns), SortNodes(ms), KeyLess);
  }

  /** Two different nodes of one key give a reordering that is listed differently. */
  lemma ClashingKeysSortApart(ns: seq<SupportNode>, i: nat, j: nat) returns (ms: seq<SupportNode>)
    requires i < j < |ns| && SameKey(ns[i], ns[j]) && ns[i] != ns[j]
    ensures multiset(ms) == multiset(ns) && SortNodes(ms) != SortNodes(ns)
  {
    var x, y := ns[i], ns[j];
    var p, q, r := ns[..i], ns[i + 1..j], ns[j + 1..];
    ms := p + [y] + q + [x] + r;
    assert ns == p + [x] + q + [y] + r;
    SwapShows(p, x, q, y, r);
  }

  /** The hash is independent of the order of premises exactly when no two share claim id and record hash yet differ, or there is none. */
  lemma OrderFreeExactly(hash: Digest, id: string, ns: seq<SupportNode>)
    requires IsInjective(hash)
    ensures OrderFree(hash, id, ns) <==> KeysTell(ns) || GraphHash(hash, id, ns).Raised?
  {
    if KeysTell(ns) {
      forall ms: seq<SupportNode> | multiset(ms) == multiset(ns)
        ensures GraphHash(hash, id, ms) == GraphHash(hash, id, ns)
      {
        TellingKeysSortAlike(ms, ns);
      }
    } else if GraphHash(hash, id, ns).Raised? {
      forall ms: seq<SupportNode> | multiset(ms) == multiset(ns)
        ensures GraphHash(hash, id, ms) == GraphHash(hash, id, ns)
      {
        SameMembers(ms, ns);
        HashableExactly(hash, id, ms);
        HashableExactly(hash, id, ns);
      }
    } else {
      var x, y :| x in ns && y in ns && SameKey(x, y) && x != y;
      var i :| 0 <= i < |ns| && ns[i] == x;
      var j :| 0 <= j < |ns| && ns[j] == y;
      var ms := ClashingKeysSortApart(ns, if i < j then i else j, if i < j then j else i);
      HashPinsGraph(hash, id, id, ns, ms);
    }
  }

  lemma PairSortsApart(m: SupportNode, n: SupportNode)
    requires SameKey(m, n) && m != n
    ensures SortNodes([m, n]) != SortNodes([n, m])
  {
    SortIsStable([m, n], m);
    SortIsStable([n, m], m);
    PairByKey(m, n, m);
    PairByKey(n, m, m);
    assert [m, n][0] == m && [n, m][0] == n;
  }

  lemma PairByKey(m: SupportNode, n: SupportNode, k: SupportNode)
    requires SameKey(m, k) && SameKey(n, k)
    ensures ByKey([m, n], k) == [m, n]
  {
    assert [m, n][1..] == [n] && [n][1..] == [];
    assert ByKey([n], k) == [n] + ByKey([], k);
  }

  lemma SortedApartHashApart(hash: Digest, id: string, ms: seq<SupportNode>, ns: seq<SupportNode>)
    requires IsInjective(hash) && SortNodes(ms) != SortNodes(ns) && |ms| == 2
    ensures GraphHash(hash, id, ms).Ok? && GraphHash(hash, id, ms) != GraphHash(hash, id, ns)
  {
    HashableExactly(hash, id, ms);
    HashPinsGraph(hash, id, id, ms, ns);
  }

  /** Two premises of one claim and record, VERIFIED and CONTESTED: listed the other way round they hash apart. */
  lemma ClashingPremisesHashApart(hash: Digest, m: SupportNode, n: SupportNode)
    requires IsInjective(hash) && m == SupportNode("p", Verified, true, "r") && n == SupportNode("p", Contested, true, "r")
    ensures GraphHash(hash, "c", [m, n]).Ok? && GraphHash(hash, "c", [m, n]) != GraphHash(hash, "c", [n, m])
  {
    PairSortsApart(m, n);
    SortedApartHashApart(hash, "c", [m, n], [n, m]);
  }
}
