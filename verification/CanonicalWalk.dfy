/** The guarded walk over live objects of glass_ionomer/_canonical.py. */
module CanonicalWalk {
  import opened Wrappers
  import opened Sequences
  import opened Sorting
  import opened Lexicographic
  import opened JsonText
  import opened CanonicalValues
  import opened CanonicalReader

  const MAX_CONFIGURED_NODES := 1_000_000

  /** A Python value: an immediate, or a reference to a container that others may share. */
  datatype Val =
    | PNone
    | PBool(b: bool)
    | PInt(i: int)
    | PFloat(hex: Option<string>)
    | PStr(s: string)
    | Unsupported
    | Ref(r: nat)

  /** A dictionary item; the key may be anything hashable. */
  datatype Pair = Pair(key: Val, value: Val)

  datatype Cell = ListCell(items: seq<Val>) | TupleCell(items: seq<Val>) | DictCell(pairs: seq<Pair>)

  type Heap = map<nat, Cell>

  /** References lead to containers. */
  predicate InHeap(h: Heap, v: Val) {
    v.Ref? ==> v.r in h
  }

  predicate TextKeys(ps: seq<Pair>) {
    forall p :: p in ps ==> p.key.PStr?
  }

  function KeyText(p: Pair): string {
    if p.key.PStr? then p.key.s else ""
  }

  predicate KeyBefore(p: Pair, q: Pair) {
    Less(KeyText(p), KeyText(q))
  }

  /** The items in the order of `sorted(value)`. */
  function Sorted(ps: seq<Pair>): (r: seq<Pair>)
    ensures (forall q :: q in r <==> q in ps) && TextKeys(r) == TextKeys(ps)
  {
    SortedMembers(ps, KeyBefore);
    Sort(ps, KeyBefore)
  }

  function ValuesOf(ps: seq<Pair>): (vs: seq<Val>)
    ensures |vs| == |ps| && forall i :: 0 <= i < |ps| ==> vs[i] == ps[i].value
  {
    seq(|ps|, i requires 0 <= i < |ps| => ps[i].value)
  }

  /** The values a container holds. */
  function Contents(c: Cell): seq<Val> {
    if c.DictCell? then ValuesOf(c.pairs) else c.items
  }

  ghost predicate Closed(h: Heap) {
    forall r, c :: r in h && c in Contents(h[r]) ==> InHeap(h, c)
  }

  /** The tree that `v` denotes in `h`: sharing is unfolded, so a cyclic object denotes no tree. */
  ghost predicate Unfolds(h: Heap, v: Val, t: Value)
    decreases t, 1
  {
    match t
    case VNone => v == PNone
    case VBool(b) => v == PBool(b)
    case VInt(i) => v == PInt(i)
    case VFloat(hex) => v == PFloat(Some(hex))
    case VStr(s) => v == PStr(s)
    case VList(items) => v.Ref? && v.r in h && h[v.r].ListCell? && UnfoldsAll(h, h[v.r].items, items)
    case VTuple(items) => v.Ref? && v.r in h && h[v.r].TupleCell? && UnfoldsAll(h, h[v.r].items, items)
    case VDict(entries) =>
      && v.Ref? && v.r in h && h[v.r].DictCell?
      && TextKeys(h[v.r].pairs) && UnfoldsEntries(h, Sorted(h[v.r].pairs), entries)
  }

  ghost predicate UnfoldsAll(h: Heap, vs: seq<Val>, ts: seq<Value>)
    decreases ts, 0
  {
    |vs| == |ts| && (ts != [] ==> Unfolds(h, vs[0], ts[0]) && UnfoldsAll(h, vs[1..], ts[1..]))
  }

  ghost predicate UnfoldsEntries(h: Heap, ps: seq<Pair>, es: seq<Entry>)
    decreases es, 0
  {
    |ps| == |es|
    && (es != [] ==> ps[0].key == PStr(es[0].key) && Unfolds(h, ps[0].value, es[0].value)
                     && UnfoldsEntries(h, ps[1..], es[1..]))
  }

  lemma {:induction false} UnfoldingIsUnique(h: Heap, v: Val, t: Value, u: Value)
    requires Unfolds(h, v, t) && Unfolds(h, v, u)
    ensures t == u
    decreases t, 1
  {
    match t
    case VList(items) => AllUnfoldingsAreUnique(h, h[v.r].items, items, u.items);
    case VTuple(items) => AllUnfoldingsAreUnique(h, h[v.r].items, items, u.items);
    case VDict(entries) => EntryUnfoldingsAreUnique(h, Sorted(h[v.r].pairs), entries, u.entries);
    case _ =>
  }

  lemma {:induction false} AllUnfoldingsAreUnique(h: Heap, vs: seq<Val>, ts: seq<Value>, us: seq<Value>)
    requires UnfoldsAll(h, vs, ts) && UnfoldsAll(h, vs, us)
    ensures ts == us
    decreases ts, 0
  {
    if ts == [] {
    } else {
      UnfoldingIsUnique(h, vs[0], ts[0], us[0]);
      AllUnfoldingsAreUnique(h, vs[1..], ts[1..], us[1..]);
      SameParts(ts, us);
    }
  }

  lemma {:induction false} EntryUnfoldingsAreUnique(h: Heap, ps: seq<Pair>, ts: seq<Entry>, us: seq<Entry>)
    requires UnfoldsEntries(h, ps, ts) && UnfoldsEntries(h, ps, us)
    ensures ts == us
    decreases ts, 0
  {
    if ts == [] {
    } else {
      UnfoldingIsUnique(h, ps[0].value, ts[0].value, us[0].value);
      EntryUnfoldingsAreUnique(h, ps[1..], ts[1..], us[1..]);
      SameParts(ts, us);
    }
  }

  /** Container `a` holds, `n` containers down, the value `v`. */
  ghost predicate LeadsIn(h: Heap, a: nat, v: Val, n: nat)
    decreases n
  {
    a in h && exists c :: c in Contents(h[a]) && if n == 0 then c == v else c.Ref? && LeadsIn(h, c.r, v, n - 1)
  }

  ghost predicate Leads(h: Heap, a: nat, v: Val) {
    exists n: nat :: LeadsIn(h, a, v, n)
  }

  lemma {:induction false} LeadsFurther(h: Heap, a: nat, r: nat, c: Val, n: nat)
    requires LeadsIn(h, a, Ref(r), n) && r in h && c in Contents(h[r])
    ensures LeadsIn(h, a, c, n + 1)
    decreases n
  {
    var d :| d in Contents(h[a]) && if n == 0 then d == Ref(r) else d.Ref? && LeadsIn(h, d.r, Ref(r), n - 1);
    if n == 0 {
      assert LeadsIn(h, r, c, 0);
    } else {
      LeadsFurther(h, d.r, r, c, n - 1);
    }
  }

  lemma {:induction false} PartUnfolds(h: Heap, vs: seq<Val>, ts: seq<Value>, c: Val) returns (t: Value)
    requires UnfoldsAll(h, vs, ts) && c in vs
    ensures Unfolds(h, c, t) && Size(t) <= Sizes(ts)
  {
    if c == vs[0] {
      t := ts[0];
    } else {
      t := PartUnfolds(h, vs[1..], ts[1..], c);
    }
  }

  lemma {:induction false} EntryUnfolds(h: Heap, ps: seq<Pair>, es: seq<Entry>, p: Pair) returns (t: Value)
    requires UnfoldsEntries(h, ps, es) && p in ps
    ensures Unfolds(h, p.value, t) && Size(t) <= EntrySizes(es)
  {
    if p == ps[0] {
      t := es[0].value;
    } else {
      t := EntryUnfolds(h, ps[1..], es[1..], p);
    }
  }

  /** What a container holds unfolds to a smaller tree. */
  lemma ContentUnfolds(h: Heap, a: nat, t: Value, c: Val) returns (u: Value)
    requires a in h && Unfolds(h, Ref(a), t) && c in Contents(h[a])
    ensures Unfolds(h, c, u) && Size(u) < Size(t)
  {
    match h[a]
    case ListCell(items) => u := PartUnfolds(h, items, t.items, c);
    case TupleCell(items) => u := PartUnfolds(h, items, t.items, c);
    case DictCell(pairs) =>
      var i :| 0 <= i < |pairs| && pairs[i].value == c;
      assert pairs[i] in pairs;
      u := EntryUnfolds(h, Sorted(pairs), t.entries, pairs[i]);
  }

  lemma {:induction false} LedToUnfolds(h: Heap, a: nat, t: Value, v: Val, n: nat) returns (u: Value)
    requires a in h && Unfolds(h, Ref(a), t) && LeadsIn(h, a, v, n)
    ensures Unfolds(h, v, u) && Size(u) < Size(t)
    decreases n
  {
    var c :| c in Contents(h[a]) && if n == 0 then c == v else c.Ref? && LeadsIn(h, c.r, v, n - 1);
    u := ContentUnfolds(h, a, t, c);
    if n == 0 {
    } else {
      u := LedToUnfolds(h, c.r, u, v, n - 1);
    }
  }

  /** A container that leads back to itself denotes no tree. */
  lemma CycleHasNoUnfolding(h: Heap, a: nat, t: Value)
    requires Leads(h, a, Ref(a))
    ensures !Unfolds(h, Ref(a), t)
  {
    if Unfolds(h, Ref(a), t) {
      var n: nat :| LeadsIn(h, a, Ref(a), n);
      var u := LedToUnfolds(h, a, t, Ref(a), n);
      UnfoldingIsUnique(h, Ref(a), t, u);
    }
  }

  /** A chain of containers, each among the contents of the one before, without repetition. */
  ghost predicate IsPath(h: Heap, path: seq<nat>) {
    && (forall i :: 0 <= i < |path| ==> path[i] in h)
    && (forall i, j :: 0 <= i < j < |path| ==> path[i] != path[j])
    && (forall i, j :: 0 <= i && j == i + 1 < |path| ==> Ref(path[j]) in Contents(h[path[i]]))
  }

  /** `v` is what the containers of `path` lead to, the last of them directly. */
  ghost predicate IsPathTo(h: Heap, path: seq<nat>, v: Val) {
    IsPath(h, path) && (path != [] ==> v in Contents(h[path[|path| - 1]]))
  }

  lemma {:induction false} PathLeads(h: Heap, path: seq<nat>, v: Val, i: nat)
    requires IsPathTo(h, path, v) && i < |path|
    ensures Leads(h, path[i], v)
    decreases |path|
  {
    var last := |path| - 1;
    if i == last {
      assert LeadsIn(h, path[i], v, 0);
    } else {
      PathLeads(h, path[..last], Ref(path[last]), i);
      var n: nat :| LeadsIn(h, path[i], Ref(path[last]), n);
      LeadsFurther(h, path[i], path[last], v, n);
    }
  }

  function Elements(path: seq<nat>): set<nat> {
    set r | r in path
  }

  lemma DictUnfolds(h: Heap, a: nat, t: Value)
    requires a in h && h[a].DictCell?
    ensures Unfolds(h, Ref(a), t)
            <==> t.VDict? && TextKeys(h[a].pairs) && UnfoldsEntries(h, Sorted(h[a].pairs), t.entries)
  {
  }

  /** The shared state of one serialisation: the containers being visited and the nodes counted so far. */
  class Walk {
    var seen: set<nat>
    var nodes: nat
    const maxNodes: nat
    const maxDigits: Option<nat>

    constructor (maxNodes: nat, maxDigits: Option<nat>)
      ensures seen == {} && nodes == 0 && this.maxNodes == maxNodes && this.maxDigits == maxDigits
    {
      seen, nodes := {}, 0;
      this.maxNodes, this.maxDigits := maxNodes, maxDigits;
    }

    /** The containers being visited are exactly those of `path`, which leads to `v`. */
    ghost predicate Visiting(h: Heap, path: seq<nat>, v: Val)
      reads this
    {
      seen == Elements(path) && IsPathTo(h, path, v)
    }

    /**
     Succeeds exactly on values that denote a tree within all limits. The containers being visited are exactly
     those on the way to `v`, before and after, and a value among them is refused at once.
    */
    method Normalize(h: Heap, v: Val, depth: nat, ghost path: seq<nat>) returns (r: Result<Json>, ghost t: Value)
      requires Closed(h) && InHeap(h, v) && Visiting(h, path, v) && depth == |path|
      modifies this
      ensures seen == old(seen) && Visiting(h, path, v)
      ensures v.Ref? && v.r in path ==> r.Raised? && nodes == old(nodes) + 1
      ensures r.Ok? ==> Unfolds(h, v, t) && r.value == Norm(t) && Printable(t, maxDigits)
                        && nodes == old(nodes) + Size(t) <= maxNodes && depth + Height(t) <= MAX_DEPTH
      ensures r.Raised? ==> forall u :: Unfolds(h, v, u) && Printable(u, maxDigits)
                              ==> old(nodes) + Size(u) > maxNodes || depth + Height(u) > MAX_DEPTH
      decreases MAX_DEPTH + 1 - depth, 1, 0
    {
      t := VNone;
      nodes := nodes + 1;
      if nodes > maxNodes || depth > MAX_DEPTH {
        return Raised, t;
      }
      match v
      case PNone => return Ok(Tagged("null", JNull)), VNone;
      case PBool(b) => return Ok(Tagged("bool", JBool(b))), VBool(b);
      case PInt(i) =>
        if !IsPrintable(i, maxDigits) {
          return Raised, t;
        }
        return Ok(Tagged("int", JString(Decimal(i)))), VInt(i);
      case PFloat(hex) =>
        if hex.None? {
          return Raised, t;
        }
        return Ok(Tagged("float", JString(hex.value))), VFloat(hex.value);
      case PStr(s) => return Ok(Tagged("str", JString(s))), VStr(s);
      case Unsupported => return Raised, t;
      case Ref(identity) =>
        if identity in seen {
          RevisitHasNoUnfolding(h, path, identity);
          return Raised, t;
        }
        r, t := NormalizeContainer(h, identity, depth, path);
    }

    /** Marks the container as being visited for as long as its contents are. */
    method NormalizeContainer(h: Heap, identity: nat, depth: nat, ghost path: seq<nat>) returns (r: Result<Json>, ghost t: Value)
      requires Closed(h) && identity in h && identity !in seen && Visiting(h, path, Ref(identity)) && depth == |path|
      requires nodes <= maxNodes && depth <= MAX_DEPTH
      modifies this
      ensures seen == old(seen)
      ensures r.Ok? ==> Unfolds(h, Ref(identity), t) && r.value == Norm(t) && Printable(t, maxDigits)
                        && nodes + 1 == old(nodes) + Size(t) && nodes <= maxNodes && depth + Height(t) <= MAX_DEPTH
      ensures r.Raised? ==> forall u :: Unfolds(h, Ref(identity), u) && Printable(u, maxDigits)
                              ==> old(nodes) + Size(u) > maxNodes + 1 || depth + Height(u) > MAX_DEPTH
      decreases MAX_DEPTH + 1 - depth, 0, 2
    {
      seen := seen + {identity};
      r, t := NormalizeContents(h, identity, depth, path + [identity]);
      seen := seen - {identity};
      assert seen == old(seen);
    }

    /** Requires the container to be marked: it ends the path to its own contents. */
    method NormalizeContents(h: Heap, identity: nat, depth: nat, ghost path: seq<nat>) returns (r: Result<Json>, ghost t: Value)
      requires Closed(h) && seen == Elements(path) && IsPath(h, path)
      requires depth + 1 == |path| && path[depth] == identity
      requires nodes <= maxNodes && depth <= MAX_DEPTH
      modifies this
      ensures seen == old(seen)
      ensures r.Ok? ==> Unfolds(h, Ref(identity), t) && r.value == Norm(t) && Printable(t, maxDigits)
                        && nodes + 1 == old(nodes) + Size(t) && nodes <= maxNodes && depth + Height(t) <= MAX_DEPTH
      ensures r.Raised? ==> forall u :: Unfolds(h, Ref(identity), u) && Printable(u, maxDigits)
                              ==> old(nodes) + Size(u) > maxNodes + 1 || depth + Height(u) > MAX_DEPTH
      decreases MAX_DEPTH + 1 - depth, 0, 1
    {
      t := VNone;
      match h[identity]
      case ListCell(items) =>
        var js;
        ghost var ts;
        js, ts := NormalizeAll(h, items, depth, path);
        t := VList(ts);
        return if js.Ok? then Ok(Tagged("list", JArray(js.value))) else Raised, t;
      case TupleCell(items) =>
        var js;
        ghost var ts;
        js, ts := NormalizeAll(h, items, depth, path);
        t := VTuple(ts);
        return if js.Ok? then Ok(Tagged("tuple", JArray(js.value))) else Raised, t;
      case DictCell(_) =>
        r, t := NormalizeDict(h, identity, depth, path);
    }

    method NormalizeDict(h: Heap, identity: nat, depth: nat, ghost path: seq<nat>) returns (r: Result<Json>, ghost t: Value)
      requires Closed(h) && seen == Elements(path) && IsPath(h, path)
      requires depth + 1 == |path| && path[depth] == identity && h[identity].DictCell?
      requires nodes <= maxNodes && depth <= MAX_DEPTH
      modifies this
      ensures seen == old(seen)
      ensures r.Ok? ==> Unfolds(h, Ref(identity), t) && r.value == Norm(t) && Printable(t, maxDigits)
                        && nodes + 1 == old(nodes) + Size(t) && nodes <= maxNodes && depth + Height(t) <= MAX_DEPTH
      ensures r.Raised? ==> forall u :: Unfolds(h, Ref(identity), u) && Printable(u, maxDigits)
                              ==> old(nodes) + Size(u) > maxNodes + 1 || depth + Height(u) > MAX_DEPTH
      decreases MAX_DEPTH + 1 - depth, 0, 0
    {
      t := VNone;
      var pairs := h[identity].pairs;
      forall u
        ensures Unfolds(h, Ref(identity), u)
                <==> u.VDict? && TextKeys(pairs) && UnfoldsEntries(h, Sorted(pairs), u.entries)
      {
        DictUnfolds(h, identity, u);
      }
      if !TextKeys(pairs) {
        return Raised, t;
      }
      var js;
      ghost var es;
      js, es := NormalizeEntries(h, Sorted(pairs), depth, path);
      t := VDict(es);
      r := if js.Ok? then Ok(Tagged("dict", JArray(js.value))) else Raised;
    }

    method NormalizeAll(h: Heap, vs: seq<Val>, depth: nat, ghost path: seq<nat>) returns (r: Result<seq<Json>>, ghost ts: seq<Value>)
      requires Closed(h) && seen == Elements(path) && IsPath(h, path) && depth + 1 == |path|
      requires forall c :: c in vs ==> c in Contents(h[path[depth]])
      requires nodes <= maxNodes && depth <= MAX_DEPTH
      modifies this
      ensures seen == old(seen)
      ensures r.Ok? ==> UnfoldsAll(h, vs, ts) && r.value == NormAll(ts) && AllPrintable(ts, maxDigits)
                        && nodes == old(nodes) + Sizes(ts) <= maxNodes && depth + Heights(ts) <= MAX_DEPTH
      ensures r.Raised? ==> forall us :: UnfoldsAll(h, vs, us) && AllPrintable(us, maxDigits)
                              ==> old(nodes) + Sizes(us) > maxNodes || depth + Heights(us) > MAX_DEPTH
      decreases MAX_DEPTH - depth, 2, |vs|
    {
      if vs == [] {
        return Ok([]), [];
      }
      ts := [];
      var first;
      ghost var t;
      assert vs[0] in Contents(h[path[depth]]);
      first, t := Normalize(h, vs[0], depth + 1, path);
      if first.Raised? {
        return Raised, ts;
      }
      r, ts := NormalizeAll(h, vs[1..], depth, path);
      if r.Raised? {
        forall us: seq<Value> | UnfoldsAll(h, vs, us) && AllPrintable(us, maxDigits)
          ensures old(nodes) + Sizes(us) > maxNodes || depth + Heights(us) > MAX_DEPTH
        {
          UnfoldingIsUnique(h, vs[0], t, us[0]);
        }
        return;
      }
      r, ts := Ok([first.value] + r.value), [t] + ts;
    }

    method NormalizeEntries(h: Heap, ps: seq<Pair>, depth: nat, ghost path: seq<nat>) returns (r: Result<seq<Json>>, ghost es: seq<Entry>)
      requires Closed(h) && TextKeys(ps) && seen == Elements(path) && IsPath(h, path) && depth + 1 == |path|
      requires forall p :: p in ps ==> p.value in Contents(h[path[depth]])
      requires nodes <= maxNodes && depth <= MAX_DEPTH
      modifies this
      ensures seen == old(seen)
      ensures r.Ok? ==> UnfoldsEntries(h, ps, es) && r.value == NormEntries(es) && EntriesPrintable(es, maxDigits)
                        && nodes == old(nodes) + EntrySizes(es) <= maxNodes && depth + EntryHeights(es) <= MAX_DEPTH
      ensures r.Raised? ==> forall us :: UnfoldsEntries(h, ps, us) && EntriesPrintable(us, maxDigits)
                              ==> old(nodes) + EntrySizes(us) > maxNodes || depth + EntryHeights(us) > MAX_DEPTH
      decreases MAX_DEPTH - depth, 2, |ps|
    {
      if ps == [] {
        return Ok([]), [];
      }
      es := [];
      var first;
      ghost var t;
      assert ps[0] in ps;
      first, t := Normalize(h, ps[0].value, depth + 1, path);
      if first.Raised? {
        return Raised, es;
      }
      r, es := NormalizeEntries(h, ps[1..], depth, path);
      if r.Raised? {
        forall us: seq<Entry> | UnfoldsEntries(h, ps, us) && EntriesPrintable(us, maxDigits)
          ensures old(nodes) + EntrySizes(us) > maxNodes || depth + EntryHeights(us) > MAX_DEPTH
        {
          UnfoldingIsUnique(h, ps[0].value, t, us[0].value);
        }
        return;
      }
      r := Ok([JArray([JString(ps[0].key.s), first.value])] + r.value);
      es := [Entry(ps[0].key.s, t)] + es;
    }
  }

  /** A container met again on the way to itself denotes no tree. */
  lemma RevisitHasNoUnfolding(h: Heap, path: seq<nat>, identity: nat)
    requires IsPathTo(h, path, Ref(identity)) && identity in path
    ensures forall u :: !Unfolds(h, Ref(identity), u)
  {
    var i :| 0 <= i < |path| && path[i] == identity;
    PathLeads(h, path, Ref(identity), i);
    forall u
      ensures !Unfolds(h, Ref(identity), u)
    {
      CycleHasNoUnfolding(h, identity, u);
    }
  }

  /** A list that holds another one twice denotes a tree with two copies of it. */
  lemma SharedIsCopied(items: seq<Value>, h: Heap)
    requires h == map[0 := ListCell([Ref(1), Ref(1)]), 1 := ListCell([PNone])] && items == [VList([VNone]), VList([VNone])]
    ensures Closed(h) && Unfolds(h, Ref(0), VList(items))
  {
    assert UnfoldsAll(h, [PNone], [VNone]) && UnfoldsAll(h, [Ref(1)], [VList([VNone])]);
    assert [Ref(1), Ref(1)][1..] == [Ref(1)] && items[1..] == [VList([VNone])];
  }

  /** A list that holds itself may well be given, and denotes no tree. */
  lemma SelfHeldIsRefused(h: Heap, t: Value)
    requires h == map[0 := ListCell([Ref(0)])]
    ensures Closed(h) && InHeap(h, Ref(0)) && !Unfolds(h, Ref(0), t)
  {
    assert Ref(0) in Contents(h[0]) && LeadsIn(h, 0, Ref(0), 0);
    CycleHasNoUnfolding(h, 0, t);
  }

  /** `canonical_dumps`: the text of the value's tree, or a refusal. */
  method CanonicalDumps(h: Heap, v: Val, maxNodes: int, maxDigits: Option<nat>) returns (r: Result<string>, ghost t: Value)
    requires Closed(h) && InHeap(h, v)
    ensures r.Ok? ==> 1 <= maxNodes <= 1_000_000 && Unfolds(h, v, t) && r.value == CanonicalText(t) && ReadText(r.value) == Some(t)
                      && Size(t) <= maxNodes && Height(t) <= 600 && Printable(t, maxDigits)
    ensures r.Raised? ==>
              !(1 <= maxNodes <= 1_000_000)
              || forall u :: Unfolds(h, v, u) ==> Size(u) > maxNodes || Height(u) > 600 || !Printable(u, maxDigits)
    ensures maxNodes == 100_000 ==> forall u :: Unfolds(h, v, u) ==> (r.Ok? <==> IsSerialisable(u, maxDigits))
  {
    t := VNone;
    if !(1 <= maxNodes <= MAX_CONFIGURED_NODES) {
      return Raised, t;
    }
    var walk := new Walk(maxNodes, maxDigits);
    var normalized;
    normalized, t := walk.Normalize(h, v, 0, []);
    if normalized.Ok? {
      CanonicalTextReadsBack(t);
      forall u | Unfolds(h, v, u)
        ensures u == t
      {
        UnfoldingIsUnique(h, v, t, u);
      }
    }
    r := if normalized.Ok? then Ok(Render(normalized.value)) else Raised;
  }

  /** A dictionary has no two items with one key. */
  predicate NoRepeats(ps: seq<Pair>) {
    forall i, j :: 0 <= i < j < |ps| ==> ps[i].key != ps[j].key
  }

  /** The insertion order of a dictionary does not reach its tree, and hence not its text. */
  lemma InsertionOrderIsIrrelevant(h: Heap, a: nat, b: nat, t: Value)
    requires a in h && b in h && h[a].DictCell? && h[b].DictCell?
    requires NoRepeats(h[a].pairs) && NoRepeats(h[b].pairs)
    requires forall p :: p in h[a].pairs <==> p in h[b].pairs
    ensures Unfolds(h, Ref(a), t) <==> Unfolds(h, Ref(b), t)
  {
    DictUnfolds(h, a, t);
    DictUnfolds(h, b, t);
    if TextKeys(h[a].pairs) {
      SortedAlike(h[a].pairs, h[b].pairs);
    }
  }

  lemma SortedAlike(ps: seq<Pair>, qs: seq<Pair>)
    requires TextKeys(ps) && NoRepeats(ps) && NoRepeats(qs) && forall p :: p in ps <==> p in qs
    ensures Sorted(ps) == Sorted(qs)
  {
    LessIsOrder();
    SortIsSorted(ps, KeyBefore);
    SortIsSorted(qs, KeyBefore);
    SameCounts(ps, qs);
    SortedIsUnique(Sorted(ps), Sorted(qs), KeyBefore);
  }

  lemma {:induction false} EntryKeys(h: Heap, ps: seq<Pair>, es: seq<Entry>)
    requires UnfoldsEntries(h, ps, es)
    ensures |ps| == |es| && forall i :: 0 <= i < |ps| ==> ps[i].key == PStr(es[i].key)
  {
    if es == [] {
    } else {
      EntryKeys(h, ps[1..], es[1..]);
      forall i | 0 <= i < |ps|
        ensures ps[i].key == PStr(es[i].key)
      {
        if i > 0 {
          assert ps[i] == ps[1..][i - 1] && es[i] == es[1..][i - 1];
        }
      }
    }
  }

  /** The tree of a dictionary lists its items by increasing key, and all of them. */
  lemma DictionaryIsIncreasing(h: Heap, a: nat, t: Value)
    requires a in h && h[a].DictCell? && NoRepeats(h[a].pairs) && Unfolds(h, Ref(a), t)
    ensures t.VDict? && |t.entries| == |h[a].pairs|
    ensures forall i, j :: 0 <= i < j < |t.entries| ==> Less(t.entries[i].key, t.entries[j].key)
    ensures forall p :: p in h[a].pairs ==> p.key.PStr? && exists i :: 0 <= i < |t.entries| && p.key == PStr(t.entries[i].key)
  {
    var ps := h[a].pairs;
    var sorted := Sorted(ps);
    EntryKeys(h, sorted, t.entries);
    SortedMembers(ps, KeyBefore);
    SortedKeysIncrease(ps);
    forall p | p in ps
      ensures exists i :: 0 <= i < |t.entries| && p.key == PStr(t.entries[i].key)
    {
      assert p in sorted;
      var i :| 0 <= i < |sorted| && sorted[i] == p;
    }
  }

  lemma SortedKeysIncrease(ps: seq<Pair>)
    requires TextKeys(ps) && NoRepeats(ps)
    ensures forall i, j :: 0 <= i < j < |Sorted(ps)| ==> Less(KeyText(Sorted(ps)[i]), KeyText(Sorted(ps)[j]))
  {
    LessIsOrder();
    SortIsSorted(ps, KeyBefore);
    SortKeepsDistinct(ps);
  }

  lemma SortKeepsDistinct(ps: seq<Pair>)
    requires TextKeys(ps) && NoRepeats(ps)
    ensures NoRepeats(Sorted(ps)) && TextKeys(Sorted(ps))
  {
    var sorted := Sorted(ps);
    SameMembers(sorted, ps);
    CountedOnce(ps);
    forall i, j | 0 <= i < j < |sorted|
      ensures sorted[i].key != sorted[j].key
    {
      if sorted[i] == sorted[j] {
        CountedTwice(sorted, i, j);
      } else {
        var k, l :| 0 <= k < |ps| && ps[k] == sorted[i] && 0 <= l < |ps| && ps[l] == sorted[j];
        assert k != l;
      }
    }
  }
}
