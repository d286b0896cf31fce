/** The type-preserving normal form of glass_ionomer/_canonical.py, and its injectivity. */
module CanonicalValues {
  import opened Wrappers
  import opened Sequences
  import opened JsonText
  import opened Numbers

  /**
   A supported Python value as a tree. A float is known by the text `float.hex` gives it; a dictionary is a
   map from strings, written as its entries in increasing order of key.
  */
  datatype Value =
    | VNone
    | VBool(b: bool)
    | VInt(i: int)
    | VFloat(hex: string)
    | VStr(s: string)
    | VList(items: seq<Value>)
    | VTuple(items: seq<Value>)
    | VDict(entries: seq<Entry>)

  datatype Entry = Entry(key: string, value: Value)

  function Digit(n: nat): char
    requires n < 10
  {
    "0123456789"[n]
  }

  function Digits(n: nat): (s: string)
    ensures s != [] && s[0] != '-'
  {
    if n < 10 then [Digit(n)] else Digits(n / 10) + [Digit(n % 10)]
  }

  /** Python's `str` of an integer. */
  function Decimal(i: int): string {
    if i < 0 then "-" + Digits(-i) else Digits(i)
  }

  lemma {:induction false} DigitsAreInjective(m: nat, n: nat)
    requires Digits(m) == Digits(n)
    ensures m == n
  {
    var s, t := Digits(m), Digits(n);
    assert s[|s| - 1] == Digit(m % 10) && t[|t| - 1] == Digit(n % 10);
    if m >= 10 && n >= 10 {
      assert s[..|s| - 1] == Digits(m / 10) && t[..|t| - 1] == Digits(n / 10);
      DigitsAreInjective(m / 10, n / 10);
    } else {
      assert m >= 10 ==> |s| >= 2;
      assert n >= 10 ==> |t| >= 2;
    }
  }

  lemma DecimalIsInjective(i: int, j: int)
    requires Decimal(i) == Decimal(j)
    ensures i == j
  {
    assert Decimal(i)[0] == '-' <==> i < 0;
    assert Decimal(j)[0] == '-' <==> j < 0;
    if i < 0 {
      assert Decimal(i)[1..] == Digits(-i) && Decimal(j)[1..] == Digits(-j);
      DigitsAreInjective(-i, -j);
    } else {
      DigitsAreInjective(i, j);
    }
  }

  function Tagged(tag: string, payload: Json): Json {
    JArray([JString(tag), payload])
  }

  function Norm(v: Value): Json
    decreases v, 1
  {
    match v
    case VNone => Tagged("null", JNull)
    case VBool(b) => Tagged("bool", JBool(b))
    case VInt(i) => Tagged("int", JString(Decimal(i)))
    case VFloat(hex) => Tagged("float", JString(hex))
    case VStr(s) => Tagged("str", JString(s))
    case VList(items) => Tagged("list", JArray(NormAll(items)))
    case VTuple(items) => Tagged("tuple", JArray(NormAll(items)))
    case VDict(entries) => Tagged("dict", JArray(NormEntries(entries)))
  }

  function NormAll(vs: seq<Value>): (js: seq<Json>)
    ensures |js| == |vs|
    decreases vs, 0
  {
    if vs == [] then [] else [Norm(vs[0])] + NormAll(vs[1..])
  }

  function NormEntries(es: seq<Entry>): (js: seq<Json>)
    ensures |js| == |es|
    decreases es, 0
  {
    if es == [] then [] else [JArray([JString(es[0].key), Norm(es[0].value)])] + NormEntries(es[1..])
  }

  /** Types, lengths, keys and contents can all be read back from the normal form. */
  lemma {:induction false} NormIsInjective(v: Value, w: Value)
    requires Norm(v) == Norm(w)
    ensures v == w
    decreases v, 1
  {
    assert Norm(v).items[0] == Norm(w).items[0];
    assert Norm(v).items[1] == Norm(w).items[1];
    match v
    case VNone =>
    case VBool(_) =>
    case VInt(i) => DecimalIsInjective(i, w.i);
    case VFloat(_) =>
    case VStr(_) =>
    case VList(items) => NormAllIsInjective(items, w.items);
    case VTuple(items) => NormAllIsInjective(items, w.items);
    case VDict(entries) => NormEntriesIsInjective(entries, w.entries);
  }

  lemma {:induction false} NormAllIsInjective(vs: seq<Value>, ws: seq<Value>)
    requires NormAll(vs) == NormAll(ws)
    ensures vs == ws
    decreases vs, 0
  {
    if vs == [] {
    } else {
      assert NormAll(vs)[0] == Norm(vs[0]) && NormAll(ws)[0] == Norm(ws[0]);
      assert NormAll(vs)[1..] == NormAll(vs[1..]) && NormAll(ws)[1..] == NormAll(ws[1..]);
      NormIsInjective(vs[0], ws[0]);
      NormAllIsInjective(vs[1..], ws[1..]);
      SameParts(vs, ws);
    }
  }

  lemma {:induction false} NormEntriesIsInjective(vs: seq<Entry>, ws: seq<Entry>)
    requires NormEntries(vs) == NormEntries(ws)
    ensures vs == ws
    decreases vs, 0
  {
    if vs == [] {
    } else {
      assert NormEntries(vs)[0] == JArray([JString(vs[0].key), Norm(vs[0].value)]);
      assert NormEntries(ws)[0] == JArray([JString(ws[0].key), Norm(ws[0].value)]);
      assert NormEntries(vs)[0].items[0] == NormEntries(ws)[0].items[0];
      assert NormEntries(vs)[0].items[1] == NormEntries(ws)[0].items[1];
      assert NormEntries(vs)[1..] == NormEntries(vs[1..]) && NormEntries(ws)[1..] == NormEntries(ws[1..]);
      NormIsInjective(vs[0].value, ws[0].value);
      NormEntriesIsInjective(vs[1..], ws[1..]);
      SameParts(vs, ws);
    }
  }

  /** The text that is hashed. */
  function CanonicalText(v: Value): string {
    Render(Norm(v))
  }

  /** Values of different type or content never share a canonical text. */
  lemma CanonicalTextIsInjective(v: Value, w: Value)
    requires CanonicalText(v) == CanonicalText(w)
    ensures v == w
  {
    RenderIsInjective(Norm(v), Norm(w));
    NormIsInjective(v, w);
  }

  /** Containers count as nodes, as do their contents; dictionary keys do not. */
  function Size(v: Value): (n: nat)
    ensures n >= 1
    decreases v, 1
  {
    match v
    case VList(items) => 1 + Sizes(items)
    case VTuple(items) => 1 + Sizes(items)
    case VDict(entries) => 1 + EntrySizes(entries)
    case _ => 1
  }

  function Sizes(vs: seq<Value>): nat
    decreases vs, 0
  {
    if vs == [] then 0 else Size(vs[0]) + Sizes(vs[1..])
  }

  function EntrySizes(es: seq<Entry>): nat
    decreases es, 0
  {
    if es == [] then 0 else Size(es[0].value) + EntrySizes(es[1..])
  }

  /** How many containers deep the deepest node lies. */
  function Height(v: Value): nat
    decreases v, 1
  {
    match v
    case VList(items) => Heights(items)
    case VTuple(items) => Heights(items)
    case VDict(entries) => EntryHeights(entries)
    case _ => 0
  }

  function Heights(vs: seq<Value>): nat
    decreases vs, 0
  {
    if vs == [] then 0 else Max(1 + Height(vs[0]), Heights(vs[1..]))
  }

  function EntryHeights(es: seq<Entry>): nat
    decreases es, 0
  {
    if es == [] then 0 else Max(1 + Height(es[0].value), EntryHeights(es[1..]))
  }

  /** Python's limit on the digits of an integer it turns into text; none where the limit is switched off. */
  predicate IsPrintable(i: int, maxDigits: Option<nat>) {
    maxDigits.Some? ==> |Digits(if i < 0 then -i else i)| <= maxDigits.value
  }

  /** Every integer in `v` has a text. */
  predicate Printable(v: Value, maxDigits: Option<nat>)
    decreases v, 1
  {
    match v
    case VInt(i) => IsPrintable(i, maxDigits)
    case VList(items) => AllPrintable(items, maxDigits)
    case VTuple(items) => AllPrintable(items, maxDigits)
    case VDict(entries) => EntriesPrintable(entries, maxDigits)
    case _ => true
  }

  predicate AllPrintable(vs: seq<Value>, maxDigits: Option<nat>)
    decreases vs, 0
  {
    vs == [] || (Printable(vs[0], maxDigits) && AllPrintable(vs[1..], maxDigits))
  }

  predicate EntriesPrintable(es: seq<Entry>, maxDigits: Option<nat>)
    decreases es, 0
  {
    es == [] || (Printable(es[0].value, maxDigits) && EntriesPrintable(es[1..], maxDigits))
  }

  /** Neither a container nor an integer without a text. */
  predicate IsLeaf(v: Value, maxDigits: Option<nat>) {
    v.VBool? || v.VStr? || (v.VInt? && IsPrintable(v.i, maxDigits))
  }

  lemma {:induction false} MeasureItems(vs: seq<Value>, size: nat, height: nat, maxDigits: Option<nat>)
    requires forall v :: v in vs ==> Size(v) == size && Height(v) <= height && Printable(v, maxDigits)
    ensures Sizes(vs) == size * |vs| && Heights(vs) <= height + 1 && AllPrintable(vs, maxDigits)
  {
    if vs == [] {
    } else {
      MeasureItems(vs[1..], size, height, maxDigits);
      assert size * |vs| == size + size * |vs[1..]|;
    }
  }

  lemma {:induction false} MeasureLeaves(es: seq<Entry>, maxDigits: Option<nat>)
    requires forall e :: e in es ==> IsLeaf(e.value, maxDigits)
    ensures EntrySizes(es) == |es| && EntryHeights(es) <= 1 && EntriesPrintable(es, maxDigits)
  {
    if es == [] {
    } else {
      MeasureLeaves(es[1..], maxDigits);
    }
  }

  /** A dictionary with one entry that need not be a leaf. */
  lemma {:induction false} MeasureEntries(es: seq<Entry>, e: Entry, fs: seq<Entry>, maxDigits: Option<nat>)
    requires forall d :: d in es + fs ==> IsLeaf(d.value, maxDigits)
    ensures EntrySizes(es + [e] + fs) == |es| + Size(e.value) + |fs|
    ensures EntryHeights(es + [e] + fs) <= 1 + Height(e.value)
    ensures EntriesPrintable(es + [e] + fs, maxDigits) == Printable(e.value, maxDigits)
  {
    if es == [] {
      MeasureLeaves(fs, maxDigits);
      assert es + [e] + fs == [e] + fs && ([e] + fs)[1..] == fs;
    } else {
      assert forall d :: d in es[1..] + fs ==> d in es + fs;
      assert es[0] in es + fs;
      MeasureEntries(es[1..], e, fs, maxDigits);
      assert (es + [e] + fs)[1..] == es[1..] + [e] + fs;
    }
  }

  lemma MeasureDict(e: Entry, fs: seq<Entry>, maxDigits: Option<nat>)
    requires forall d :: d in fs ==> IsLeaf(d.value, maxDigits)
    ensures var v := VDict([e] + fs);
            && Size(v) == 1 + Size(e.value) + |fs| && Height(v) <= 1 + Height(e.value)
            && Printable(v, maxDigits) == Printable(e.value, maxDigits)
  {
    MeasureEntries([], e, fs, maxDigits);
    assert [] + [e] + fs == [e] + fs;
  }

  const MAX_DEPTH := 600
  const MAX_NODES := 100_000

  type Digest = string -> string

  /** No two texts share a digest. */
  ghost predicate IsInjective(hash: Digest) {
    forall s, t :: hash(s) == hash(t) ==> s == t
  }

  /** What the serialiser accepts under its default limits. */
  predicate IsSerialisable(v: Value, maxDigits: Option<nat>) {
    Size(v) <= MAX_NODES && Height(v) <= MAX_DEPTH && Printable(v, maxDigits)
  }

  /** `canonical_sha256` over any digest. */
  function CanonicalHash(hash: Digest, v: Value, maxDigits: Option<nat>): Result<string> {
    if IsSerialisable(v, maxDigits) then Ok(hash(CanonicalText(v))) else Raised
  }

  /** An injective digest pins a value, where it is computed at all. */
  lemma HashPinsValue(hash: Digest, v: Value, w: Value, maxDigits: Option<nat>)
    requires IsInjective(hash) && CanonicalHash(hash, v, maxDigits).Ok?
    ensures CanonicalHash(hash, v, maxDigits) == CanonicalHash(hash, w, maxDigits) <==> v == w
  {
    if CanonicalHash(hash, v, maxDigits) == CanonicalHash(hash, w, maxDigits) {
      CanonicalTextIsInjective(v, w);
    }
  }
}
