/** A reader of canonical texts: what glass_ionomer/_canonical.py writes can be read back, value by value. */
module CanonicalReader {
  import opened Wrappers
  import opened JsonText
  import opened JsonReader
  import opened CanonicalValues

  predicate IsDigit(c: char) {
    '0' <= c <= '9'
  }

  function DigitValue(c: char): nat
    requires IsDigit(c)
  {
    c as int - '0' as int
  }

  predicate AllDigits(s: string) {
    forall i :: 0 <= i < |s| ==> IsDigit(s[i])
  }

  /** The number a text of decimal digits stands for, by position. */
  function NumberOf(s: string): nat
    requires AllDigits(s)
  {
    if s == "" then 0 else 10 * NumberOf(s[..|s| - 1]) + DigitValue(s[|s| - 1])
  }

  function ReadInt(s: string): Option<int> {
    if s == "" then None
    else if s[0] == '-' then if AllDigits(s[1..]) then Some(0 - NumberOf(s[1..])) else None
    else if AllDigits(s) then Some(NumberOf(s))
    else None
  }

  /** The value a tagged form stands for. */
  function ReadNorm(j: Json): Option<Value>
    decreases j, 1
  {
    if !j.JArray? || |j.items| != 2 || !j.items[0].JString? then None
    else
      var tag, payload := j.items[0].s, j.items[1];
      match payload
      case JNull => if tag == "null" then Some(VNone) else None
      case JBool(b) => if tag == "bool" then Some(VBool(b)) else None
      case JString(s) =>
        if tag == "str" then Some(VStr(s))
        else if tag == "float" then Some(VFloat(s))
        else if tag == "int" && ReadInt(s).Some? then Some(VInt(ReadInt(s).value))
        else None
      case JArray(items) =>
        if tag == "list" || tag == "tuple" then
          var vs := ReadNorms(items);
          if vs.None? then None else Some(if tag == "list" then VList(vs.value) else VTuple(vs.value))
        else if tag == "dict" then
          var es := ReadEntries(items);
          if es.None? then None else Some(VDict(es.value))
        else None
  }

  function ReadNorms(js: seq<Json>): (r: Option<seq<Value>>)
    decreases js, 0
  {
    if js == [] then Some([])
    else
      var first, rest := ReadNorm(js[0]), ReadNorms(js[1..]);
      if first.None? || rest.None? then None else Some([first.value] + rest.value)
  }

  function ReadEntries(js: seq<Json>): Option<seq<Entry>>
    decreases js, 0
  {
    if js == [] then Some([])
    else if !js[0].JArray? || |js[0].items| != 2 || !js[0].items[0].JString? then None
    else
      var value, rest := ReadNorm(js[0].items[1]), ReadEntries(js[1..]);
      if value.None? || rest.None? then None else Some([Entry(js[0].items[0].s, value.value)] + rest.value)
  }

  /** The value a canonical text stands for. */
  function ReadText(text: string): Option<Value> {
    match ReadValue(text)
    case None => None
    case Some(Read(j, rest)) => if rest == "" then ReadNorm(j) else None
  }

  /** Digits denote the number by position, without leading zeros. */
  lemma {:induction false} DigitsDenote(n: nat)
    ensures AllDigits(Digits(n)) && NumberOf(Digits(n)) == n
    ensures n > 0 ==> Digits(n)[0] != '0'
  {
    if n < 10 {
      assert NumberOf(Digits(n)[..0]) == 0;
    } else {
      DigitsDenote(n / 10);
      var s := Digits(n);
      assert s[..|s| - 1] == Digits(n / 10);
      assert DigitValue(s[|s| - 1]) == n % 10;
    }
  }

  lemma DecimalReadsBack(i: int)
    ensures ReadInt(Decimal(i)) == Some(i)
  {
    DigitsDenote(if i < 0 then -i else i);
    if i < 0 {
      assert Decimal(i)[1..] == Digits(-i);
    }
  }

  function Pow10(k: nat): nat {
    if k == 0 then 1 else 10 * Pow10(k - 1)
  }

  lemma {:induction false} DigitsCount(n: nat, k: nat)
    requires k >= 1
    ensures |Digits(n)| <= k <==> n < Pow10(k)
    decreases n
  {
    assert Pow10(k) == 10 * Pow10(k - 1);
    if n < 10 {
      PowIsPositive(k - 1);
    } else if k == 1 {
      assert Pow10(0) == 1;
    } else {
      DigitsCount(n / 10, k - 1);
    }
  }

  lemma {:induction false} PowIsPositive(k: nat)
    ensures Pow10(k) >= 1
  {
    if k == 0 {
    } else {
      PowIsPositive(k - 1);
    }
  }

  /** An integer has a text exactly below the power of ten that the limit on digits names. */
  lemma PrintableExactly(i: int, k: nat)
    requires k >= 1
    ensures IsPrintable(i, Some(k)) <==> 0 - Pow10(k) < i < Pow10(k)
    ensures IsPrintable(i, None)
  {
    DigitsCount(if i < 0 then -i else i, k);
  }

  /** Types, contents and keys are all read back from the tagged form. */
  lemma {:induction false} NormReadsBack(v: Value)
    ensures ReadNorm(Norm(v)) == Some(v)
    decreases v, 1
  {
    match v
    case VNone =>
    case VBool(_) =>
    case VInt(i) => DecimalReadsBack(i);
    case VFloat(_) =>
    case VStr(_) =>
    case VList(items) => NormsReadBack(items);
    case VTuple(items) => NormsReadBack(items);
    case VDict(entries) => EntriesReadBack(entries);
  }

  lemma {:induction false} NormsReadBack(vs: seq<Value>)
    ensures ReadNorms(NormAll(vs)) == Some(vs)
    decreases vs, 0
  {
    if vs == [] {
    } else {
      NormReadsBack(vs[0]);
      NormsReadBack(vs[1..]);
      assert NormAll(vs)[0] == Norm(vs[0]) && NormAll(vs)[1..] == NormAll(vs[1..]);
      assert vs == [vs[0]] + vs[1..];
    }
  }

  lemma {:induction false} EntriesReadBack(es: seq<Entry>)
    ensures ReadEntries(NormEntries(es)) == Some(es)
    decreases es, 0
  {
    if es == [] {
    } else {
      NormReadsBack(es[0].value);
      EntriesReadBack(es[1..]);
      assert NormEntries(es)[0] == JArray([JString(es[0].key), Norm(es[0].value)]);
      assert NormEntries(es)[1..] == NormEntries(es[1..]);
      assert es == [es[0]] + es[1..];
    }
  }

  /** The canonical text of a value is read back as that value. */
  lemma CanonicalTextReadsBack(v: Value)
    ensures ReadText(CanonicalText(v)) == Some(v)
  {
    RenderReadsBack(Norm(v), "");
    assert Render(Norm(v)) + "" == Render(Norm(v));
    NormReadsBack(v);
  }
}
