/** Compact JSON text, as `json.dumps(..., ensure_ascii=False, separators=(",", ":"))` writes it. */
module JsonText {
  import opened Sequences

  /** The fragment canonical values use: arrays, strings, booleans and null. */
  datatype Json = JNull | JBool(b: bool) | JString(s: string) | JArray(items: seq<Json>)

  function HexDigit(n: nat): char
    requires n < 16
  {
    "0123456789abcdef"[n]
  }

  /** One character inside a string, escaped as section 7 of RFC 8259 demands and no further. */
  function Escape(c: char): (e: string)
    ensures e != [] && e[0] != '"'
  {
    if c == '"' then "\\\""
    else if c == '\\' then "\\\\"
    else if c == '\n' then "\\n"
    else if c == '\r' then "\\r"
    else if c == '\t' then "\\t"
    else if c as int == 8 then "\\b"
    else if c as int == 12 then "\\f"
    else if c as int < 32 then "\\u00" + [HexDigit(c as int / 16), HexDigit(c as int % 16)]
    else [c]
  }

  /** The rest of a quoted string, closing quote included. */
  function Quoted(s: string): (q: string)
    ensures q != []
  {
    if s == [] then "\"" else Escape(s[0]) + Quoted(s[1..])
  }

  function Render(j: Json): (text: string)
    ensures text != [] && text[0] != ']' && text[0] != ','
    decreases j, 1
  {
    match j
    case JNull => "null"
    case JBool(b) => if b then "true" else "false"
    case JString(s) => "\"" + Quoted(s)
    case JArray(items) => "[" + (if items == [] then "]" else Render(items[0]) + RenderRest(items[1..]))
  }

  /** The elements after the first, and the closing bracket. */
  function RenderRest(items: seq<Json>): (text: string)
    ensures text != [] && (text[0] == ']' <==> items == []) && (text[0] == ',' <==> items != [])
    decreases items, 0
  {
    if items == [] then "]" else "," + Render(items[0]) + RenderRest(items[1..])
  }

  lemma HexIsInjective(m: nat, n: nat)
    requires m < 16 && n < 16 && HexDigit(m) == HexDigit(n)
    ensures m == n
  {
  }

  lemma Peel(a: string, s: string, b: string, t: string)
    requires a + s == b + t && |a| == |b|
    ensures a == b && s == t
  {
    assert a == (a + s)[..|a|] && b == (b + t)[..|b|];
    assert s == (a + s)[|a|..] && t == (b + t)[|b|..];
  }

  /** An escaped character can be read off the front of any text. */
  lemma EscapeIsPrefixFree(c: char, d: char, s: string, t: string)
    requires Escape(c) + s == Escape(d) + t
    ensures c == d && s == t
  {
    var x, y := Escape(c) + s, Escape(d) + t;
    assert x[0] == Escape(c)[0] && y[0] == Escape(d)[0];
    if x[0] == '\\' {
      assert x[1] == Escape(c)[1] && y[1] == Escape(d)[1];
      if x[1] == 'u' {
        assert x[4] == Escape(c)[4] && y[4] == Escape(d)[4];
        assert x[5] == Escape(c)[5] && y[5] == Escape(d)[5];
        HexIsInjective(c as int / 16, d as int / 16);
        HexIsInjective(c as int % 16, d as int % 16);
        assert c as int == d as int;
      }
    }
    Peel(Escape(c), s, Escape(d), t);
  }

  lemma {:induction false} QuotedIsPrefixFree(a: string, b: string, s: string, t: string)
    requires Quoted(a) + s == Quoted(b) + t
    ensures a == b && s == t
    decreases |a|
  {
    assert (Quoted(a) + s)[0] == Quoted(a)[0] && (Quoted(b) + t)[0] == Quoted(b)[0];
    if a == [] || b == [] {
      Peel(Quoted(a), s, Quoted(b), t);
    } else {
      QuotedUnfolds(a, s);
      QuotedUnfolds(b, t);
      EscapeIsPrefixFree(a[0], b[0], Quoted(a[1..]) + s, Quoted(b[1..]) + t);
      QuotedIsPrefixFree(a[1..], b[1..], s, t);
      SameParts(a, b);
    }
  }

  lemma QuotedUnfolds(a: string, s: string)
    requires a != []
    ensures Quoted(a) + s == Escape(a[0]) + (Quoted(a[1..]) + s)
  {
    assert [] + Escape(a[0]) == Escape(a[0]);
  }

  lemma Associates(a: string, b: string, s: string)
    ensures a + b + s == a + (b + s)
  {
  }

  lemma StringIsPrefixFree(a: string, b: string, s: string, t: string)
    requires Render(JString(a)) + s == Render(JString(b)) + t
    ensures a == b && s == t
  {
    Associates("\"", Quoted(a), s);
    Associates("\"", Quoted(b), t);
    Peel("\"", Quoted(a) + s, "\"", Quoted(b) + t);
    QuotedIsPrefixFree(a, b, s, t);
  }

  /** A rendered value can be read off the front of any text. */
  lemma {:induction false} RenderIsPrefixFree(a: Json, b: Json, s: string, t: string)
    requires Render(a) + s == Render(b) + t
    ensures a == b && s == t
    decreases a, 1
  {
    var x, y := Render(a) + s, Render(b) + t;
    assert x[0] == Render(a)[0] && y[0] == Render(b)[0];
    match a
    case JNull =>
      Peel(Render(a), s, Render(b), t);
    case JBool(_) =>
      Peel(Render(a), s, Render(b), t);
    case JString(v) =>
      StringIsPrefixFree(v, b.s, s, t);
    case JArray(v) =>
      ArrayIsPrefixFree(v, b.items, s, t);
  }

  lemma RestUnfolds(v: seq<Json>, s: string)
    requires v != []
    ensures RenderRest(v) + s == "," + (Render(v[0]) + (RenderRest(v[1..]) + s))
  {
  }

  lemma ArrayUnfolds(v: seq<Json>, s: string)
    ensures v != [] ==> Render(JArray(v)) + s == "[" + (Render(v[0]) + (RenderRest(v[1..]) + s))
    ensures v == [] ==> Render(JArray(v)) + s == "[" + ("]" + s)
  {
    if v != [] {
      var inner := Render(v[0]) + RenderRest(v[1..]);
      assert Render(JArray(v)) == "[" + inner;
      assert "[" + inner == "[" + Render(v[0]) + RenderRest(v[1..]);
    }
  }

  lemma {:induction false} ArrayIsPrefixFree(v: seq<Json>, w: seq<Json>, s: string, t: string)
    requires Render(JArray(v)) + s == Render(JArray(w)) + t
    ensures v == w && s == t
    decreases v, 1
  {
    ArrayUnfolds(v, s);
    ArrayUnfolds(w, t);
    var x := if v == [] then "]" + s else Render(v[0]) + (RenderRest(v[1..]) + s);
    var y := if w == [] then "]" + t else Render(w[0]) + (RenderRest(w[1..]) + t);
    Peel("[", x, "[", y);
    assert v != [] ==> x[0] == Render(v[0])[0];
    assert w != [] ==> y[0] == Render(w[0])[0];
    if v == [] || w == [] {
      Peel("]", s, "]", t);
    } else {
      RenderIsPrefixFree(v[0], w[0], RenderRest(v[1..]) + s, RenderRest(w[1..]) + t);
      RestIsPrefixFree(v[1..], w[1..], s, t);
      SameParts(v, w);
    }
  }

  lemma {:induction false} RestIsPrefixFree(v: seq<Json>, w: seq<Json>, s: string, t: string)
    requires RenderRest(v) + s == RenderRest(w) + t
    ensures v == w && s == t
    decreases v, 0
  {
    assert (RenderRest(v) + s)[0] == RenderRest(v)[0] && (RenderRest(w) + t)[0] == RenderRest(w)[0];
    if v == [] {
      Peel("]", s, "]", t);
    } else {
      RestUnfolds(v, s);
      RestUnfolds(w, t);
      var x, y := Render(v[0]) + (RenderRest(v[1..]) + s), Render(w[0]) + (RenderRest(w[1..]) + t);
      Peel(",", x, ",", y);
      RenderIsPrefixFree(v[0], w[0], RenderRest(v[1..]) + s, RenderRest(w[1..]) + t);
      RestIsPrefixFree(v[1..], w[1..], s, t);
      SameParts(v, w);
    }
  }

  /** Different values have different texts. */
  lemma RenderIsInjective(a: Json, b: Json)
    requires Render(a) == Render(b)
    ensures a == b
  {
    assert Render(a) + [] == Render(a) && Render(b) + [] == Render(b);
    RenderIsPrefixFree(a, b, [], []);
  }
}
