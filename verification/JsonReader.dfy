/** A reader of JSON text after RFC 8259, for the values canonical texts use and without optional white space. */
module JsonReader {
  import opened Wrappers
  import opened JsonText

  /** What has been read, and the text that is left. */
  datatype Read<+T> = Read(value: T, rest: string)

  /** The four hexadecimal digits of a Unicode escape, in either case. */
  function HexValue(c: char): Option<nat> {
    if '0' <= c <= '9' then Some(c as int - '0' as int)
    else if 'a' <= c <= 'f' then Some(10 + (c as int - 'a' as int))
    else if 'A' <= c <= 'F' then Some(10 + (c as int - 'A' as int))
    else None
  }

  function ReadUnicode(text: string): (r: Option<Read<char>>)
    ensures r.Some? ==> |r.value.rest| < |text|
  {
    if |text| < 4 then None
    else
      var a, b, c, d := HexValue(text[0]), HexValue(text[1]), HexValue(text[2]), HexValue(text[3]);
      if a.None? || b.None? || c.None? || d.None? then None
      else
        var n := 4096 * a.value + 256 * b.value + 16 * c.value + d.value;
        if 0xD800 <= n < 0xE000 || n > 0xFFFF then None else Some(Read(n as char, text[4..]))
  }

  /** The rest of an escape, the backslash having been read: section 7 of RFC 8259. */
  function ReadEscape(text: string): (r: Option<Read<char>>)
    ensures r.Some? ==> |r.value.rest| < |text|
  {
    if text == "" then None
    else
      match text[0]
      case '"' => Some(Read('"', text[1..]))
      case '\\' => Some(Read('\\', text[1..]))
      case '/' => Some(Read('/', text[1..]))
      case 'b' => Some(Read(8 as char, text[1..]))
      case 'f' => Some(Read(12 as char, text[1..]))
      case 'n' => Some(Read(10 as char, text[1..]))
      case 'r' => Some(Read(13 as char, text[1..]))
      case 't' => Some(Read(9 as char, text[1..]))
      case 'u' => ReadUnicode(text[1..])
      case _ => None
  }

  /** The rest of a string, the opening quote having been read. */
  function ReadString(text: string): (r: Option<Read<string>>)
    ensures r.Some? ==> |r.value.rest| < |text|
    decreases |text|
  {
    if text == "" || text[0] as int < 32 then None
    else if text[0] == '"' then Some(Read("", text[1..]))
    else if text[0] == '\\' then
      match ReadEscape(text[1..])
      case None => None
      case Some(Read(c, rest)) => Prepend(c, ReadString(rest))
    else Prepend(text[0], ReadString(text[1..]))
  }

  function Prepend(c: char, r: Option<Read<string>>): Option<Read<string>> {
    match r
    case None => None
    case Some(Read(s, rest)) => Some(Read([c] + s, rest))
  }

  predicate StartsWith(text: string, word: string) {
    |word| <= |text| && forall i :: 0 <= i < |word| ==> text[i] == word[i]
  }

  function ReadWord(text: string, word: string, j: Json): (r: Option<Read<Json>>)
    requires word != ""
    ensures r.Some? ==> |r.value.rest| < |text|
  {
    if StartsWith(text, word) then Some(Read(j, text[|word|..])) else None
  }

  function ReadValue(text: string): (r: Option<Read<Json>>)
    ensures r.Some? ==> |r.value.rest| < |text|
    decreases |text|, 0
  {
    if text == "" then None
    else
      match text[0]
      case 'n' => ReadWord(text, "null", JNull)
      case 't' => ReadWord(text, "true", JBool(true))
      case 'f' => ReadWord(text, "false", JBool(false))
      case '"' =>
        (match ReadString(text[1..])
         case None => None
         case Some(Read(s, rest)) => Some(Read(JString(s), rest)))
      case '[' =>
        if |text| > 1 && text[1] == ']' then Some(Read(JArray([]), text[2..]))
        else
          (match ReadItems(text[1..])
           case None => None
           case Some(Read(items, rest)) => Some(Read(JArray(items), rest)))
      case _ => None
  }

  /** One or more values with commas between them, and the closing bracket. */
  function ReadItems(text: string): (r: Option<Read<seq<Json>>>)
    ensures r.Some? ==> |r.value.rest| < |text|
    decreases |text|, 1
  {
    match ReadValue(text)
    case None => None
    case Some(Read(first, rest)) =>
      if rest == "" then None
      else
        match rest[0]
        case ']' => Some(Read([first], rest[1..]))
        case ',' =>
          (match ReadItems(rest[1..])
           case None => None
           case Some(Read(more, left)) => Some(Read([first] + more, left)))
        case _ => None
  }

  lemma HexReadsBack(n: nat)
    requires n < 16
    ensures HexValue(HexDigit(n)) == Some(n)
  {
  }

  /** A control character without a short escape is written in four lower-case hexadecimal digits. */
  lemma UnicodeReadsBack(c: char, s: string)
    requires c as int < 32
    ensures ReadUnicode("00" + [HexDigit(c as int / 16), HexDigit(c as int % 16)] + s) == Some(Read(c, s))
  {
    HexReadsBack(c as int / 16);
    HexReadsBack(c as int % 16);
    var text := "00" + [HexDigit(c as int / 16), HexDigit(c as int % 16)] + s;
    assert text[4..] == s;
    assert c as int == 16 * (c as int / 16) + c as int % 16;
  }

  /** The letter of a short escape. */
  lemma ShortEscapeReadsBack(c: char, q: string)
    requires |Escape(c)| == 2
    ensures Escape(c)[0] == '\\' && ReadEscape(Escape(c)[1..] + q) == Some(Read(c, q))
  {
    var text := Escape(c)[1..] + q;
    assert text[0] == Escape(c)[1] && text[1..] == q;
  }

  lemma LongEscapeReadsBack(c: char, q: string)
    requires |Escape(c)| == 6
    ensures Escape(c)[0] == '\\' && ReadEscape(Escape(c)[1..] + q) == Some(Read(c, q))
  {
    var text := Escape(c)[1..] + q;
    assert Escape(c)[2..] == "00" + [HexDigit(c as int / 16), HexDigit(c as int % 16)];
    assert text[0] == 'u' && text[1..] == Escape(c)[2..] + q;
    UnicodeReadsBack(c, q);
  }

  lemma CharacterReadsBack(c: char, q: string)
    ensures ReadString(Escape(c) + q) == Prepend(c, ReadString(q))
  {
    var e := Escape(c);
    assert (e + q)[0] == e[0] && (e + q)[1..] == e[1..] + q;
    if |e| == 2 {
      ShortEscapeReadsBack(c, q);
      BackslashReads(e + q, c, q);
    } else if |e| == 6 {
      LongEscapeReadsBack(c, q);
      BackslashReads(e + q, c, q);
    } else {
      PlainReads(e + q, c, q);
    }
  }

  lemma BackslashReads(text: string, c: char, q: string)
    requires text != "" && text[0] == '\\' && ReadEscape(text[1..]) == Some(Read(c, q))
    ensures ReadString(text) == Prepend(c, ReadString(q))
  {
  }

  lemma PlainReads(text: string, c: char, q: string)
    requires text == [c] + q && c != '"' && c != '\\' && c as int >= 32
    ensures ReadString(text) == Prepend(c, ReadString(q))
  {
    assert text[1..] == q;
  }

  lemma PrependsFirst(s: string, rest: string)
    requires s != []
    ensures Prepend(s[0], Some(Read(s[1..], rest))) == Some(Read(s, rest))
  {
    assert s == [s[0]] + s[1..];
  }

  lemma {:induction false} StringReadsBack(s: string, rest: string)
    ensures ReadString(Quoted(s) + rest) == Some(Read(s, rest))
  {
    if s == [] {
      assert ("\"" + rest)[1..] == rest;
    } else {
      var q := Quoted(s[1..]) + rest;
      QuotedUnfolds(s, rest);
      StringReadsBack(s[1..], rest);
      CharacterReadsBack(s[0], q);
      PrependsFirst(s, rest);
    }
  }

  /** A rendered value is read back, and nothing beyond it is. */
  lemma {:induction false} RenderReadsBack(j: Json, rest: string)
    ensures ReadValue(Render(j) + rest) == Some(Read(j, rest))
    decreases j, 1
  {
    match j
    case JNull =>
      WordReadsBack("null", rest, j);
    case JBool(b) =>
      WordReadsBack(if b then "true" else "false", rest, j);
    case JString(s) =>
      Associates("\"", Quoted(s), rest);
      assert ("\"" + (Quoted(s) + rest))[1..] == Quoted(s) + rest;
      StringReadsBack(s, rest);
    case JArray(items) =>
      ArrayReadsBack(items, rest);
  }

  lemma WordReadsBack(word: string, rest: string, j: Json)
    requires word != ""
    ensures (word + rest)[0] == word[0] && ReadWord(word + rest, word, j) == Some(Read(j, rest))
  {
    assert (word + rest)[|word|..] == rest;
  }

  lemma {:induction false} ArrayReadsBack(items: seq<Json>, rest: string)
    ensures ReadValue(Render(JArray(items)) + rest) == Some(Read(JArray(items), rest))
    decreases items, 1
  {
    ArrayUnfolds(items, rest);
    if items == [] {
      BracketsRead(rest);
    } else {
      var inner := Render(items[0]) + (RenderRest(items[1..]) + rest);
      assert inner[0] == Render(items[0])[0];
      BracketRead(inner);
      ItemsReadBack(items, rest);
    }
  }

  lemma BracketsRead(rest: string)
    ensures ReadValue("[" + ("]" + rest)) == Some(Read(JArray([]), rest))
  {
    var text := "[" + ("]" + rest);
    assert text[0] == '[' && text[1] == ']' && text[2..] == rest;
  }

  lemma BracketRead(inner: string)
    requires inner != "" && inner[0] != ']'
    ensures ReadValue("[" + inner)
            == match ReadItems(inner) case None => None case Some(Read(items, rest)) => Some(Read(JArray(items), rest))
  {
    var text := "[" + inner;
    assert text[0] == '[' && text[1] == inner[0] && text[1..] == inner;
  }

  lemma {:induction false} ItemsReadBack(items: seq<Json>, rest: string)
    requires items != []
    ensures ReadItems(Render(items[0]) + (RenderRest(items[1..]) + rest)) == Some(Read(items, rest))
    decreases items, 0
  {
    var after := RenderRest(items[1..]) + rest;
    RenderReadsBack(items[0], after);
    assert items == [items[0]] + items[1..];
    if items[1..] == [] {
      assert after[0] == ']' && after[1..] == rest && items == [items[0]];
    } else {
      RestUnfolds(items[1..], rest);
      assert after[0] == ',' && after[1..] == Render(items[1]) + (RenderRest(items[2..]) + rest);
      assert items[1..][1..] == items[2..];
      ItemsReadBack(items[1..], rest);
    }
  }

  predicate IsPlain(c: char) {
    c != '"' && c != '\\' && c as int >= 32
  }

  predicate HasShortEscape(c: char) {
    c == '"' || c == '\\' || 8 <= c as int <= 10 || 12 <= c as int <= 13
  }

  /** A character stands for itself unless it is a quote, a backslash or a control character. */
  lemma EscapedExactly(c: char)
    ensures |Escape(c)| == if IsPlain(c) then 1 else if HasShortEscape(c) then 2 else 6
    ensures IsPlain(c) ==> Escape(c) == [c]
  {
    assert c == '\n' <==> c as int == 10;
    assert c == '\r' <==> c as int == 13;
    assert c == '\t' <==> c as int == 9;
  }

  /** The hexadecimal digits are in lower case. */
  lemma HexIsLowerCase(n: nat)
    requires n < 16
    ensures '0' <= HexDigit(n) <= '9' || 'a' <= HexDigit(n) <= 'f'
  {
  }
}
