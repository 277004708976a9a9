/**
 The JSON text of a list of strings, as the back end writes and reads it.

 The cart keeps a row's size as the text `JSON.stringify([size])` and reads it
 back with `JSON.parse(...)[0]`; the product editor sends its size list as
 `JSON.stringify(sizes)` and the product handlers parse it with `JSON.parse`.
 This module gives both directions for the one shape that occurs there, an
 array of strings: the encoder writes exactly the escapes `JSON.stringify`
 writes, and the decoder accepts what `JSON.parse` accepts for that shape.
 */
module Json {
  import opened Wrappers

  // ---------------------------------------------------------------------------
  // Encoding (JSON.stringify)
  // ---------------------------------------------------------------------------

  /** Lower-case hexadecimal digit, as used by the `\u00xx` escapes of JSON.stringify. */
  function HexDigit(n: int): (c: char)
    requires 0 <= n < 16
    ensures '0' <= c <= '9' || 'a' <= c <= 'f'
  {
    if n < 10 then ('0' as int + n) as char else ('a' as int + n - 10) as char
  }

  /** Value of a hexadecimal digit of either case, as JSON.parse reads it. */
  function HexValue(c: char): (r: Option<int>)
    ensures r.Some? ==> 0 <= r.value < 16
  {
    if '0' <= c <= '9' then Some(c as int - '0' as int)
    else if 'a' <= c <= 'f' then Some(c as int - 'a' as int + 10)
    else if 'A' <= c <= 'F' then Some(c as int - 'A' as int + 10)
    else None
  }

  /** The text JSON.stringify writes for one character inside a string literal. */
  function EscapeChar(c: char): (r: string)
    ensures 1 <= |r|
    ensures r[0] != '"' && r[0] as int >= 0x20
  {
    var n := c as int;
    if c == '"' then ['\\', '"']
    else if c == '\\' then ['\\', '\\']
    else if n == 0x08 then ['\\', 'b']
    else if n == 0x09 then ['\\', 't']
    else if n == 0x0A then ['\\', 'n']
    else if n == 0x0C then ['\\', 'f']
    else if n == 0x0D then ['\\', 'r']
    else if n < 0x20 then ['\\', 'u', '0', '0', HexDigit(n / 16), HexDigit(n % 16)]
    else [c]
  }

  /** The escaped body of a string literal. */
  function Escape(s: string): string
  {
    if |s| == 0 then "" else EscapeChar(s[0]) + Escape(s[1..])
  }

  /** A string literal: the escaped body between double quotes. */
  function Quote(s: string): (r: string)
    ensures 2 <= |r| && r[0] == '"'
  {
    "\"" + Escape(s) + "\""
  }

  /** The elements of an array, separated by commas, without the brackets. */
  function EncodeElements(xs: seq<string>): string
  {
    if |xs| == 0 then ""
    else if |xs| == 1 then Quote(xs[0])
    else Quote(xs[0]) + "," + EncodeElements(xs[1..])
  }

  /** `JSON.stringify(xs)` for an array of strings: no whitespace anywhere. */
  function EncodeStrings(xs: seq<string>): string
  {
    "[" + EncodeElements(xs) + "]"
  }

  // ---------------------------------------------------------------------------
  // Decoding (JSON.parse)
  // ---------------------------------------------------------------------------

  /** The whitespace JSON allows between tokens. */
  predicate IsWs(c: char)
  {
    c == ' ' || c == '\t' || c == '\n' || c == '\r'
  }

  /** Drops leading JSON whitespace. */
  function SkipWs(t: string): (r: string)
    ensures |r| <= |t|
    ensures |r| > 0 ==> !IsWs(r[0])
  {
    if |t| > 0 && IsWs(t[0]) then SkipWs(t[1..]) else t
  }

  /** Surrogate code points, which no Dafny character (a Unicode scalar value) holds. */
  predicate IsSurrogate(v: int)
  {
    0xD800 <= v < 0xE000
  }

  /**
   Reads one escape after a backslash: yields the character it stands for and
   how many characters of `u` it used (1, or 5 for `\uXXXX`).
   */
  function Unescape(u: string): (r: Option<(char, nat)>)
    ensures r.Some? ==> 1 <= r.value.1 <= |u|
  {
    if |u| == 0 then None
    else if u[0] == '"' then Some(('"', 1))
    else if u[0] == '\\' then Some(('\\', 1))
    else if u[0] == '/' then Some(('/', 1))
    else if u[0] == 'b' then Some((0x08 as char, 1))
    else if u[0] == 'f' then Some((0x0C as char, 1))
    else if u[0] == 'n' then Some((0x0A as char, 1))
    else if u[0] == 'r' then Some((0x0D as char, 1))
    else if u[0] == 't' then Some((0x09 as char, 1))
    else if u[0] == 'u' && 5 <= |u| then
      match (HexValue(u[1]), HexValue(u[2]), HexValue(u[3]), HexValue(u[4]))
      case (Some(a), Some(b), Some(c), Some(d)) =>
        var v := ((a * 16 + b) * 16 + c) * 16 + d;
        if IsSurrogate(v) then None else Some((v as char, 5))
      case _ => None
    else None
  }

  /**
   Reads the body of a string literal, starting just after its opening quote,
   through the closing quote. Yields the decoded text and what follows the
   literal; raw control characters and unknown escapes are rejected.
   */
  function ParseStringBody(t: string): (r: Option<(string, string)>)
    ensures r.Some? ==> |r.value.1| < |t|
    decreases |t|
  {
    if |t| == 0 then None
    else if t[0] == '"' then Some(("", t[1..]))
    else if t[0] == '\\' then
      match Unescape(t[1..])
      case None => None
      case Some((c, k)) =>
        match ParseStringBody(t[1 + k..])
        case None => None
        case Some((s, rest)) => Some(([c] + s, rest))
    else if (t[0] as int) < 0x20 then None
    else
      match ParseStringBody(t[1..])
      case None => None
      case Some((s, rest)) => Some(([t[0]] + s, rest))
  }

  /** What may follow an array element: the closing bracket, or a comma and more elements. */
  datatype Separator = Close(rest: string) | Comma(more: string) | Unexpected

  /** Reads the separator after an element, skipping whitespace around a comma. */
  function AfterElement(r: string): (n: Separator)
    ensures n.Close? ==> |n.rest| < |r|
    ensures n.Comma? ==> |n.more| < |r|
  {
    var r' := SkipWs(r);
    if |r'| == 0 then Unexpected
    else if r'[0] == ']' then Close(r'[1..])
    else if r'[0] == ',' then Comma(SkipWs(r'[1..]))
    else Unexpected
  }

  /**
   Reads `string ws (']' | ',' ws elements)` — the elements of a non-empty
   array through its closing bracket — and yields them with the text after
   the bracket.
   */
  function ParseElements(t: string): (r: Option<(seq<string>, string)>)
    ensures r.Some? ==> |r.value.1| < |t|
    decreases |t|
  {
    if |t| == 0 || t[0] != '"' then None
    else
      match ParseStringBody(t[1..])
      case None => None
      case Some((x, r)) =>
        match AfterElement(r)
        case Unexpected => None
        case Close(rest) => Some(([x], rest))
        case Comma(more) =>
          match ParseElements(more)
          case None => None
          case Some((xs, rest)) => Some(([x] + xs, rest))
  }

  /** `JSON.parse(t)` where the text is an array of strings; `None` where JSON.parse throws. */
  function DecodeStrings(t: string): Option<seq<string>>
  {
    var a := SkipWs(t);
    if |a| == 0 || a[0] != '[' then None
    else
      var b := SkipWs(a[1..]);
      if |b| > 0 && b[0] == ']' then
        if SkipWs(b[1..]) == "" then Some([]) else None
      else
        match ParseElements(b)
        case None => None
        case Some((xs, rest)) => if SkipWs(rest) == "" then Some(xs) else None
  }

  // ---------------------------------------------------------------------------
  // Round trip
  // ---------------------------------------------------------------------------

  lemma HexRoundTrip(n: int)
    requires 0 <= n < 16
    ensures HexValue(HexDigit(n)) == Some(n)
  {
  }

  /** Decoding what EscapeChar wrote for `c` yields `c` and leaves the rest to be read. */
  lemma EscapeCharStep(c: char, t: string)
    ensures ParseStringBody(EscapeChar(c) + t) ==
      match ParseStringBody(t)
      case None => None
      case Some((s, rest)) => Some(([c] + s, rest))
  {
    var e := EscapeChar(c);
    var u := e + t;
    var n := c as int;
    if |e| == 1 {
      assert u[0] == c && u[1..] == t;
    } else if |e| == 2 {
      assert u[0] == '\\' && u[2..] == t;
      assert Unescape(u[1..]) == Some((c, 1));
    } else {
      assert 0 <= n < 0x20;
      var hi, lo := HexDigit(n / 16), HexDigit(n % 16);
      HexRoundTrip(n / 16);
      HexRoundTrip(n % 16);
      assert e == ['\\', 'u', '0', '0', hi, lo];
      assert u[0] == '\\' && u[6..] == t;
      assert u[1..] == ['u', '0', '0', hi, lo] + t;
      assert Unescape(u[1..]) == Some((c, 5));
    }
  }

  /** A string literal's body decodes to the text that was escaped, and stops at the closing quote. */
  lemma {:induction false} BodyRoundTrip(s: string, rest: string)
    ensures ParseStringBody(Escape(s) + "\"" + rest) == Some((s, rest))
    decreases |s|
  {
    if |s| == 0 {
      assert Escape(s) + "\"" + rest == "\"" + rest;
    } else {
      var tail := Escape(s[1..]) + "\"" + rest;
      assert Escape(s) + "\"" + rest == EscapeChar(s[0]) + tail;
      EscapeCharStep(s[0], tail);
      BodyRoundTrip(s[1..], rest);
      assert [s[0]] + s[1..] == s;
    }
  }

  /** Reading a quoted literal skips exactly that literal. */
  lemma QuoteRoundTrip(s: string, rest: string)
    ensures (Quote(s) + rest)[0] == '"'
    ensures ParseStringBody((Quote(s) + rest)[1..]) == Some((s, rest))
  {
    assert (Quote(s) + rest)[1..] == Escape(s) + "\"" + rest;
    BodyRoundTrip(s, rest);
  }

  /** One step of ParseElements once the leading literal has been read. */
  lemma ParseElementsStep(t: string, x: string, r: string)
    requires |t| > 0 && t[0] == '"'
    requires ParseStringBody(t[1..]) == Some((x, r))
    ensures ParseElements(t) ==
      match AfterElement(r)
      case Unexpected => None
      case Close(rest) => Some(([x], rest))
      case Comma(more) =>
        match ParseElements(more)
        case None => None
        case Some((xs, rest)) => Some(([x] + xs, rest))
  {
  }

  lemma CloseSeparator(rest: string)
    ensures AfterElement("]" + rest) == Close(rest)
  {
    var tail := "]" + rest;
    assert SkipWs(tail) == tail by { assert tail[0] == ']'; }
    assert tail[1..] == rest;
  }

  lemma CommaSeparator(more: string)
    requires |more| > 0 && more[0] == '"'
    ensures AfterElement("," + more) == Comma(more)
  {
    var tail := "," + more;
    assert SkipWs(tail) == tail by { assert tail[0] == ','; }
    assert tail[1..] == more;
    assert SkipWs(more) == more;
  }

  lemma ConcatAssoc(a: string, b: string, c: string)
    ensures a + b + c == a + (b + c)
  {
  }

  /** The last element of an array and its closing bracket. */
  lemma ElementsLast(x: string, rest: string)
    ensures ParseElements(Quote(x) + "]" + rest) == Some(([x], rest))
  {
    var tail := "]" + rest;
    ConcatAssoc(Quote(x), "]", rest);
    QuoteRoundTrip(x, tail);
    CloseSeparator(rest);
    ParseElementsStep(Quote(x) + tail, x, tail);
  }

  /** An element followed by a comma and the remaining elements of the array. */
  lemma ElementsCons(x: string, more: string, xs: seq<string>, rest: string)
    requires |more| > 0 && more[0] == '"'
    requires ParseElements(more) == Some((xs, rest))
    ensures ParseElements(Quote(x) + "," + more) == Some(([x] + xs, rest))
  {
    var tail := "," + more;
    ConcatAssoc(Quote(x), ",", more);
    QuoteRoundTrip(x, tail);
    CommaSeparator(more);
    ParseElementsStep(Quote(x) + tail, x, tail);
  }

  /** The elements of a non-empty array, followed by its bracket, parse back. */
  lemma {:induction false} ElementsRoundTrip(xs: seq<string>, rest: string)
    requires |xs| >= 1
    ensures ParseElements(EncodeElements(xs) + "]" + rest) == Some((xs, rest))
    decreases |xs|
  {
    if |xs| == 1 {
      assert EncodeElements(xs) == Quote(xs[0]);
      ElementsLast(xs[0], rest);
      assert [xs[0]] == xs;
    } else {
      var more := EncodeElements(xs[1..]) + "]" + rest;
      assert EncodeElements(xs) + "]" + rest == Quote(xs[0]) + "," + more;
      ElementsStartWithQuote(xs[1..]);
      assert more[0] == '"';
      ElementsRoundTrip(xs[1..], rest);
      ElementsCons(xs[0], more, xs[1..], rest);
      assert [xs[0]] + xs[1..] == xs;
    }
  }

  lemma ElementsStartWithQuote(xs: seq<string>)
    requires |xs| >= 1
    ensures |EncodeElements(xs)| > 0 && EncodeElements(xs)[0] == '"'
  {
  }

  /** `JSON.parse(JSON.stringify(xs))` gives `xs` back, for every array of strings. */
  lemma DecodeEncode(xs: seq<string>)
    ensures DecodeStrings(EncodeStrings(xs)) == Some(xs)
  {
    var t := EncodeStrings(xs);
    var inner := EncodeElements(xs) + "]";
    assert t[0] == '[' && t[1..] == inner;
    assert SkipWs(t) == t;
    if |xs| == 0 {
      assert inner == "]";
      assert inner[1..] == "";
    } else {
      ElementsRoundTrip(xs, "");
      assert inner + "" == inner;
      ElementsStartWithQuote(xs);
      assert SkipWs(inner) == inner;
      assert ParseElements(inner) == Some((xs, ""));
    }
  }

  /** Two arrays of strings share a JSON text only if they are equal. */
  lemma EncodeInjective(xs: seq<string>, ys: seq<string>)
    ensures EncodeStrings(xs) == EncodeStrings(ys) ==> xs == ys
  {
    DecodeEncode(xs);
    DecodeEncode(ys);
  }
}
