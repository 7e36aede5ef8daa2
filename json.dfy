/** The JSON text forms the serializer writes: string literals with Json.NET's default escaping,
    and arrays of strings; with a decoder for each and the round trips between them. */
module Json {
  import opened Wrappers
  import Utf8

  function HexDigit(d: int): (c: char)
    requires 0 <= d < 16
    ensures HexValue(c) == Some(d)
    ensures '0' <= c <= '9' || 'a' <= c <= 'f'
  {
    if d < 10 then ('0' as int + d) as char else ('a' as int + d - 10) as char
  }

  function HexValue(c: char): Option<int> {
    if '0' <= c <= '9' then Some(c as int - '0' as int)
    else if 'a' <= c <= 'f' then Some(c as int - 'a' as int + 10)
    else if 'A' <= c <= 'F' then Some(c as int - 'A' as int + 10)
    else None
  }

  /** `\u` followed by four lower-case hex digits, most significant first. */
  function UnicodeEscape(n: int): string
    requires 0 <= n < 0x10000
  {
    var r := n % 4096;
    var q := r % 256;
    ['\\', 'u', HexDigit(n / 4096), HexDigit(r / 256), HexDigit(q / 16), HexDigit(q % 16)]
  }

  /** Json.NET's default escaping of one character inside a double-quoted string:
      quote and backslash, the named controls, other controls below U+0020 and the
      three line terminators U+0085, U+2028, U+2029; everything else is written as is. */
  function EscapeChar(c: char): (r: string)
    ensures r == [c] <==> c != '"' && c != '\\' && c as int >= 0x20 && c as int != 0x85
                          && c as int != 0x2028 && c as int != 0x2029
    ensures r != [c] ==> |r| >= 2 && r[0] == '\\'
  {
    var n := c as int;
    if c == '"' then ['\\', '"']
    else if c == '\\' then ['\\', '\\']
    else if n == 8 then ['\\', 'b']
    else if n == 9 then ['\\', 't']
    else if n == 10 then ['\\', 'n']
    else if n == 12 then ['\\', 'f']
    else if n == 13 then ['\\', 'r']
    else if n < 0x20 || n == 0x85 || n == 0x2028 || n == 0x2029 then UnicodeEscape(n)
    else [c]
  }

  /** The escaped body is never shorter than the text, and at most six characters per character. */
  function Escape(s: string): (r: string)
    ensures |s| <= |r| <= 6 * |s|
  {
    if s == [] then [] else EscapeChar(s[0]) + Escape(s[1..])
  }

  /** An escaped character holds no raw control character: controls become escape sequences. */
  lemma EscapeCharNoControl(c: char)
    ensures forall i :: 0 <= i < |EscapeChar(c)| ==> EscapeChar(c)[i] as int >= 0x20
  {
    var n := c as int;
    if c == '"' || c == '\\' || n == 8 || n == 9 || n == 10 || n == 12 || n == 13 {
      assert |EscapeChar(c)| == 2 && EscapeChar(c)[0] == '\\' && EscapeChar(c)[1] as int >= 0x20;
    } else if n < 0x20 || n == 0x85 || n == 0x2028 || n == 0x2029 {
      UnicodeEscapeNoControl(n);
    } else {
      assert EscapeChar(c) == [c];
    }
  }

  lemma UnicodeEscapeNoControl(n: int)
    requires 0 <= n < 0x10000
    ensures forall i :: 0 <= i < |UnicodeEscape(n)| ==> UnicodeEscape(n)[i] as int >= 0x20
  {
  }

  /** The escaped body holds no raw control character, whatever the text holds. */
  lemma {:induction false} EscapeNoControl(s: string)
    ensures forall i :: 0 <= i < |Escape(s)| ==> Escape(s)[i] as int >= 0x20
  {
    if s != [] {
      EscapeNoControl(s[1..]);
      EscapeCharNoControl(s[0]);
      var h := EscapeChar(s[0]);
      var t := Escape(s[1..]);
      forall i | 0 <= i < |h + t| ensures (h + t)[i] as int >= 0x20 {
        if i >= |h| { assert (h + t)[i] == t[i - |h|]; }
      }
    }
  }

  function Quote(s: string): string {
    "\"" + Escape(s) + "\""
  }

  /** A JSON array of strings, elements in list order, no white space. */
  function EmitList(xs: seq<string>): (r: string)
    ensures |r| >= 2 && r[0] == '[' && r[|r| - 1] == ']'
    ensures xs == [] <==> r == "[]"
  {
    if xs == [] then "[]" else "[" + Quote(xs[0]) + EmitTail(xs[1..])
  }

  function EmitTail(xs: seq<string>): (r: string)
    ensures |r| >= 1 && r[|r| - 1] == ']'
  {
    if xs == [] then "]" else "," + Quote(xs[0]) + EmitTail(xs[1..])
  }

  /** Escaping keeps ASCII text ASCII: every escape sequence is itself ASCII. */
  lemma {:induction false} EscapeAscii(s: string)
    requires Utf8.IsAscii(s)
    ensures Utf8.IsAscii(Escape(s))
  {
    if s != [] {
      assert s[0] in s;
      assert Utf8.IsAscii(s[1..]) by {
        forall c | c in s[1..] ensures c as int < 0x80 { assert c in s; }
      }
      EscapeAscii(s[1..]);
      Utf8.AsciiConcat(EscapeChar(s[0]), Escape(s[1..]));
    }
  }

  predicate AllAscii(xs: seq<string>) {
    forall i :: 0 <= i < |xs| ==> Utf8.IsAscii(xs[i])
  }

  lemma QuoteAscii(s: string)
    requires Utf8.IsAscii(s)
    ensures Utf8.IsAscii(Quote(s))
  {
    EscapeAscii(s);
    Utf8.AsciiConcat("\"", Escape(s));
    Utf8.AsciiConcat("\"" + Escape(s), "\"");
  }

  lemma {:induction false} EmitListAscii(xs: seq<string>)
    requires AllAscii(xs)
    ensures Utf8.IsAscii(EmitList(xs))
  {
    if xs != [] {
      QuoteAscii(xs[0]);
      EmitTailAscii(xs[1..]);
      Utf8.AsciiConcat("[", Quote(xs[0]));
      Utf8.AsciiConcat("[" + Quote(xs[0]), EmitTail(xs[1..]));
    }
  }

  lemma {:induction false} EmitTailAscii(xs: seq<string>)
    requires AllAscii(xs)
    ensures Utf8.IsAscii(EmitTail(xs))
  {
    if xs != [] {
      QuoteAscii(xs[0]);
      assert AllAscii(xs[1..]) by {
        forall i | 0 <= i < |xs[1..]| ensures Utf8.IsAscii(xs[1..][i]) { assert xs[1..][i] == xs[i + 1]; }
      }
      EmitTailAscii(xs[1..]);
      Utf8.AsciiConcat(",", Quote(xs[0]));
      Utf8.AsciiConcat("," + Quote(xs[0]), EmitTail(xs[1..]));
    }
  }

  // ---- decoding ----

  /** The character an escape sequence at the head of `t` stands for, and its length. */
  function UnescapeHead(t: string): (r: Option<(char, nat)>)
    requires |t| >= 1 && t[0] == '\\'
    ensures r.Some? ==> 2 <= r.value.1 <= |t|
  {
    if |t| < 2 then None
    else
      match t[1]
      case '"' => Some(('"', 2))
      case '\\' => Some(('\\', 2))
      case '/' => Some(('/', 2))
      case 'b' => Some((8 as char, 2))
      case 't' => Some((9 as char, 2))
      case 'n' => Some((10 as char, 2))
      case 'f' => Some((12 as char, 2))
      case 'r' => Some((13 as char, 2))
      case 'u' =>
        if |t| < 6 then None
        else (
          match (HexValue(t[2]), HexValue(t[3]), HexValue(t[4]), HexValue(t[5]))
          case (Some(a), Some(b), Some(c), Some(d)) =>
            var n := a * 4096 + b * 256 + c * 16 + d;
            if 0 <= n < 0xD800 || 0xE000 <= n < 0x10000 then Some((n as char, 6)) else None
          case _ => None)
      case _ => None
  }

  /** The body of a string literal up to its closing quote, and what follows the quote. */
  function ParseBody(t: string): (r: Option<(string, string)>)
    ensures r.Some? ==> |r.value.1| < |t|
    decreases |t|
  {
    if |t| == 0 then None
    else if t[0] == '"' then Some(([], t[1..]))
    else if t[0] == '\\' then
      match UnescapeHead(t)
      case None => None
      case Some((c, k)) =>
        match ParseBody(t[k..])
        case None => None
        case Some((v, rest)) => Some(([c] + v, rest))
    else if (t[0] as int) < 0x20 then None
    else
      match ParseBody(t[1..])
      case None => None
      case Some((v, rest)) => Some(([t[0]] + v, rest))
  }

  function ParseString(t: string): (r: Option<(string, string)>)
    ensures r.Some? ==> |r.value.1| < |t|
  {
    if |t| > 0 && t[0] == '"' then ParseBody(t[1..]) else None
  }

  function ParseList(t: string): (r: Option<(seq<string>, string)>)
    ensures r.Some? ==> |r.value.1| < |t|
  {
    if |t| >= 2 && t[0] == '[' && t[1] == ']' then Some(([], t[2..]))
    else if |t| >= 1 && t[0] == '[' then
      match ParseString(t[1..])
      case None => None
      case Some((x, r)) =>
        match ParseTail(r)
        case None => None
        case Some((xs, rest)) => Some(([x] + xs, rest))
    else None
  }

  function ParseTail(t: string): (r: Option<(seq<string>, string)>)
    ensures r.Some? ==> |r.value.1| < |t|
    decreases |t|
  {
    if |t| >= 1 && t[0] == ']' then Some(([], t[1..]))
    else if |t| >= 1 && t[0] == ',' then
      match ParseString(t[1..])
      case None => None
      case Some((x, r)) =>
        match ParseTail(r)
        case None => None
        case Some((xs, rest)) => Some(([x] + xs, rest))
    else None
  }

  // ---- round trips ----

  lemma UnescapeUnicode(n: int, rest: string)
    requires 0 <= n < 0xD800
    ensures UnescapeHead(UnicodeEscape(n) + rest) == Some((n as char, 6))
  {
    var t := UnicodeEscape(n) + rest;
    var a, b, c, d := n / 4096, n % 4096 / 256, n % 4096 % 256 / 16, n % 4096 % 256 % 16;
    assert t[1] == 'u' && |t| >= 6;
    assert HexValue(t[2]) == Some(a) && HexValue(t[3]) == Some(b);
    assert HexValue(t[4]) == Some(c) && HexValue(t[5]) == Some(d);
    HexRecombine(n);
  }

  lemma HexRecombine(n: int)
    requires 0 <= n < 0x10000
    ensures n / 4096 * 4096 + n % 4096 / 256 * 256 + n % 4096 % 256 / 16 * 16 + n % 4096 % 256 % 16 == n
  {
    var r := n % 4096;
    var q := r % 256;
    assert n == n / 4096 * 4096 + r;
    assert r == r / 256 * 256 + q;
    assert q == q / 16 * 16 + q % 16;
  }

  lemma UnescapeEscaped(c: char, rest: string)
    requires EscapeChar(c) != [c]
    ensures |EscapeChar(c)| >= 2 && EscapeChar(c)[0] == '\\'
    ensures UnescapeHead(EscapeChar(c) + rest) == Some((c, |EscapeChar(c)|))
  {
    var n := c as int;
    var t := EscapeChar(c) + rest;
    if c == '"' || c == '\\' || n == 8 || n == 9 || n == 10 || n == 12 || n == 13 {
      assert t[1] == EscapeChar(c)[1];
    } else {
      UnescapeUnicode(n, rest);
    }
  }

  /** A string body written by Escape reads back as the original string, the closing quote
      and not any escaped one ending it. */
  lemma {:induction false} ParseEscaped(s: string, rest: string)
    ensures ParseBody(Escape(s) + "\"" + rest) == Some((s, rest))
  {
    if s == [] {
      assert Escape(s) + "\"" + rest == ['"'] + rest;
    } else {
      ParseEscaped(s[1..], rest);
      ParseEscapedCons(s, rest);
    }
  }

  lemma ParseEscapedCons(s: string, rest: string)
    requires s != [] && ParseBody(Escape(s[1..]) + "\"" + rest) == Some((s[1..], rest))
    ensures ParseBody(Escape(s) + "\"" + rest) == Some((s, rest))
  {
    var e := EscapeChar(s[0]);
    var tail := Escape(s[1..]) + "\"" + rest;
    var t := Escape(s) + "\"" + rest;
    assert t == e + tail by {
      Associate4(e, Escape(s[1..]), "\"", rest);
      Associate3(Escape(s[1..]), "\"", rest);
    }
    if e == [s[0]] {
      assert t[0] == s[0] && t[1..] == tail;
      assert s[0] != '"' && s[0] != '\\' && s[0] as int >= 0x20;
    } else {
      UnescapeEscaped(s[0], tail);
      assert t[|e|..] == tail;
    }
    assert [s[0]] + s[1..] == s;
  }

  lemma Associate3(a: string, b: string, c: string)
    ensures a + b + c == a + (b + c)
  {
  }


  lemma ParseQuoted(s: string, rest: string)
    ensures ParseString(Quote(s) + rest) == Some((s, rest))
  {
    var t := Quote(s) + rest;
    assert t == ['"'] + (Escape(s) + "\"" + rest);
    assert t[1..] == Escape(s) + "\"" + rest;
    ParseEscaped(s, rest);
  }

  /** An emitted array reads back as the same elements in the same order. */
  lemma ParseEmitted(xs: seq<string>, rest: string)
    ensures ParseList(EmitList(xs) + rest) == Some((xs, rest))
  {
    if xs == [] { ParseEmittedEmpty(rest); } else { ParseEmittedNonEmpty(xs, rest); }
  }

  lemma ParseEmittedEmpty(rest: string)
    ensures ParseList(EmitList([]) + rest) == Some(([], rest))
  {
    var t := EmitList([]) + rest;
    assert t == "[]" + rest;
    assert t[0] == '[' && t[1] == ']' && t[2..] == rest;
  }

  lemma ParseEmittedNonEmpty(xs: seq<string>, rest: string)
    requires xs != []
    ensures ParseList(EmitList(xs) + rest) == Some((xs, rest))
  {
    var after := EmitTail(xs[1..]) + rest;
    var u := Quote(xs[0]) + after;
    assert EmitList(xs) + rest == "[" + u by {
      assert EmitList(xs) == "[" + Quote(xs[0]) + EmitTail(xs[1..]);
      Associate4("[", Quote(xs[0]), EmitTail(xs[1..]), rest);
    }
    ParseQuoted(xs[0], after);
    ParseEmittedTail(xs[1..], rest);
    ParseListStep(u, xs[0], after, xs[1..], rest);
    assert [xs[0]] + xs[1..] == xs;
  }

  lemma ParseListStep(u: string, x: string, after: string, xs: seq<string>, rest: string)
    requires ParseString(u) == Some((x, after)) && ParseTail(after) == Some((xs, rest))
    ensures ParseList("[" + u) == Some(([x] + xs, rest))
  {
    var t := "[" + u;
    assert t[1..] == u;
  }

  lemma {:induction false} ParseEmittedTail(xs: seq<string>, rest: string)
    ensures ParseTail(EmitTail(xs) + rest) == Some((xs, rest))
  {
    if xs == [] {
      ParseEmittedTailEmpty(rest);
    } else {
      ParseEmittedTail(xs[1..], rest);
      ParseEmittedTailCons(xs, rest);
    }
  }

  lemma ParseEmittedTailEmpty(rest: string)
    ensures ParseTail(EmitTail([]) + rest) == Some(([], rest))
  {
    var t := EmitTail([]) + rest;
    assert t == "]" + rest;
    assert t[1..] == rest;
  }

  lemma ParseEmittedTailCons(xs: seq<string>, rest: string)
    requires xs != [] && ParseTail(EmitTail(xs[1..]) + rest) == Some((xs[1..], rest))
    ensures ParseTail(EmitTail(xs) + rest) == Some((xs, rest))
  {
    var after := EmitTail(xs[1..]) + rest;
    var u := Quote(xs[0]) + after;
    EmitTailCons(xs, rest);
    ParseQuoted(xs[0], after);
    ParseTailStep(u, xs[0], after, xs[1..], rest);
    assert [xs[0]] + xs[1..] == xs;
  }

  lemma EmitTailCons(xs: seq<string>, rest: string)
    requires xs != []
    ensures EmitTail(xs) + rest == "," + (Quote(xs[0]) + (EmitTail(xs[1..]) + rest))
  {
    var q, t := Quote(xs[0]), EmitTail(xs[1..]);
    assert EmitTail(xs) == "," + q + t;
    Associate4(",", q, t, rest);
  }

  lemma Associate4(a: string, b: string, c: string, d: string)
    ensures a + b + c + d == a + (b + (c + d))
  {
  }

  lemma ParseTailStep(u: string, x: string, after: string, xs: seq<string>, rest: string)
    requires ParseString(u) == Some((x, after)) && ParseTail(after) == Some((xs, rest))
    ensures ParseTail("," + u) == Some(([x] + xs, rest))
  {
    var t := "," + u;
    assert t[1..] == u;
  }
}
