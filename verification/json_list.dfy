/** The text encoding of the list-valued scholarship columns (eligibility,
    requirements, field_of_study): `JSON.stringify` of an array of strings on
    the write path and `JSON.parse` on the read path. `Encode` follows the
    ECMAScript JSON.stringify rules for strings; `Decode` reads the canonical
    form `Encode` produces. */
module JsonList {
  import opened Common

  /** Lower-case hexadecimal digit, as `JSON.stringify` writes in `\u00XX`. */
  function HexDigit(d: nat): char
    requires d < 16
  {
    if d < 10 then ('0' as int + d) as char else ('a' as int + d - 10) as char
  }

  function HexValue(c: char): Option<nat>
  {
    if '0' <= c <= '9' then Some(c as int - '0' as int)
    else if 'a' <= c <= 'f' then Some(c as int - 'a' as int + 10)
    else if 'A' <= c <= 'F' then Some(c as int - 'A' as int + 10)
    else None
  }

  /** How one character of a string is written inside the quotes. */
  function EscapeChar(c: char): (e: string)
    ensures 1 <= |e| <= 6
    ensures e[0] != '"'
  {
    var n := c as int;
    if n == 0x22 then ['\\', '"']
    else if n == 0x5C then ['\\', '\\']
    else if n == 0x08 then ['\\', 'b']
    else if n == 0x09 then ['\\', 't']
    else if n == 0x0A then ['\\', 'n']
    else if n == 0x0C then ['\\', 'f']
    else if n == 0x0D then ['\\', 'r']
    else if n < 0x20 then ['\\', 'u', '0', '0', HexDigit(n / 16), HexDigit(n % 16)]
    else [c]
  }

  function Escape(s: string): string
  {
    if s == [] then [] else EscapeChar(s[0]) + Escape(s[1..])
  }

  /** `JSON.stringify` of one string. */
  function Quote(s: string): string
  {
    ['"'] + Escape(s) + ['"']
  }

  function Items(xs: seq<string>): string
  {
    if xs == [] then []
    else if |xs| == 1 then Quote(xs[0])
    else Quote(xs[0]) + [','] + Items(xs[1..])
  }

  /** `JSON.stringify` of an array of strings: `["a","b"]`, `[]` when empty. */
  function Encode(xs: seq<string>): (r: string)
    ensures |r| >= 2 && r[0] == '[' && r[|r| - 1] == ']'
  {
    ['['] + Items(xs) + [']']
  }

  /** The character an escape sequence stands for, and how many characters
      after the backslash it occupies. */
  function Unescape(u: string): (r: Option<(char, nat)>)
    ensures r.Some? ==> 1 <= r.value.1 <= |u|
  {
    if u == [] then None
    else if u[0] == '"' then Some(('"', 1))
    else if u[0] == '\\' then Some(('\\', 1))
    else if u[0] == '/' then Some(('/', 1))
    else if u[0] == 'b' then Some((8 as char, 1))
    else if u[0] == 't' then Some((9 as char, 1))
    else if u[0] == 'n' then Some((10 as char, 1))
    else if u[0] == 'f' then Some((12 as char, 1))
    else if u[0] == 'r' then Some((13 as char, 1))
    else if u[0] == 'u' && |u| >= 5 then
      match (HexValue(u[1]), HexValue(u[2]), HexValue(u[3]), HexValue(u[4]))
      case (Some(a), Some(b), Some(c), Some(d)) =>
        var n := ((a * 16 + b) * 16 + c) * 16 + d;
        if 0xD800 <= n < 0xE000 then None else Some((n as char, 5))
      case _ => None
    else None
  }

  /** Reads the body of a string literal up to and including its closing
      quote; answers the decoded string and what follows the quote. */
  function ParseBody(t: string): (r: Option<(string, string)>)
    ensures r.Some? ==> |r.value.1| < |t|
    decreases |t|
  {
    if t == [] then None
    else if t[0] == '"' then Some(([], t[1..]))
    else if t[0] as int < 0x20 then None
    else if t[0] == '\\' then
      match Unescape(t[1..])
      case None => None
      case Some((c, k)) =>
        match ParseBody(t[1 + k..])
        case None => None
        case Some((v, rest)) => Some(([c] + v, rest))
    else
      match ParseBody(t[1..])
      case None => None
      case Some((v, rest)) => Some(([t[0]] + v, rest))
  }

  /** Reads `"..."` followed by either `]` at the end of the text or `,` and more items. */
  function ParseItems(t: string): Option<seq<string>>
    decreases |t|
  {
    if t == [] || t[0] != '"' then None
    else
      match ParseBody(t[1..])
      case None => None
      case Some((v, rest)) =>
        if rest == [']'] then Some([v])
        else if rest != [] && rest[0] == ',' then
          match ParseItems(rest[1..])
          case None => None
          case Some(vs) => Some([v] + vs)
        else None
  }

  /** `JSON.parse` of a stored list column. */
  function Decode(t: string): (r: Option<seq<string>>)
    ensures r.Some? ==> |t| >= 2 && t[0] == '['
    ensures t == "[]" ==> r == Some([])
  {
    if |t| < 2 || t[0] != '[' then None
    else if t[1..] == [']'] then Some([])
    else ParseItems(t[1..])
  }

  /** A stored column that decodes. */
  predicate WellFormed(t: string)
  {
    Decode(t).Some?
  }

  lemma {:induction false} HexRoundTrip(d: nat)
    requires d < 16
    ensures HexValue(HexDigit(d)) == Some(d)
  {
  }

  /** One escaped character is read back as itself, and parsing continues right after it. */
  lemma {:induction false} ParseEscapeChar(c: char, more: string)
    ensures ParseBody(EscapeChar(c) + more) ==
      match ParseBody(more)
      case None => None
      case Some((v, rest)) => Some(([c] + v, rest))
  {
    var e := EscapeChar(c);
    var t := e + more;
    var n := c as int;
    if n == 0x22 || n == 0x5C || n == 0x08 || n == 0x09 || n == 0x0A || n == 0x0C || n == 0x0D {
      assert t[1..] == [e[1]] + more;
      assert t[2..] == more;
      ParseAfterEscape(c, 1, t, more);
    } else if n < 0x20 {
      assert t[1..] == e[1..] + more;
      UnescapeControl(c, more);
      assert t[6..] == more;
      ParseAfterEscape(c, 5, t, more);
    } else {
      assert t[0] == c && t[1..] == more;
    }
  }

  /** A backslash whose escape stands for `c` is read as `c`, and parsing
      continues after the escape. */
  lemma ParseAfterEscape(c: char, k: nat, t: string, more: string)
    requires t != [] && t[0] == '\\' && Unescape(t[1..]) == Some((c, k)) && t[1 + k..] == more
    ensures ParseBody(t) ==
      match ParseBody(more)
      case None => None
      case Some((v, rest)) => Some(([c] + v, rest))
  {
  }

  /** The `\u00XX` escape of a control character stands for that character. */
  lemma UnescapeControl(c: char, more: string)
    requires c as int < 0x20 && c as int != 0x08 && c as int != 0x09 && c as int != 0x0A && c as int != 0x0C && c as int != 0x0D
    ensures Unescape(EscapeChar(c)[1..] + more) == Some((c, 5))
  {
    var n := c as int;
    HexRoundTrip(n / 16);
    HexRoundTrip(n % 16);
  }

  /** An escaped string followed by the closing quote is read back exactly. */
  lemma {:induction false} ParseEscape(s: string, rest: string)
    ensures ParseBody(Escape(s) + ['"'] + rest) == Some((s, rest))
  {
    if s == [] {
      assert Escape(s) + ['"'] + rest == ['"'] + rest;
    } else {
      ParseEscape(s[1..], rest);
      assert Escape(s) + ['"'] + rest == EscapeChar(s[0]) + (Escape(s[1..]) + ['"'] + rest);
      ParseEscapeChar(s[0], Escape(s[1..]) + ['"'] + rest);
      assert [s[0]] + s[1..] == s;
    }
  }

  /** One quoted item is read back, then the decision is taken on what follows it. */
  lemma {:induction false} ParseItemsStep(x: string, rest: string)
    ensures ParseItems(Quote(x) + rest) ==
      if rest == [']'] then Some([x])
      else if rest != [] && rest[0] == ',' then
        match ParseItems(rest[1..])
        case None => None
        case Some(vs) => Some([x] + vs)
      else None
  {
    var t := Quote(x) + rest;
    assert t[0] == '"';
    assert t[1..] == Escape(x) + ['"'] + rest;
    ParseEscape(x, rest);
  }

  lemma {:induction false} ParseItemsOfItems(xs: seq<string>)
    requires xs != []
    ensures ParseItems(Items(xs) + [']']) == Some(xs)
  {
    var x := xs[0];
    if |xs| == 1 {
      ParseItemsStep(x, [']']);
      assert xs == [x];
    } else {
      var tail := [','] + Items(xs[1..]) + [']'];
      assert Items(xs) + [']'] == Quote(x) + tail;
      ParseItemsStep(x, tail);
      assert tail[1..] == Items(xs[1..]) + [']'];
      ParseItemsOfItems(xs[1..]);
      assert [x] + xs[1..] == xs;
    }
  }

  /** Reading a list back after writing it gives the same list. */
  lemma DecodeEncode(xs: seq<string>)
    ensures Decode(Encode(xs)) == Some(xs)
  {
    var t := Encode(xs);
    if xs == [] {
      assert t == ['[', ']'];
    } else {
      ParseItemsOfItems(xs);
      assert t[1..] == Items(xs) + [']'];
      assert Items(xs)[0] == '"';
    }
  }

  /** Every encoded list is a well-formed stored column. */
  lemma EncodeWellFormed(xs: seq<string>)
    ensures WellFormed(Encode(xs))
  {
    DecodeEncode(xs);
  }

  /** Distinct lists are stored as distinct texts. */
  lemma EncodeInjective(xs: seq<string>, ys: seq<string>)
    requires Encode(xs) == Encode(ys)
    ensures xs == ys
  {
    DecodeEncode(xs);
    DecodeEncode(ys);
  }
}
