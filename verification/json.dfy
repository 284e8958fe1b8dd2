/** `JSON.stringify` of a string, as the transpiler uses it to hand argument
    values to evaluated template code, and the reading of such a literal
    back, so that the escaping can be shown lossless. */
module Json {
  import opened Errors

  /** One lower-case hexadecimal digit. */
  function HexDigit(d: nat): (c: char)
    requires d < 16
    ensures HexValue(c) == Some(d)
  {
    if d < 10 then ('0' as int + d) as char else ('a' as int + d - 10) as char
  }

  /** The value of a hexadecimal digit of either case. */
  function HexValue(c: char): (r: Option<nat>)
    ensures r.Some? ==> r.value < 16
  {
    if '0' <= c <= '9' then Some(c as int - '0' as int)
    else if 'a' <= c <= 'f' then Some(c as int - 'a' as int + 10)
    else if 'A' <= c <= 'F' then Some(c as int - 'A' as int + 10)
    else None
  }

  /** Four lower-case hexadecimal digits of a number below 0x10000. */
  function Hex4(n: nat): (r: string)
    requires n < 0x10000
    ensures |r| == 4
  {
    var q1 := n / 16;
    var q2 := q1 / 16;
    [HexDigit(q2 / 16), HexDigit(q2 % 16), HexDigit(q1 % 16), HexDigit(n % 16)]
  }

  /** The number four hexadecimal digits spell. */
  function Hex4Value(s: string): (r: Option<nat>)
    requires |s| == 4
    ensures r.Some? ==> r.value < 0x10000
  {
    match (HexValue(s[0]), HexValue(s[1]), HexValue(s[2]), HexValue(s[3]))
    case (Some(a), Some(b), Some(c), Some(d)) => Some(((a * 16 + b) * 16 + c) * 16 + d)
    case _ => None
  }

  lemma Hex4RoundTrip(n: nat)
    requires n < 0x10000
    ensures Hex4Value(Hex4(n)) == Some(n)
  {
    var q1 := n / 16;
    var q2 := q1 / 16;
    assert n == q1 * 16 + n % 16;
    assert q1 == q2 * 16 + q1 % 16;
    assert q2 == q2 / 16 * 16 + q2 % 16;
  }

  /** The escape of one character inside a string literal: the two-letter
      escapes JSON has, `\u` and four hex digits for the other control
      characters, and the character itself otherwise. */
  function JsonChar(c: char): (r: string)
    ensures r != []
  {
    if c as int == 0x08 then "\\b"
    else if c == '\t' then "\\t"
    else if c == '\n' then "\\n"
    else if c as int == 0x0C then "\\f"
    else if c == '\r' then "\\r"
    else if c == '"' then "\\\""
    else if c == '\\' then "\\\\"
    else if (c as int) < 0x20 then "\\u" + Hex4(c as int)
    else [c]
  }

  function JsonEscape(s: string): string
    decreases |s|
  {
    if s == [] then "" else JsonChar(s[0]) + JsonEscape(s[1..])
  }

  /** `JSON.stringify` of a string. */
  function JsonQuote(s: string): string {
    "\"" + JsonEscape(s) + "\""
  }

  /** The character a two-letter escape stands for. */
  function EscapedChar(c: char): Option<char> {
    if c == 'b' then Some(0x08 as char)
    else if c == 't' then Some('\t')
    else if c == 'n' then Some('\n')
    else if c == 'f' then Some(0x0C as char)
    else if c == 'r' then Some('\r')
    else if c == '"' then Some('"')
    else if c == '\\' then Some('\\')
    else if c == '/' then Some('/')
    else None
  }

  /** Reads the inside of a string literal back: `None` for a malformed
      escape, an unescaped quote or a raw control character. A `\u` escape
      of a lone surrogate is refused, since it names no character. */
  function JsonUnescape(s: string): Option<string>
    decreases |s|
  {
    if s == [] then Some([])
    else if s[0] == '"' || (s[0] as int) < 0x20 then None
    else if s[0] != '\\' then
      match JsonUnescape(s[1..])
      case None => None
      case Some(t) => Some([s[0]] + t)
    else if |s| < 2 then None
    else if s[1] == 'u' then
      if |s| < 6 then None
      else
        match Hex4Value(s[2..6])
        case None => None
        case Some(n) =>
          if 0xD800 <= n < 0xE000 then None
          else
            match JsonUnescape(s[6..])
            case None => None
            case Some(t) => Some([n as char] + t)
    else
      match EscapedChar(s[1])
      case None => None
      case Some(c) =>
        match JsonUnescape(s[2..])
        case None => None
        case Some(t) => Some([c] + t)
  }

  /** Prepends a character to a successful reading. */
  function Cons(c: char, r: Option<string>): Option<string> {
    match r
    case None => None
    case Some(t) => Some([c] + t)
  }

  /** Reading an escaped character followed by more text yields the
      character followed by the reading of the rest. */
  lemma JsonCharRead(c: char, t: string)
    ensures JsonUnescape(JsonChar(c) + t) == Cons(c, JsonUnescape(t))
  {
    var e := JsonChar(c);
    var s := e + t;
    if c as int < 0x20 && !(c as int == 0x08 || c == '\t' || c == '\n' || c as int == 0x0C || c == '\r') {
      Hex4RoundTrip(c as int);
      assert s[2..6] == Hex4(c as int);
      assert s[6..] == t;
    } else if |e| == 2 {
      assert s[2..] == t;
    } else {
      assert s[1..] == t;
    }
  }

  /** The escaping is lossless: the evaluated code's string literal reads
      back as exactly the argument's value. */
  lemma {:induction false} JsonEscapeRoundTrip(s: string)
    ensures JsonUnescape(JsonEscape(s)) == Some(s)
    decreases |s|
  {
    if s != [] {
      JsonEscapeRoundTrip(s[1..]);
      JsonCharRead(s[0], JsonEscape(s[1..]));
      assert s == [s[0]] + s[1..];
    }
  }

  /** The literal is delimited by its quotes: none occurs unescaped
      inside it. */
  lemma JsonQuoteShape(s: string)
    ensures var q := JsonQuote(s);
      && |q| >= 2 && q[0] == '"' && q[|q| - 1] == '"'
      && q[1..|q| - 1] == JsonEscape(s)
      && JsonUnescape(q[1..|q| - 1]) == Some(s)
  {
    JsonEscapeRoundTrip(s);
    var q := JsonQuote(s);
    assert q[1..|q| - 1] == JsonEscape(s);
  }
}
