/**
 How a MySQL server reads quoted text, from sections 9.1.1 (string literals) and 9.2
 (identifiers) of the MySQL 5.7 Reference Manual.  It is the yardstick for the escaper:
 nothing here looks at how text was escaped.
 */
module MysqlLexer {
  import opened Bytes
  import opened Charset
  import opened Options

  /** A value read from quoted text, and the text that follows its closing quote. */
  datatype Quoted = Quoted(value: Str, rest: Str)

  /** What backslash and one byte stand for (table 9.1). */
  function Unescape(c: byte): Str {
    if c == 0x30 then [NUL]                // 0
    else if c == 0x62 then [0x08]          // b
    else if c == 0x6E then [NEWLINE]       // n
    else if c == 0x72 then [RETURN]        // r
    else if c == 0x74 then [0x09]          // t
    else if c == 0x5A then [CTRL_Z]        // Z
    else if c == 0x25 then [BACKSLASH, c]  // %
    else if c == 0x5F then [BACKSLASH, c]  // _
    else [c]
  }

  function Prepend(head: Str, tail: Option<Quoted>): Option<Quoted> {
    match tail
    case None => None
    case Some(t) => Some(Quoted(head + t.value, t.rest))
  }

  /** Reads a string constant from just after its opening quote `q`; None when it is not closed. */
  function ReadString(cs: Charset, q: byte, s: Str): (r: Option<Quoted>)
    ensures r.Some? ==> |r.value.rest| < |s|
  {
    if s == [] then None
    else
      var k := IsMbChar(cs, s);
      if k > 0 then Prepend(s[..k], ReadString(cs, q, s[k..]))
      else if s[0] == BACKSLASH then
        if |s| == 1 then None else Prepend(Unescape(s[1]), ReadString(cs, q, s[2..]))
      else if s[0] == q then
        if |s| > 1 && s[1] == q then Prepend([q], ReadString(cs, q, s[2..])) else Some(Quoted([], s[1..]))
      else Prepend([s[0]], ReadString(cs, q, s[1..]))
  }

  /** Reads a quoted identifier from just after its opening quote: only a doubled quote is special. */
  function ReadIdentifier(cs: Charset, q: byte, s: Str): (r: Option<Quoted>)
    ensures r.Some? ==> |r.value.rest| < |s|
  {
    if s == [] then None
    else
      var k := IsMbChar(cs, s);
      if k > 0 then Prepend(s[..k], ReadIdentifier(cs, q, s[k..]))
      else if s[0] == q then
        if |s| > 1 && s[1] == q then Prepend([q], ReadIdentifier(cs, q, s[2..])) else Some(Quoted([], s[1..]))
      else Prepend([s[0]], ReadIdentifier(cs, q, s[1..]))
  }

  predicate IsQuote(q: byte) {
    q == QUOTE || q == DOUBLE_QUOTE || q == BACKTICK
  }

  function ReadQuoted(cs: Charset, q: byte, s: Str): (r: Option<Quoted>)
    ensures r.Some? ==> |r.value.rest| < |s|
  {
    if q == BACKTICK then ReadIdentifier(cs, q, s) else ReadString(cs, q, s)
  }

  /** A byte outside quotes, or quoted text: an identifier in backticks, a string constant otherwise. */
  datatype Token = Raw(b: byte) | Enclosed(quote: byte, value: Str)

  function Raws(s: Str): (ts: seq<Token>)
    ensures |ts| == |s|
  {
    seq(|s|, i requires 0 <= i < |s| => Raw(s[i]))
  }

  function Follow(head: seq<Token>, tail: Option<seq<Token>>): Option<seq<Token>> {
    match tail
    case None => None
    case Some(t) => Some(head + t)
  }

  /** Splits a statement into quoted and unquoted text; None when a quote is left open. */
  function Tokens(cs: Charset, s: Str): Option<seq<Token>>
    decreases |s|
  {
    if s == [] then Some([])
    else
      var k := IsMbChar(cs, s);
      if k > 0 then Follow(Raws(s[..k]), Tokens(cs, s[k..]))
      else if IsQuote(s[0]) then
        match ReadQuoted(cs, s[0], s[1..]) {
          case None => None
          case Some(q) => Follow([Enclosed(s[0], q.value)], Tokens(cs, q.rest))
        }
      else Follow([Raw(s[0])], Tokens(cs, s[1..]))
  }
}
