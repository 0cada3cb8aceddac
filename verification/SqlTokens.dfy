/**
 How a text made of tokens side by side is read back: the reader finds the tokens again, but joins
 quoted tokens that touch.
 */
module SqlTokens {
  import opened Bytes
  import opened Charset
  import opened EscapeMeaning
  import opened EscapeSpec
  import opened MysqlLexer
  import opened Options

  // ---------------------------------------------------------------------------------------
  // Joining
  // ---------------------------------------------------------------------------------------

  /** With nothing between them, a closing quote and the same opening quote read as one quote inside. */
  predicate Joins(t: Token, u: Token) {
    t.Enclosed? && u.Enclosed? && t.quote == u.quote
  }

  /** The first tokens open in the same way. */
  predicate OpensAlike(ts: seq<Token>, us: seq<Token>) {
    if ts == [] then us == []
    else us != [] && (ts[0] == us[0] || Joins(ts[0], us[0]))
  }

  /** What is read for tokens side by side. */
  function Merge(ts: seq<Token>): (ms: seq<Token>)
    ensures OpensAlike(ts, ms)
  {
    if ts == [] then []
    else
      var rest := Merge(ts[1..]);
      if rest != [] && Joins(ts[0], rest[0]) then
        [Enclosed(ts[0].quote, ts[0].value + [ts[0].quote] + rest[0].value)] + rest[1..]
      else [ts[0]] + rest
  }

  predicate Touching(ts: seq<Token>, i: nat)
    requires i + 1 < |ts|
  {
    Joins(ts[i], ts[i + 1])
  }

  ghost predicate Separated(ts: seq<Token>) {
    forall i: nat | i + 1 < |ts| :: !Touching(ts, i)
  }

  lemma {:induction false} MergeShorter(ts: seq<Token>)
    ensures |Merge(ts)| <= |ts|
    ensures |Merge(ts)| == |ts| <==> Separated(ts)
    ensures Separated(ts) ==> Merge(ts) == ts
  {
    if ts == [] {
    } else {
      var rest := ts[1..];
      MergeShorter(rest);
      forall i: nat | i + 1 < |rest|
        ensures Touching(rest, i) == Touching(ts, i + 1)
      {
      }
      if Separated(ts) {
        assert Separated(rest);
        if rest != [] {
          assert !Touching(ts, 0);
        }
      } else {
        var i: nat :| i + 1 < |ts| && Touching(ts, i);
        if i > 0 {
          assert Touching(rest, i - 1);
        }
      }
    }
  }

  /** Merging changes nothing exactly when no two quoted tokens touch. */
  lemma MergeExact(ts: seq<Token>)
    ensures Merge(ts) == ts <==> Separated(ts)
  {
    MergeShorter(ts);
  }

  /** The last token of one sequence joins the first of the other. */
  predicate Meet(a: seq<Token>, b: seq<Token>) {
    a != [] && b != [] && Joins(a[|a| - 1], b[0])
  }

  lemma SeparatedConcat(a: seq<Token>, b: seq<Token>)
    ensures Separated(a + b) <==> Separated(a) && Separated(b) && !Meet(a, b)
  {
    var ts := a + b;
    forall i: nat | i + 1 < |a|
      ensures Touching(a, i) == Touching(ts, i)
    {
    }
    forall i: nat | i + 1 < |b|
      ensures Touching(b, i) == Touching(ts, |a| + i)
    {
    }
    if a != [] && b != [] {
      assert Touching(ts, |a| - 1) <==> Meet(a, b);
    }
    if Separated(a) && Separated(b) && !Meet(a, b) {
      forall i: nat | i + 1 < |ts|
        ensures !Touching(ts, i)
      {
        if i + 1 < |a| {
          assert !Touching(a, i);
        } else if i >= |a| {
          assert !Touching(b, i - |a|);
        }
      }
    }
  }

  // ---------------------------------------------------------------------------------------
  // Tokens with their text
  // ---------------------------------------------------------------------------------------

  datatype Lexeme = Lexeme(text: Str, token: Token)

  function TextOf(ls: seq<Lexeme>): Str {
    if ls == [] then [] else ls[0].text + TextOf(ls[1..])
  }

  function TokensOf(ls: seq<Lexeme>): (ts: seq<Token>)
    ensures |ts| == |ls| && forall i | 0 <= i < |ls| :: ts[i] == ls[i].token
  {
    seq(|ls|, i requires 0 <= i < |ls| => ls[i].token)
  }

  /** A byte that means itself outside quotes in both character sets. */
  predicate IsBare(b: byte) {
    b < 0x80 && !IsQuote(b)
  }

  /** What quoted text that has come to its closing quote reads as, when `rest` follows it. */
  function Continued(cs: Charset, q: byte, value: Str, rest: Str): Option<Quoted> {
    if rest != [] && rest[0] == q then Prepend(value + [q], ReadQuoted(cs, q, rest[1..])) else Some(Quoted(value, rest))
  }

  /** `body` is quoted text behind its opening quote, up to a closing quote, and stands for `value`. */
  ghost predicate Closes(cs: Charset, q: byte, value: Str, body: Str) {
    && body != [] && body[|body| - 1] == q
    && forall rest :: ReadQuoted(cs, q, body + rest) == Continued(cs, q, value, rest)
  }

  lemma ClosesAt(cs: Charset, q: byte, value: Str, body: Str, rest: Str)
    requires Closes(cs, q, value, body)
    ensures ReadQuoted(cs, q, body + rest) == Continued(cs, q, value, rest)
  {
  }

  /** The text is read as the token, wherever it stands outside quotes. */
  ghost predicate Spells(cs: Charset, l: Lexeme) {
    match l.token
    case Raw(b) => IsBare(b) && l.text == [b]
    case Enclosed(q, value) => IsQuote(q) && l.text != [] && l.text[0] == q && Closes(cs, q, value, l.text[1..])
  }

  ghost predicate AllSpell(cs: Charset, ls: seq<Lexeme>) {
    forall i | 0 <= i < |ls| :: Spells(cs, ls[i])
  }

  lemma {:induction false} TextConcat(a: seq<Lexeme>, b: seq<Lexeme>)
    ensures TextOf(a + b) == TextOf(a) + TextOf(b)
    ensures TokensOf(a + b) == TokensOf(a) + TokensOf(b)
    decreases a
  {
    hide TokensOf;
    assert TokensOf(a + b) == TokensOf(a) + TokensOf(b);
    if a == [] {
      assert a + b == b;
    } else {
      var tail := a[1..];
      assert (a + b)[0] == a[0] && (a + b)[1..] == tail + b;
      TextConcat(tail, b);
      assert TextOf(a + b) == a[0].text + (TextOf(tail) + TextOf(b));
    }
  }

  lemma TextOne(l: Lexeme)
    ensures TextOf([l]) == l.text && TokensOf([l]) == [l.token]
  {
    assert TextOf([l][1..]) == [];
  }

  lemma BareStart(cs: Charset, b: byte, t: Str)
    requires b < 0x80
    ensures IsMbChar(cs, [b] + t) == 0
  {
    LeadByte(cs, [b] + t);
  }

  lemma RawTokens(cs: Charset, b: byte, t: Str)
    requires IsBare(b)
    ensures Tokens(cs, [b] + t) == Follow([Raw(b)], Tokens(cs, t))
  {
    BareStart(cs, b, t);
    assert ([b] + t)[1..] == t;
  }

  lemma QuotedTokens(cs: Charset, q: byte, t: Str)
    requires IsQuote(q)
    ensures Tokens(cs, [q] + t) ==
            match ReadQuoted(cs, q, t) {
              case None => None
              case Some(r) => Follow([Enclosed(q, r.value)], Tokens(cs, r.rest))
            }
  {
    BareStart(cs, q, t);
    assert ([q] + t)[1..] == t;
  }

  lemma EmptyTokens(cs: Charset)
    ensures Tokens(cs, []) == Some([])
  {
  }

  /** A text begins with a quote exactly when its first token is quoted by it. */
  lemma TextStart(cs: Charset, ls: seq<Lexeme>, q: byte)
    requires AllSpell(cs, ls) && IsQuote(q)
    ensures TextOf(ls) != [] && TextOf(ls)[0] == q <==> ls != [] && ls[0].token.Enclosed? && ls[0].token.quote == q
  {
    if ls == [] {
    } else {
      assert Spells(cs, ls[0]);
      assert ls[0].text != [] && TextOf(ls)[0] == ls[0].text[0];
    }
  }

  /** The reader recovers the tokens, with touching ones joined. */
  lemma {:induction false} TokensOfLexemes(cs: Charset, ls: seq<Lexeme>)
    requires AllSpell(cs, ls)
    ensures Tokens(cs, TextOf(ls)) == Some(Merge(TokensOf(ls)))
    decreases ls
  {
    hide Tokens, Closes;
    if ls == [] {
      EmptyTokens(cs);
    } else {
      var rest := ls[1..];
      TokensOfLexemes(cs, rest);
      assert Spells(cs, ls[0]);
      assert TokensOf(ls)[1..] == TokensOf(rest);
      match ls[0].token {
        case Raw(b) =>
          RawTokens(cs, b, TextOf(rest));
        case Enclosed(_, _) =>
          QuotedFirst(cs, ls);
      }
    }
  }

  lemma QuotedFirst(cs: Charset, ls: seq<Lexeme>)
    requires ls != [] && AllSpell(cs, ls) && ls[0].token.Enclosed?
    requires Tokens(cs, TextOf(ls[1..])) == Some(Merge(TokensOf(ls[1..])))
    ensures Tokens(cs, TextOf(ls)) == Some(Merge(TokensOf(ls)))
  {
    hide Tokens, ReadQuoted, IsQuote, Closes;
    var q, v := ls[0].token.quote, ls[0].token.value;
    var body, text := ls[0].text[1..], TextOf(ls[1..]);
    var ts, rest := TokensOf(ls), TokensOf(ls[1..]);
    assert Spells(cs, ls[0]);
    assert TextOf(ls) == [q] + (body + text);
    assert ts[1..] == rest;
    QuotedTokens(cs, q, body + text);
    TextStart(cs, ls[1..], q);
    ClosesAt(cs, q, v, body, text);
    if text != [] && text[0] == q {
      assert text == [q] + text[1..];
      QuotedTokens(cs, q, text[1..]);
      var inner := ReadQuoted(cs, q, text[1..]);
      assert inner.Some?;
      var more := Tokens(cs, inner.value.rest);
      assert Merge(rest) == [Enclosed(q, inner.value.value)] + more.value;
      assert Merge(rest)[1..] == more.value;
    }
  }

  // ---------------------------------------------------------------------------------------
  // Spelling a value, and taking a literal apart
  // ---------------------------------------------------------------------------------------

  /** An escaped value between quotes spells the value. */
  lemma ValueSpells(cs: Charset, v: Str)
    ensures Spells(cs, Lexeme([QUOTE] + Escape(cs, Backslashes, v) + [QUOTE], Enclosed(QUOTE, v)))
  {
    hide Escape, ReadString;
    var text := [QUOTE] + Escape(cs, Backslashes, v) + [QUOTE];
    var body := text[1..];
    assert body == Escape(cs, Backslashes, v) + [QUOTE];
    forall rest
      ensures ReadQuoted(cs, QUOTE, body + rest) == Continued(cs, QUOTE, v, rest)
    {
      assert body + rest == Escape(cs, Backslashes, v) + ([QUOTE] + rest);
      ReadEscaped(cs, QUOTE, v, [QUOTE] + rest);
      if rest != [] && rest[0] == QUOTE {
        DoubledQuote(cs, QUOTE, rest[1..]);
        assert rest == [QUOTE] + rest[1..];
        PrependTwice(v, [QUOTE], ReadString(cs, QUOTE, rest[1..]));
      } else {
        ReadClosing(cs, QUOTE, rest);
        assert v + [] == v;
      }
    }
  }

  lemma DoubledQuote(cs: Charset, q: byte, t: Str)
    requires IsQuote(q)
    ensures ReadQuoted(cs, q, [q] + ([q] + t)) == Prepend([q], ReadQuoted(cs, q, t))
  {
    var s := [q] + ([q] + t);
    BareStart(cs, q, [q] + t);
    assert s[2..] == t;
  }

  lemma PrependContinued(cs: Charset, q: byte, head: Str, value: Str, rest: Str)
    ensures Prepend(head, Continued(cs, q, value, rest)) == Continued(cs, q, head + value, rest)
  {
    hide ReadQuoted;
    if rest != [] && rest[0] == q {
      PrependTwice(head, value + [q], ReadQuoted(cs, q, rest[1..]));
      assert head + (value + [q]) == (head + value) + [q];
    }
  }

  /** A closing quote, and what follows it. */
  lemma QuoteContinued(cs: Charset, q: byte, rest: Str)
    requires IsQuote(q)
    ensures ReadQuoted(cs, q, [q] + rest) == Continued(cs, q, [], rest)
  {
    hide ReadString, ReadIdentifier;
    if rest != [] && rest[0] == q {
      DoubledQuote(cs, q, rest[1..]);
      assert rest == [q] + rest[1..];
      assert [] + [q] == [q];
    } else {
      ReadClosing(cs, q, rest);
    }
  }

  /** One round of the reader inside quotes that stays inside: `k` bytes that give `head`. */
  ghost predicate Round(cs: Charset, q: byte, s: Str, k: nat, head: Str) {
    && 0 < k <= |s|
    && forall t :: ReadQuoted(cs, q, s[..k] + t) == Prepend(head, ReadQuoted(cs, q, t))
  }

  lemma RoundAt(cs: Charset, q: byte, s: Str, k: nat, head: Str, t: Str)
    requires Round(cs, q, s, k, head)
    ensures ReadQuoted(cs, q, s[..k] + t) == Prepend(head, ReadQuoted(cs, q, t))
  {
  }

  /** Inside quotes ASCII text either closes, or goes on by one round. */
  lemma AsciiRound(cs: Charset, q: byte, s: Str) returns (k: nat, head: Str)
    requires IsQuote(q) && IsAscii(s) && ReadQuoted(cs, q, s).Some?
    ensures s != []
    ensures k > 0 ==> k <= |s| && Round(cs, q, s, k, head)
    ensures k == 0 ==> s[0] == q && (|s| > 1 ==> s[1] != q)
  {
    BareStart(cs, s[0], s[1..]);
    assert s == [s[0]] + s[1..];
    if q != BACKTICK && s[0] == BACKSLASH {
      k, head := 2, Unescape(s[1]);
    } else if s[0] == q {
      k, head := if |s| > 1 && s[1] == q then 2 else 0, [q];
    } else {
      k, head := 1, [s[0]];
    }
    if k > 0 {
      forall t
        ensures ReadQuoted(cs, q, s[..k] + t) == Prepend(head, ReadQuoted(cs, q, t))
      {
        var text := s[..k] + t;
        BareStart(cs, s[0], text[1..]);
        assert text == [s[0]] + text[1..];
        assert text[k..] == t;
      }
    }
  }

  /** The reader comes to a closing quote in `s`, and would with anything else behind that quote. */
  ghost predicate Ends(cs: Charset, q: byte, s: Str, rest: Str) {
    var r := ReadQuoted(cs, q, s);
    r.Some? &&
    var n := |s| - |r.value.rest|;
    && 0 < n <= |s| && s[n..] == r.value.rest && s[n - 1] == q
    && (r.value.rest == [] || r.value.rest[0] != q)
    && ReadQuoted(cs, q, s[..n] + rest) == Continued(cs, q, r.value.value, rest)
  }

  lemma EndsHere(cs: Charset, q: byte, s: Str, rest: Str)
    requires IsQuote(q) && s != [] && s[0] == q && (|s| > 1 ==> s[1] != q)
    ensures Ends(cs, q, s, rest)
  {
    hide ReadQuoted;
    QuoteContinued(cs, q, s[1..]);
    NotContinued(cs, q, [], s[1..]);
    assert s == [q] + s[1..] && s[..1] == [q];
    QuoteContinued(cs, q, rest);
  }

  lemma EndsLater(cs: Charset, q: byte, s: Str, k: nat, head: Str, rest: Str)
    requires 0 < k <= |s| && Round(cs, q, s, k, head) && Ends(cs, q, s[k..], rest)
    ensures Ends(cs, q, s, rest)
  {
    hide ReadQuoted, Continued, Round;
    var tail := s[k..];
    var t := ReadQuoted(cs, q, tail).value;
    var m := |tail| - |t.rest|;
    assert s == s[..k] + tail;
    RoundAt(cs, q, s, k, head, tail);
    RoundAt(cs, q, s, k, head, tail[..m] + rest);
    PrependContinued(cs, q, head, t.value, rest);
    CutTwice(s, k, m, rest);
  }

  lemma CutTwice(s: Str, k: nat, m: nat, rest: Str)
    requires k + m <= |s|
    ensures s[..k + m] + rest == s[..k] + (s[k..][..m] + rest)
    ensures s[k + m..] == s[k..][m..]
    ensures m > 0 ==> s[k + m - 1] == s[k..][m - 1]
  {
  }

  /** ASCII text that closes, closes in the same way whatever follows its closing quote. */
  lemma {:induction false} AsciiCloses(cs: Charset, q: byte, s: Str, rest: Str)
    requires IsQuote(q) && IsAscii(s) && ReadQuoted(cs, q, s).Some?
    ensures Ends(cs, q, s, rest)
    decreases |s|
  {
    hide ReadQuoted, Round, Ends;
    var k, head := AsciiRound(cs, q, s);
    if k == 0 {
      EndsHere(cs, q, s, rest);
    } else {
      assert s == s[..k] + s[k..];
      RoundAt(cs, q, s, k, head, s[k..]);
      AsciiCloses(cs, q, s[k..], rest);
      EndsLater(cs, q, s, k, head, rest);
    }
  }

  lemma NotContinued(cs: Charset, q: byte, value: Str, rest: Str)
    requires rest == [] || rest[0] != q
    ensures Continued(cs, q, value, rest) == Some(Quoted(value, rest))
  {
  }

  // ---------------------------------------------------------------------------------------
  // Literal text
  // ---------------------------------------------------------------------------------------

  /** ASCII text that leaves no quote open. */
  predicate IsClosedText(cs: Charset, s: Str) {
    IsAscii(s) && Tokens(cs, s).Some?
  }

  /** Quoted text that closes, up to its closing quote, and what follows. */
  lemma ClosedBody(cs: Charset, q: byte, s: Str) returns (body: Str, rest: Str)
    requires IsQuote(q) && IsAscii(s) && ReadQuoted(cs, q, s).Some?
    ensures var r := ReadQuoted(cs, q, s).value;
      && s == body + rest && rest == r.rest && |rest| < |s| && Closes(cs, q, r.value, body)
      && IsAscii(rest) && (rest == [] || rest[0] != q)
  {
    hide ReadQuoted, Continued;
    var r := ReadQuoted(cs, q, s).value;
    AsciiCloses(cs, q, s, []);
    var n := |s| - |r.rest|;
    body, rest := s[..n], r.rest;
    forall more
      ensures ReadQuoted(cs, q, body + more) == Continued(cs, q, r.value, more)
    {
      AsciiCloses(cs, q, s, more);
    }
    assert s == body + rest;
  }

  lemma AsciiTail(s: Str)
    requires IsAscii(s) && s != []
    ensures s[0] < 0x80 && IsAscii(s[1..]) && s == [s[0]] + s[1..]
  {
  }

  lemma QuotedLexeme(cs: Charset, q: byte, tail: Str) returns (first: Lexeme, rest: Str)
    requires IsQuote(q) && IsAscii(tail) && Tokens(cs, [q] + tail).Some?
    ensures first.token.Enclosed? && first.token.quote == q && Spells(cs, first)
    ensures [q] + tail == first.text + rest && |rest| <= |tail| && IsClosedText(cs, rest)
    ensures Tokens(cs, [q] + tail) == Some([first.token] + Tokens(cs, rest).value)
    ensures rest == [] || rest[0] != q
  {
    hide Tokens, ReadQuoted, Closes, IsAscii, IsQuote;
    QuotedTokens(cs, q, tail);
    var body;
    body, rest := ClosedBody(cs, q, tail);
    first := Lexeme([q] + body, Enclosed(q, ReadQuoted(cs, q, tail).value.value));
    assert first.text[1..] == body;
    assert [q] + (body + rest) == first.text + rest;
  }

  /** The first token of closed text; a quoted one is not followed by its quote. */
  lemma FirstLexeme(cs: Charset, s: Str) returns (first: Lexeme, rest: Str)
    requires IsClosedText(cs, s) && s != []
    ensures Spells(cs, first) && s == first.text + rest && |rest| < |s| && IsClosedText(cs, rest)
    ensures Tokens(cs, s) == Some([first.token] + Tokens(cs, rest).value)
    ensures first.token.Enclosed? ==> rest == [] || rest[0] != first.token.quote
  {
    hide Tokens, Closes, IsAscii;
    var q, tail := s[0], s[1..];
    AsciiTail(s);
    if IsQuote(q) {
      first, rest := QuotedLexeme(cs, q, tail);
    } else {
      RawTokens(cs, q, tail);
      first, rest := Lexeme([q], Raw(q)), tail;
    }
  }

  /** Literal text taken apart into tokens with their text. */
  lemma {:induction false} LiteralLexemes(cs: Charset, s: Str) returns (ls: seq<Lexeme>)
    requires IsClosedText(cs, s)
    ensures AllSpell(cs, ls) && TextOf(ls) == s && Tokens(cs, s) == Some(TokensOf(ls)) && Separated(TokensOf(ls))
    decreases |s|
  {
    hide Tokens, Closes;
    if s == [] {
      ls := [];
      EmptyTokens(cs);
    } else {
      var first, rest := FirstLexeme(cs, s);
      var more := LiteralLexemes(cs, rest);
      ls := [first] + more;
      assert ls[1..] == more;
      TextOne(first);
      TextConcat([first], more);
      if first.token.Enclosed? {
        TextStart(cs, more, first.token.quote);
      }
      assert Separated([first.token]);
      SeparatedConcat([first.token], TokensOf(more));
    }
  }
}
