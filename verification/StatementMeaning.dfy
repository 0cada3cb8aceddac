/**
 What a finished statement means to the server: the text of its template, with each placeholder
 read back as the value it stands for.
 */
module StatementMeaning {
  import opened AccessPath
  import opened Bytes
  import opened Charset
  import opened EscapeLoop
  import opened EscapeMeaning
  import opened EscapeSpec
  import opened Models
  import opened MysqlLexer
  import opened Options
  import opened Placeholders
  import opened SqlBuilder
  import opened SqlPattern
  import opened SqlTokens
  import Splitting

  // ---------------------------------------------------------------------------------------
  // The tokens of a statement
  // ---------------------------------------------------------------------------------------

  function LiteralTokens(cs: Charset, s: Str): seq<Token> {
    var ts := Tokens(cs, s);
    if ts.Some? then ts.value else []
  }

  /** A string or a character is a constant, a number stands bare. */
  function ValueTokens(v: Value): seq<Token> {
    match v
    case Char(c) => [Enclosed(QUOTE, [c])]
    case String(s) => [Enclosed(QUOTE, s)]
    case _ => Raws(Text(v))
  }

  /** The values as constants, each followed by a comma. */
  function ListTokens(vals: seq<Str>): seq<Token> {
    if vals == [] then []
    else ListTokens(vals[..|vals| - 1]) + [Enclosed(QUOTE, vals[|vals| - 1]), Raw(COMMA)]
  }

  predicate EndsInComma(ts: seq<Token>) {
    ts != [] && ts[|ts| - 1] == Raw(COMMA)
  }

  function DropCommaToken(ts: seq<Token>): seq<Token> {
    if EndsInComma(ts) then ts[..|ts| - 1] else ts
  }

  function AddTokens(cs: Charset, ts: seq<Token>, stub: Stub, args: seq<Arg>): seq<Token> {
    if stub.kind == LITERAL then ts + LiteralTokens(cs, stub.value)
    else match Lookup(stub, args) {
      case FoundValue(v) => ts + ValueTokens(v)
      case FoundList(vals) => DropCommaToken(ts + ListTokens(vals))
      case Nothing => ts
    }
  }

  function AddAllTokens(cs: Charset, ts: seq<Token>, stubs: seq<Stub>, args: seq<Arg>): seq<Token>
    decreases stubs
  {
    if stubs == [] then ts else AddAllTokens(cs, AddTokens(cs, ts, stubs[0], args), stubs[1..], args)
  }

  /** No literal leaves a quote open. */
  predicate LiteralsAreClosed(cs: Charset, stubs: seq<Stub>) {
    forall i | 0 <= i < |stubs| && stubs[i].kind == LITERAL :: IsClosedText(cs, stubs[i].value)
  }

  // ---------------------------------------------------------------------------------------
  // The text of the tokens
  // ---------------------------------------------------------------------------------------

  lemma {:induction false} BareLexemes(cs: Charset, s: Str) returns (ls: seq<Lexeme>)
    requires forall i | 0 <= i < |s| :: IsBare(s[i])
    ensures AllSpell(cs, ls) && TextOf(ls) == s && TokensOf(ls) == Raws(s)
  {
    if s == [] {
      ls := [];
    } else {
      var more := BareLexemes(cs, s[1..]);
      ls := [Lexeme([s[0]], Raw(s[0]))] + more;
      assert ls[1..] == more;
    }
  }

  lemma ValueLexemes(cs: Charset, v: Value) returns (ls: seq<Lexeme>)
    ensures AllSpell(cs, ls) && TextOf(ls) == FieldText(cs, v) && TokensOf(ls) == ValueTokens(v)
  {
    hide Escape, Closes;
    if NeedsQuote(v) {
      ls := [Lexeme(QuoteText(cs, Text(v)), Enclosed(QUOTE, Text(v)))];
      ValueSpells(cs, Text(v));
      TextOne(ls[0]);
    } else {
      NumberText(v);
      ls := BareLexemes(cs, Text(v));
    }
  }

  lemma {:induction false} ListLexemes(cs: Charset, vals: seq<Str>) returns (ls: seq<Lexeme>)
    ensures AllSpell(cs, ls) && TextOf(ls) == ListText(cs, vals) && TokensOf(ls) == ListTokens(vals)
  {
    hide Escape, Closes;
    if vals == [] {
      ls := [];
    } else {
      var last := vals[|vals| - 1];
      var init := ListLexemes(cs, vals[..|vals| - 1]);
      var value, comma := Lexeme(QuoteText(cs, last), Enclosed(QUOTE, last)), Lexeme([COMMA], Raw(COMMA));
      ValueSpells(cs, last);
      TextOne(value);
      TextOne(comma);
      TextConcat([value], [comma]);
      assert [value] + [comma] == [value, comma];
      TextConcat(init, [value, comma]);
      ls := init + [value, comma];
    }
  }

  /** The statement ends in a comma exactly when its last token is one. */
  lemma DropCommaLexeme(cs: Charset, ls: seq<Lexeme>) returns (kept: seq<Lexeme>)
    requires AllSpell(cs, ls)
    ensures AllSpell(cs, kept) && TextOf(kept) == DropComma(TextOf(ls)) && TokensOf(kept) == DropCommaToken(TokensOf(ls))
  {
    hide Closes;
    kept := ls;
    if ls != [] {
      var init, last := ls[..|ls| - 1], ls[|ls| - 1];
      assert Spells(cs, last);
      assert ls == init + [last];
      TextOne(last);
      TextConcat(init, [last]);
      LastByte(cs, last);
      var text := TextOf(ls);
      assert text[|text| - 1] == last.text[|last.text| - 1];
      if last.token == Raw(COMMA) {
        kept := init;
        assert text[..|text| - 1] == TextOf(init);
      }
    }
  }

  lemma LastByte(cs: Charset, l: Lexeme)
    requires Spells(cs, l)
    ensures l.text != [] && (l.text[|l.text| - 1] == COMMA <==> l.token == Raw(COMMA))
    ensures l.token.Enclosed? ==> IsQuote(l.token.quote) && l.text[|l.text| - 1] == l.token.quote
    ensures l.token.Raw? ==> !IsQuote(l.text[|l.text| - 1])
  {
    if l.token.Enclosed? {
      var body := l.text[1..];
      assert body[|body| - 1] == l.text[|l.text| - 1];
    }
  }

  lemma AppendLexemes(cs: Charset, ls: seq<Lexeme>, stub: Stub, args: seq<Arg>) returns (longer: seq<Lexeme>)
    requires AllSpell(cs, ls) && (stub.kind == LITERAL ==> IsClosedText(cs, stub.value))
    requires Append(cs, TextOf(ls), stub, args).Done?
    ensures AllSpell(cs, longer) && Append(cs, TextOf(ls), stub, args) == Done(TextOf(longer))
    ensures TokensOf(longer) == AddTokens(cs, TokensOf(ls), stub, args)
  {
    hide TextOf, ListText, ListTokens, Escape, FitsBuffer, PlainVal, ListVal, PathSections, Tokens, Spells;
    var more: seq<Lexeme>;
    if stub.kind == LITERAL {
      more := LiteralLexemes(cs, stub.value);
    } else {
      match Lookup(stub, args) {
        case FoundValue(v) => more := ValueLexemes(cs, v);
        case FoundList(vals) => more := ListLexemes(cs, vals);
        case Nothing => more := [];
      }
    }
    TextConcat(ls, more);
    longer := ls + more;
    if stub.kind != LITERAL && Lookup(stub, args).FoundList? {
      longer := DropCommaLexeme(cs, longer);
    }
  }

  lemma {:induction false} AppendAllLexemes(cs: Charset, ls: seq<Lexeme>, stubs: seq<Stub>, args: seq<Arg>)
      returns (longer: seq<Lexeme>)
    requires AllSpell(cs, ls) && LiteralsAreClosed(cs, stubs)
    requires AppendAll(cs, TextOf(ls), stubs, args).Done?
    ensures AllSpell(cs, longer) && AppendAll(cs, TextOf(ls), stubs, args) == Done(TextOf(longer))
    ensures TokensOf(longer) == AddAllTokens(cs, TokensOf(ls), stubs, args)
    decreases stubs
  {
    hide TextOf, Append, AddTokens, IsClosedText;
    if stubs == [] {
      longer := ls;
    } else {
      longer := AppendLexemes(cs, ls, stubs[0], args);
      longer := AppendAllLexemes(cs, longer, stubs[1..], args);
    }
  }

  /**
   The meaning of a finished statement.  For every template whose literals leave no quote open, all
   arguments and both character sets, the server reads the tokens of the literals and, for every
   quoted value, a string constant, in order; quoted tokens that touch are joined, and an empty list
   takes away a comma before it.
   */
  lemma StatementTokens(cs: Charset, stubs: seq<Stub>, args: seq<Arg>, sql: Str)
    requires LiteralsAreClosed(cs, stubs)
    requires AppendAll(cs, [], stubs, args) == Done(sql)
    ensures Tokens(cs, sql) == Some(Merge(AddAllTokens(cs, [], stubs, args)))
  {
    hide Tokens, AppendAll, AddAllTokens;
    var ls := AppendAllLexemes(cs, [], stubs, args);
    TokensOfLexemes(cs, ls);
  }

  // ---------------------------------------------------------------------------------------
  // One meaning per piece
  // ---------------------------------------------------------------------------------------

  /** The values as constants with commas between them. */
  function CommaSeparated(vals: seq<Str>): seq<Token> {
    if vals == [] then []
    else if |vals| == 1 then [Enclosed(QUOTE, vals[0])]
    else [Enclosed(QUOTE, vals[0]), Raw(COMMA)] + CommaSeparated(vals[1..])
  }

  /** What a piece of a template is meant to say. */
  function PieceTokens(cs: Charset, stub: Stub, args: seq<Arg>): seq<Token> {
    if stub.kind == LITERAL then LiteralTokens(cs, stub.value)
    else match Lookup(stub, args) {
      case FoundValue(v) => ValueTokens(v)
      case FoundList(vals) => CommaSeparated(vals)
      case Nothing => []
    }
  }

  function TemplateTokens(cs: Charset, stubs: seq<Stub>, args: seq<Arg>): seq<Token> {
    if stubs == [] then [] else PieceTokens(cs, stubs[0], args) + TemplateTokens(cs, stubs[1..], args)
  }

  /** Every placeholder finds a value or a list. */
  predicate AllFound(stubs: seq<Stub>, args: seq<Arg>) {
    forall i | 0 <= i < |stubs| && stubs[i].kind != LITERAL :: Lookup(stubs[i], args) != Nothing
  }

  /** What every placeholder finds is what it should find. */
  ghost predicate EachStandsForIt(stubs: seq<Stub>, args: seq<Arg>) {
    forall i | 0 <= i < |stubs| && stubs[i].kind != LITERAL :: StandsFor(stubs[i], args, Lookup(stubs[i], args))
  }

  lemma FoundIsRight(stubs: seq<Stub>, args: seq<Arg>)
    ensures AllFound(stubs, args) <==> EachStandsForIt(stubs, args)
  {
    hide Lookup, StandsFor;
    forall i | 0 <= i < |stubs| && stubs[i].kind != LITERAL
      ensures Lookup(stubs[i], args) != Nothing <==> StandsFor(stubs[i], args, Lookup(stubs[i], args))
    {
      NothingStands(stubs[i], args);
      if Lookup(stubs[i], args) != Nothing {
        LookupExact(stubs[i], args, Lookup(stubs[i], args));
      }
    }
  }

  lemma NothingStands(stub: Stub, args: seq<Arg>)
    ensures !StandsFor(stub, args, Nothing)
  {
  }

  lemma AppendFinds(cs: Charset, sql: Str, stub: Stub, args: seq<Arg>)
    requires Append(cs, sql, stub, args).Done? && stub.kind != LITERAL
    ensures Lookup(stub, args) != Nothing
  {
    hide FitsBuffer, PlainVal, ListVal, PathSections, ListText, Escape;
    var source := Source(args, PathSections(stub.value));
    assert source.Some?;
    var (model, sections) := source.value;
    if stub.kind == FIELD {
      assert PlainVal(model, sections).Leaf?;
    } else {
      assert ListVal(model, sections).Texts?;
    }
  }

  /** A finished statement has found every placeholder. */
  lemma {:induction false} DoneFindsAll(cs: Charset, sql: Str, stubs: seq<Stub>, args: seq<Arg>)
    requires AppendAll(cs, sql, stubs, args).Done?
    ensures AllFound(stubs, args)
    decreases stubs
  {
    hide Append, Lookup;
    if stubs == [] {
    } else {
      var rest := stubs[1..];
      if stubs[0].kind != LITERAL {
        AppendFinds(cs, sql, stubs[0], args);
      }
      DoneFindsAll(cs, Append(cs, sql, stubs[0], args).sql, rest, args);
      forall i | 0 <= i < |stubs| && stubs[i].kind != LITERAL
        ensures Lookup(stubs[i], args) != Nothing
      {
        if i > 0 {
          assert stubs[i] == rest[i - 1];
        }
      }
    }
  }

  // ---------------------------------------------------------------------------------------
  // Empty lists
  // ---------------------------------------------------------------------------------------

  /** A list placeholder that finds an empty list. */
  predicate IsSilent(stub: Stub, args: seq<Arg>) {
    stub.kind != LITERAL && Lookup(stub, args) == FoundList([])
  }

  /** An empty list right behind a literal that ends in a comma: the comma is dropped. */
  predicate EatsAt(stubs: seq<Stub>, args: seq<Arg>, i: nat)
    requires i + 1 < |stubs|
  {
    var s := stubs[i].value;
    stubs[i].kind == LITERAL && s != [] && s[|s| - 1] == COMMA && IsSilent(stubs[i + 1], args)
  }

  ghost predicate EatsComma(stubs: seq<Stub>, args: seq<Arg>) {
    exists i: nat :: i + 1 < |stubs| && EatsAt(stubs, args, i)
  }

  lemma {:induction false} ListTokensSeparated(vals: seq<Str>)
    requires vals != []
    ensures ListTokens(vals) == CommaSeparated(vals) + [Raw(COMMA)]
    decreases |vals|
  {
    var last := vals[|vals| - 1];
    if |vals| == 1 {
      assert vals[..0] == [];
    } else {
      ListTokensSeparated(vals[..|vals| - 1]);
      SeparatedSnoc(vals[..|vals| - 1], last);
      assert vals[..|vals| - 1] + [last] == vals;
    }
  }

  lemma {:induction false} SeparatedSnoc(vals: seq<Str>, last: Str)
    requires vals != []
    ensures CommaSeparated(vals + [last]) == CommaSeparated(vals) + [Raw(COMMA), Enclosed(QUOTE, last)]
    decreases |vals|
  {
    if |vals| == 1 {
      assert (vals + [last])[1..] == [last];
    } else {
      assert (vals + [last])[1..] == vals[1..] + [last];
      SeparatedSnoc(vals[1..], last);
    }
  }

  /** A piece adds what it is meant to say, unless an empty list eats a comma. */
  lemma AddPiece(cs: Charset, ts: seq<Token>, stub: Stub, args: seq<Arg>)
    requires stub.kind != LITERAL ==> Lookup(stub, args) != Nothing
    ensures AddTokens(cs, ts, stub, args)
            == if IsSilent(stub, args) then DropCommaToken(ts) else ts + PieceTokens(cs, stub, args)
    ensures IsSilent(stub, args) ==> stub.kind != LITERAL && PieceTokens(cs, stub, args) == []
  {
    hide Lookup, ListTokens, CommaSeparated, Tokens;
    if stub.kind != LITERAL && Lookup(stub, args).FoundList? {
      var vals := Lookup(stub, args).vals;
      if vals == [] {
        NoValues();
        assert ts + [] == ts;
      } else {
        ListTokensSeparated(vals);
        assert ts + ListTokens(vals) == (ts + CommaSeparated(vals)) + [Raw(COMMA)];
      }
    }
  }

  lemma NoValues()
    ensures ListTokens([]) == [] && CommaSeparated([]) == []
  {
  }

  /** Somewhere in `stubs`, placed behind `ts`, an empty list eats a comma. */
  predicate Eats(cs: Charset, ts: seq<Token>, stubs: seq<Stub>, args: seq<Arg>)
    decreases stubs
  {
    stubs != [] &&
    ((IsSilent(stubs[0], args) && EndsInComma(ts)) || Eats(cs, AddTokens(cs, ts, stubs[0], args), stubs[1..], args))
  }

  /** The statement has one token for each meant, unless a comma is eaten; then it is shorter. */
  lemma {:induction false} AddAllPieces(cs: Charset, ts: seq<Token>, stubs: seq<Stub>, args: seq<Arg>)
    requires AllFound(stubs, args)
    ensures |AddAllTokens(cs, ts, stubs, args)| <= |ts| + |TemplateTokens(cs, stubs, args)|
    ensures Eats(cs, ts, stubs, args) <==>
            |AddAllTokens(cs, ts, stubs, args)| < |ts| + |TemplateTokens(cs, stubs, args)|
    ensures !Eats(cs, ts, stubs, args) ==> AddAllTokens(cs, ts, stubs, args) == ts + TemplateTokens(cs, stubs, args)
    decreases stubs
  {
    hide Lookup, AddTokens, PieceTokens, IsSilent;
    if stubs == [] {
    } else {
      AddPiece(cs, ts, stubs[0], args);
      AddAllPieces(cs, AddTokens(cs, ts, stubs[0], args), stubs[1..], args);
    }
  }

  lemma EatsCommaTail(stubs: seq<Stub>, args: seq<Arg>)
    requires stubs != []
    ensures EatsComma(stubs, args) <==>
            (|stubs| > 1 && EatsAt(stubs, args, 0)) || EatsComma(stubs[1..], args)
  {
    hide IsSilent;
    var rest := stubs[1..];
    forall i: nat | i + 1 < |rest|
      ensures EatsAt(rest, args, i) == EatsAt(stubs, args, i + 1)
    {
    }
    if EatsComma(stubs, args) {
      var i: nat :| i + 1 < |stubs| && EatsAt(stubs, args, i);
      if i > 0 {
        assert EatsAt(rest, args, i - 1);
      }
    }
  }

  /** A comma is eaten exactly where an empty list stands right behind one. */
  lemma {:induction false} EatsExact(cs: Charset, ts: seq<Token>, stubs: seq<Stub>, args: seq<Arg>)
    requires AllFound(stubs, args) && LiteralsAreClosed(cs, stubs)
    requires forall i | 0 <= i < |stubs| :: stubs[i].value != []
    ensures Eats(cs, ts, stubs, args) <==>
            (stubs != [] && IsSilent(stubs[0], args) && EndsInComma(ts)) || EatsComma(stubs, args)
    decreases stubs
  {
    hide Lookup, AddTokens, PieceTokens, IsSilent, EatsComma, IsClosedText;
    if stubs == [] {
      NothingEaten(args);
    } else {
      AddPiece(cs, ts, stubs[0], args);
      PieceEdges(cs, stubs[0], args);
      EatsExact(cs, AddTokens(cs, ts, stubs[0], args), stubs[1..], args);
      EatsCommaTail(stubs, args);
    }
  }

  lemma NothingEaten(args: seq<Arg>)
    ensures !EatsComma([], args)
  {
  }

  // ---------------------------------------------------------------------------------------
  // Quotes that touch
  // ---------------------------------------------------------------------------------------

  /** The piece is written with quotes: a list, or a field whose value is text. */
  predicate IsQuotedPiece(stub: Stub, args: seq<Arg>) {
    stub.kind != LITERAL &&
    match Lookup(stub, args) {
      case FoundValue(v) => v.Char? || v.String?
      case FoundList(_) => true
      case Nothing => false
    }
  }

  /** The first byte of a piece as far as it can be a quote; 0 for a number. */
  function Opening(stub: Stub, args: seq<Arg>): byte {
    if stub.kind == LITERAL then (if stub.value == [] then 0 else stub.value[0])
    else if IsQuotedPiece(stub, args) then QUOTE else 0
  }

  /** The last byte of a piece as far as it can be a quote. */
  function Closing(stub: Stub, args: seq<Arg>): byte {
    if stub.kind == LITERAL then (if stub.value == [] then 0 else stub.value[|stub.value| - 1])
    else if IsQuotedPiece(stub, args) then QUOTE else 0
  }

  /** The pieces that are not empty lists. */
  function Spoken(stubs: seq<Stub>, args: seq<Arg>): seq<Stub> {
    if stubs == [] then []
    else (if IsSilent(stubs[0], args) then [] else [stubs[0]]) + Spoken(stubs[1..], args)
  }

  /** The piece at `i` ends in a quote and the next begins with the same. */
  predicate QuotesMeet(stubs: seq<Stub>, args: seq<Arg>, i: nat)
    requires i + 1 < |stubs|
  {
    IsQuote(Closing(stubs[i], args)) && Closing(stubs[i], args) == Opening(stubs[i + 1], args)
  }

  /** Nowhere a quote that one piece closes stands beside the same quote that the next one opens. */
  ghost predicate QuotesApart(stubs: seq<Stub>, args: seq<Arg>) {
    forall i: nat | i + 1 < |stubs| :: !QuotesMeet(stubs, args, i)
  }

  lemma {:induction false} ListEdges(vals: seq<Str>)
    requires vals != []
    ensures var ts := CommaSeparated(vals);
      ts != [] && ts[0] == Enclosed(QUOTE, vals[0]) && ts[|ts| - 1] == Enclosed(QUOTE, vals[|vals| - 1])
  {
    if |vals| == 1 {
    } else {
      ListEdges(vals[1..]);
    }
  }

  lemma {:induction false} ListSeparated(vals: seq<Str>)
    ensures Separated(CommaSeparated(vals))
  {
    if |vals| < 2 {
    } else {
      var first := [Enclosed(QUOTE, vals[0]), Raw(COMMA)];
      ListSeparated(vals[1..]);
      assert Separated(first) by {
        assert !Touching(first, 0);
      }
      hide Separated;
      SeparatedConcat(first, CommaSeparated(vals[1..]));
    }
  }

  lemma LiteralEdges(cs: Charset, s: Str)
    requires IsClosedText(cs, s) && s != []
    ensures var ts := LiteralTokens(cs, s);
      && ts != [] && Separated(ts)
      && (EndsInComma(ts) <==> s[|s| - 1] == COMMA)
      && (forall q | IsQuote(q) :: ts[0].Enclosed? && ts[0].quote == q <==> s[0] == q)
      && (forall q | IsQuote(q) :: ts[|ts| - 1].Enclosed? && ts[|ts| - 1].quote == q <==> s[|s| - 1] == q)
      && (ts[|ts| - 1].Enclosed? ==> IsQuote(ts[|ts| - 1].quote))
  {
    hide Tokens, Spells;
    var ls := LiteralLexemes(cs, s);
    assert ls != [] by {
      assert TextOf([]) == [];
    }
    var last := ls[|ls| - 1];
    LastByte(cs, last);
    assert ls == ls[..|ls| - 1] + [last];
    TextConcat(ls[..|ls| - 1], [last]);
    TextOne(last);
    assert s[|s| - 1] == last.text[|last.text| - 1];
    forall q | IsQuote(q)
      ensures ls[0].token.Enclosed? && ls[0].token.quote == q <==> s[0] == q
    {
      TextStart(cs, ls, q);
    }
  }

  /** The edges of what a piece says show in its text. */
  lemma PieceEdges(cs: Charset, stub: Stub, args: seq<Arg>)
    requires stub.value != [] && (stub.kind == LITERAL ==> IsClosedText(cs, stub.value))
    requires stub.kind != LITERAL ==> Lookup(stub, args) != Nothing
    ensures var ts := PieceTokens(cs, stub, args);
      if IsSilent(stub, args) then ts == []
      else
        && ts != [] && Separated(ts)
        && (EndsInComma(ts) <==> stub.kind == LITERAL && stub.value[|stub.value| - 1] == COMMA)
        && (forall q | IsQuote(q) :: ts[0].Enclosed? && ts[0].quote == q <==> Opening(stub, args) == q)
        && (forall q | IsQuote(q) :: ts[|ts| - 1].Enclosed? && ts[|ts| - 1].quote == q <==> Closing(stub, args) == q)
        && (ts[|ts| - 1].Enclosed? ==> IsQuote(ts[|ts| - 1].quote))
  {
    hide Lookup, CommaSeparated, Separated, Tokens;
    if stub.kind == LITERAL {
      LiteralEdges(cs, stub.value);
    } else {
      match Lookup(stub, args) {
        case FoundValue(v) =>
          OneSeparated(Enclosed(QUOTE, Text(v)));
          RawsSeparated(Text(v));
          if !NeedsQuote(v) {
            NumberText(v);
          }
        case FoundList(vals) =>
          if vals == [] {
            NoValues();
          } else {
            ListEdges(vals);
            ListSeparated(vals);
          }
      }
    }
  }

  lemma RawsSeparated(s: Str)
    ensures Separated(Raws(s))
  {
  }

  lemma OneSeparated(t: Token)
    ensures Separated([t])
  {
  }

  lemma QuotesApartTail(stubs: seq<Stub>, args: seq<Arg>)
    requires stubs != []
    ensures QuotesApart(stubs, args) <==>
            QuotesApart(stubs[1..], args) && (|stubs| > 1 ==> !QuotesMeet(stubs, args, 0))
  {
    hide Opening, Closing;
    var rest := stubs[1..];
    forall i: nat | i + 1 < |rest|
      ensures QuotesMeet(rest, args, i) == QuotesMeet(stubs, args, i + 1)
    {
    }
    if QuotesApart(rest, args) && (|stubs| > 1 ==> !QuotesMeet(stubs, args, 0)) {
      forall i: nat | i + 1 < |stubs|
        ensures !QuotesMeet(stubs, args, i)
      {
        if i > 0 {
          assert !QuotesMeet(rest, args, i - 1);
        }
      }
    }
  }

  lemma NothingApart(args: seq<Arg>)
    ensures Separated([]) && QuotesApart([], args)
  {
  }

  lemma SpokenFirst(stubs: seq<Stub>, args: seq<Arg>)
    requires stubs != []
    ensures var rest := Spoken(stubs[1..], args);
      if IsSilent(stubs[0], args) then Spoken(stubs, args) == rest
      else Spoken(stubs, args) != [] && Spoken(stubs, args)[0] == stubs[0] && Spoken(stubs, args)[1..] == rest
  {
    hide IsSilent;
  }

  /** The tokens of a template touch exactly where its texts close and open with one quote. */
  lemma {:induction false} TemplateSeparated(cs: Charset, stubs: seq<Stub>, args: seq<Arg>)
    requires AllFound(stubs, args) && LiteralsAreClosed(cs, stubs)
    requires forall i | 0 <= i < |stubs| :: stubs[i].value != []
    ensures var ts, spoken := TemplateTokens(cs, stubs, args), Spoken(stubs, args);
      && (Separated(ts) <==> QuotesApart(spoken, args))
      && (ts == [] <==> spoken == [])
      && (ts != [] ==> forall q | IsQuote(q) :: ts[0].Enclosed? && ts[0].quote == q <==> Opening(spoken[0], args) == q)
    decreases stubs
  {
    hide Lookup, PieceTokens, IsSilent, Opening, Closing, Separated, QuotesApart, Spoken, IsClosedText;
    if stubs == [] {
      NothingApart(args);
      assert Spoken([], args) == [] by {
        NothingSpoken(args);
      }
    } else {
      var piece, rest := PieceTokens(cs, stubs[0], args), TemplateTokens(cs, stubs[1..], args);
      PieceEdges(cs, stubs[0], args);
      TemplateSeparated(cs, stubs[1..], args);
      SpokenFirst(stubs, args);
      if IsSilent(stubs[0], args) {
        assert piece + rest == rest;
      } else {
        SeparatedConcat(piece, rest);
        QuotesApartTail(Spoken(stubs, args), args);
      }
    }
  }

  lemma NothingSpoken(args: seq<Arg>)
    ensures Spoken([], args) == []
  {
  }

  // ---------------------------------------------------------------------------------------
  // The meaning
  // ---------------------------------------------------------------------------------------

  /**
   The statement means what its template says: the tokens of its literals, and for every placeholder
   its value (a string constant that reads as exactly that value, the digits of a number, or constants
   separated by commas), in order.  It does so exactly when no empty list stands behind a comma, and,
   empty lists left out, no piece closes with a quote that the next one opens with.
   */
  lemma StatementMeaning(cs: Charset, stubs: seq<Stub>, args: seq<Arg>, sql: Str)
    requires IsNormal(stubs) && LiteralsAreClosed(cs, stubs)
    requires AppendAll(cs, [], stubs, args) == Done(sql)
    ensures EachStandsForIt(stubs, args)
    ensures Tokens(cs, sql) == Some(TemplateTokens(cs, stubs, args)) <==>
            !EatsComma(stubs, args) && QuotesApart(Spoken(stubs, args), args)
  {
    hide Tokens, AppendAll, AddAllTokens, TemplateTokens, QuotesApart, EatsComma, Spoken, AllFound;
    hide LiteralsAreClosed, Separated, EachStandsForIt;
    var added, meant := AddAllTokens(cs, [], stubs, args), TemplateTokens(cs, stubs, args);
    StatementTokens(cs, stubs, args, sql);
    DoneFindsAll(cs, [], stubs, args);
    FoundIsRight(stubs, args);
    AddAllPieces(cs, [], stubs, args);
    EatsExact(cs, [], stubs, args);
    assert [] + meant == meant;
    TemplateSeparated(cs, stubs, args);
    MergeShorter(added);
  }

  /** Two touching placeholders: `#{a}#{b}` with texts x and y is read as the one constant x'y. */
  lemma TouchingPlaceholders(cs: Charset, x: Str, y: Str)
    ensures Tokens(cs, QuoteText(cs, x) + QuoteText(cs, y)) == Some([Enclosed(QUOTE, x + [QUOTE] + y)])
  {
    hide Tokens, Escape, Closes;
    var a, b := Lexeme(QuoteText(cs, x), Enclosed(QUOTE, x)), Lexeme(QuoteText(cs, y), Enclosed(QUOTE, y));
    ValueSpells(cs, x);
    ValueSpells(cs, y);
    TextOne(a);
    TextOne(b);
    TextConcat([a], [b]);
    TokensOfLexemes(cs, [a] + [b]);
    var ts, last := [Enclosed(QUOTE, x), Enclosed(QUOTE, y)], [Enclosed(QUOTE, y)];
    assert TokensOf([a] + [b]) == ts && ts[1..] == last && last[1..] == [];
    assert Merge(last) == last + Merge([]);
    assert Merge(ts) == [Enclosed(QUOTE, x + [QUOTE] + y)];
  }

  /** The template `1,#[i]`, and an object whose list `i` is empty. */
  const COMMA_AND_LIST: seq<Stub> := [Stub(LITERAL, [0x31, COMMA]), Stub(LIST, [0x69])]
  const EMPTY_LIST: seq<Arg> := [Arg([], Object(map[], map[[0x69] := ListMember([])], map[]))]

  lemma OneSection(name: Str)
    requires |name| == 1 && name[0] != DOT && name[0] != NUL
    ensures PathSections(name) == [name]
  {
    PathSectionsSplit(name);
    hide PathSections;
    Splitting.SectionsText([], name, [], DOT);
    assert name + [] == name && [] + name == name;
    assert Splitting.SectionsFrom(name, [], DOT) == [name];
  }

  lemma EmptyListReached()
    ensures ListVal(EMPTY_LIST[0].model, [[0x69]]) == Texts([])
  {
    var name: Str, model := [0x69], EMPTY_LIST[0].model;
    var path: seq<Str> := [name];
    assert path[1..] == [];
    assert ListStep(model, model, name) == (Some(List([])), NoList);
    assert ListTravel(model, model, path) == ListTravel(model, List([]), []);
  }

  lemma EmptyListFound()
    ensures Lookup(Stub(LIST, [0x69]), EMPTY_LIST) == FoundList([])
  {
    hide PathSections, ListVal;
    OneSection([0x69]);
    EmptyListReached();
  }

  lemma CommaAndListText(cs: Charset)
    ensures AppendAll(cs, [], COMMA_AND_LIST, EMPTY_LIST) == Done([0x31])
  {
    hide Lookup, ListVal, PathSections, Escape;
    var literal, list, args := COMMA_AND_LIST[0], COMMA_AND_LIST[1], EMPTY_LIST;
    EmptyListFound();
    assert COMMA_AND_LIST[1..] == [list] && [list][1..] == [];
    assert Append(cs, [], literal, args) == Done([0x31, COMMA]);
    assert ListText(cs, []) == [] && [0x31, COMMA] + [] == [0x31, COMMA] && [0x31, COMMA][..1] == [0x31];
    assert Append(cs, [0x31, COMMA], list, args) == Done([0x31]) by {
      ListFound(cs, [0x31, COMMA], list, args);
    }
    assert AppendAll(cs, [0x31], [], args) == Done([0x31]);
    assert AppendAll(cs, [0x31, COMMA], [list], args) == AppendAll(cs, [0x31], [], args);
  }

  lemma ListFound(cs: Charset, sql: Str, stub: Stub, args: seq<Arg>)
    requires stub.kind == LIST && Lookup(stub, args) == FoundList([]) && sql != []
    ensures Append(cs, sql, stub, args) == Done(DropComma(sql))
  {
    hide ListVal, PathSections, Escape;
    assert ListText(cs, []) == [] && sql + [] == sql;
  }

  lemma CommaAndListTokens(cs: Charset)
    ensures LiteralsAreClosed(cs, COMMA_AND_LIST) && Tokens(cs, [0x31]) == Some([Raw(0x31)])
    ensures TemplateTokens(cs, COMMA_AND_LIST, EMPTY_LIST) == [Raw(0x31), Raw(COMMA)]
  {
    hide Tokens, Lookup;
    EmptyListFound();
    EmptyTokens(cs);
    assert [0x31] + [COMMA] == [0x31, COMMA] && [0x31] + [] == [0x31] && [COMMA] + [] == [COMMA];
    RawTokens(cs, COMMA, []);
    RawTokens(cs, 0x31, []);
    RawTokens(cs, 0x31, [COMMA]);
    assert [Raw(0x31)] + [] == [Raw(0x31)] && [Raw(COMMA)] + [] == [Raw(COMMA)];
    assert COMMA_AND_LIST[1..] == [COMMA_AND_LIST[1]] && [COMMA_AND_LIST[1]][1..] == [];
    assert TemplateTokens(cs, [], EMPTY_LIST) == [];
    assert TemplateTokens(cs, [COMMA_AND_LIST[1]], EMPTY_LIST) == [];
  }

  /** With an empty list, `1,#[i]` loses the comma of its literal: it says `1,` and reads as `1`. */
  lemma EatenComma(cs: Charset)
    ensures IsNormal(COMMA_AND_LIST) && LiteralsAreClosed(cs, COMMA_AND_LIST) && EatsComma(COMMA_AND_LIST, EMPTY_LIST)
    ensures AppendAll(cs, [], COMMA_AND_LIST, EMPTY_LIST) == Done([0x31]) && Tokens(cs, [0x31]) == Some([Raw(0x31)])
    ensures TemplateTokens(cs, COMMA_AND_LIST, EMPTY_LIST) == [Raw(0x31), Raw(COMMA)]
  {
    CommaAndListText(cs);
    CommaAndListTokens(cs);
    hide AppendAll, Tokens, TemplateTokens, Lookup, LiteralsAreClosed;
    EmptyListFound();
    assert EatsAt(COMMA_AND_LIST, EMPTY_LIST, 0);
  }

  /** The pieces a valid builder keeps for a method are those of the pattern registered for it. */
  lemma PiecesOfPattern(b: SqlBuilder, name: Str)
    requires b.Valid() && name in b.pices
    ensures name in b.patterns && IsAscii(b.patterns[name]) && IsNormal(b.pices[name])
    ensures b.pices[name] == Exploded(b.patterns[name]).pieces
  {
    hide Exploded;
    ExplodePrint(b.pices[name]);
  }

  /** What `prepare_statement` returns reads as the pattern registered for the method. */
  method PrepareMeaning(b: SqlBuilder, name: Str, args: seq<Arg>) returns (ok: bool, sql: Str)
    requires b.Valid()
    requires name in b.pices ==> LiteralsAreClosed(b.charset, b.pices[name])
    requires name in b.pices ==> AppendAll(b.charset, [], b.pices[name], args) != Undefined
    ensures ok ==> name in b.patterns && IsAscii(b.patterns[name])
    ensures ok ==> EachStandsForIt(Exploded(b.patterns[name]).pieces, args)
    ensures ok ==>
      var stubs := Exploded(b.patterns[name]).pieces;
      Tokens(b.charset, sql) == Some(TemplateTokens(b.charset, stubs, args)) <==>
      !EatsComma(stubs, args) && QuotesApart(Spoken(stubs, args), args)
  {
    hide Exploded, Tokens, AppendAll, TemplateTokens, QuotesApart, EatsComma, Spoken, LiteralsAreClosed, EachStandsForIt;
    ok, sql := b.PrepareStatement(name, args);
    if ok {
      PiecesOfPattern(b, name);
      StatementMeaning(b.charset, b.pices[name], args, sql);
    }
  }
}
