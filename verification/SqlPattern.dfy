/**
 SQL templates: `SqlPattern::explode` of var_pattern.cpp, a state machine over the characters of
 a template such as `text #{field} text #[list]`.
 */
module SqlPattern {
  import opened Bytes
  import opened PatternErrors

  datatype StubType = LITERAL | FIELD | LIST

  datatype Stub = Stub(kind: StubType, value: Str)

  datatype PatternState = STATE_INIT | STATE_MATCH_TOKEN | STATE_FETCH

  /** The closing token of an opening one, or 0. */
  function TokenPair(c: byte): byte
    requires c < 0x80
  {
    if c == OPEN_BRACKET then CLOSE_BRACKET else if c == OPEN_BRACE then CLOSE_BRACE else 0
  }

  predicate IsToken(c: byte)
    requires c < 0x80
  {
    c == HASH || c == OPEN_BRACKET || c == CLOSE_BRACKET || c == OPEN_BRACE || c == CLOSE_BRACE
  }

  predicate IsEndToken(c: byte)
    requires c < 0x80
  {
    c == CLOSE_BRACKET || c == CLOSE_BRACE
  }

  // ---------------------------------------------------------------------------------------
  // The language of templates
  // ---------------------------------------------------------------------------------------

  /** ASCII text without `#`, brackets and braces. */
  predicate IsPlainText(s: Str) {
    forall i | 0 <= i < |s| :: s[i] < 0x80 && s[i] !in {0x23, 0x5B, 0x5D, 0x7B, 0x7D}
  }

  function PrintStub(stub: Stub): Str {
    match stub.kind
    case LITERAL => stub.value
    case FIELD => [HASH, OPEN_BRACE] + stub.value + [CLOSE_BRACE]
    case LIST => [HASH, OPEN_BRACKET] + stub.value + [CLOSE_BRACKET]
  }

  function Print(stubs: seq<Stub>): Str {
    if stubs == [] then [] else Print(stubs[..|stubs| - 1]) + PrintStub(stubs[|stubs| - 1])
  }

  /** A list of pieces as short as it can be: nothing empty, and no two literals side by side. */
  predicate IsNormal(stubs: seq<Stub>) {
    && (forall i | 0 <= i < |stubs| :: stubs[i].value != [] && IsPlainText(stubs[i].value))
    && (forall i | 0 < i < |stubs| :: !(stubs[i - 1].kind.LITERAL? && stubs[i].kind.LITERAL?))
  }

  /** `pattern` is a template: text mixed with `#{name}` and `#[name]`. */
  ghost predicate IsTemplate(pattern: Str) {
    exists stubs :: IsNormal(stubs) && Print(stubs) == pattern
  }

  /** `pattern` can be continued to a template. */
  ghost predicate IsViable(pattern: Str) {
    exists more :: IsTemplate(pattern + more)
  }

  // ---------------------------------------------------------------------------------------
  // The machine, one character at a time
  // ---------------------------------------------------------------------------------------

  type ascii = b: byte | b < 0x80

  datatype Machine =
    | Running(state: PatternState, token: ascii, section: Str, pieces: seq<Stub>)
    | Rejected(err: PatternErr, pieces: seq<Stub>)

  const START := Running(STATE_INIT, 0, [], [])

  function Flush(pieces: seq<Stub>, section: Str): seq<Stub> {
    if section == [] then pieces else pieces + [Stub(LITERAL, section)]
  }

  function FetchType(token: byte): StubType {
    if token == OPEN_BRACKET then LIST else FIELD
  }

  function Step(m: Machine, c: ascii): Machine {
    match m
    case Rejected(_, _) => m
    case Running(STATE_INIT, token, section, pieces) =>
      if !IsToken(c) then m.(section := section + [c])
      else if c == HASH then Running(STATE_MATCH_TOKEN, token, [], Flush(pieces, section))
      else Rejected(ILL_TOKEN, pieces)
    case Running(STATE_MATCH_TOKEN, token, section, pieces) =>
      if TokenPair(c) == 0 then Rejected(ILL_BEGIN, pieces)
      else Running(STATE_FETCH, c, section, pieces)
    case Running(STATE_FETCH, token, section, pieces) =>
      if !IsToken(c) then m.(section := section + [c])
      else if !IsEndToken(c) then Rejected(ILL_END, pieces)
      else if c != TokenPair(token) then Rejected(UNMATCH, pieces)
      else if section == [] then Rejected(NONE_FIELD, pieces)
      else Running(STATE_INIT, token, [], pieces + [Stub(FetchType(token), section)])
  }

  function Feed(m: Machine, s: Str): Machine
    requires IsAscii(s)
    decreases s
  {
    if s == [] then m else Feed(Step(m, s[0]), s[1..])
  }

  /** How the machine ends. */
  datatype Explosion = Explosion(ok: bool, pieces: seq<Stub>, err: PatternErr)

  function Finish(m: Machine): Explosion {
    match m
    case Rejected(err, pieces) => Explosion(false, pieces, err)
    case Running(STATE_INIT, _, section, pieces) => Explosion(true, Flush(pieces, section), OK)
    case Running(STATE_MATCH_TOKEN, _, _, pieces) => Explosion(false, pieces, ILL_BEGIN)
    case Running(STATE_FETCH, _, _, pieces) => Explosion(false, pieces, ILL_END)
  }

  function Exploded(pattern: Str): Explosion
    requires IsAscii(pattern)
  {
    Finish(Feed(START, pattern))
  }

  lemma {:induction false} FeedConcat(m: Machine, a: Str, b: Str)
    requires IsAscii(a) && IsAscii(b)
    ensures Feed(m, a + b) == Feed(Feed(m, a), b)
    decreases a
  {
    hide Step;
    if a == [] {
      assert a + b == b;
    } else {
      assert (a + b)[1..] == a[1..] + b;
      FeedConcat(Step(m, a[0]), a[1..], b);
    }
  }

  lemma FeedOne(m: Machine, s: Str, c: ascii)
    requires IsAscii(s)
    ensures IsAscii(s + [c])
    ensures Feed(m, s + [c]) == Step(Feed(m, s), c)
  {
    hide Step;
    FeedConcat(m, s, [c]);
    assert Feed(Feed(m, s), [c]) == Feed(Step(Feed(m, s), [c][0]), [c][1..]);
  }

  lemma {:induction false} FeedRejected(m: Machine, s: Str)
    requires IsAscii(s) && m.Rejected?
    ensures Feed(m, s) == m
    decreases s
  {
    if s == [] {
    } else {
      FeedRejected(Step(m, s[0]), s[1..]);
    }
  }

  // ---------------------------------------------------------------------------------------
  // Soundness: what the machine has read
  // ---------------------------------------------------------------------------------------

  predicate EndsInLiteral(stubs: seq<Stub>) {
    stubs != [] && stubs[|stubs| - 1].kind == LITERAL
  }

  /** The text that is not yet part of a finished piece. */
  function Pending(m: Machine): Str
    requires m.Running?
  {
    match m.state
    case STATE_INIT => m.section
    case STATE_MATCH_TOKEN => [HASH]
    case STATE_FETCH => [HASH, m.token] + m.section
  }

  ghost predicate Reads(m: Machine, pattern: Str) {
    m.Running? ==>
      && pattern == Print(m.pieces) + Pending(m)
      && IsNormal(m.pieces)
      && IsPlainText(m.section)
      && match m.state
         case STATE_INIT => !EndsInLiteral(m.pieces)
         case STATE_MATCH_TOKEN => m.section == []
         case STATE_FETCH => m.token == OPEN_BRACE || m.token == OPEN_BRACKET
  }

  lemma PrintSnoc(stubs: seq<Stub>, stub: Stub)
    ensures Print(stubs + [stub]) == Print(stubs) + PrintStub(stub)
  {
    assert (stubs + [stub])[..|stubs|] == stubs;
  }

  lemma NormalSnoc(stubs: seq<Stub>, stub: Stub)
    requires IsNormal(stubs) && stub.value != [] && IsPlainText(stub.value)
    requires !(EndsInLiteral(stubs) && stub.kind == LITERAL)
    ensures IsNormal(stubs + [stub])
  {
  }

  lemma FlushReads(pieces: seq<Stub>, section: Str)
    requires IsNormal(pieces) && IsPlainText(section) && !EndsInLiteral(pieces)
    ensures IsNormal(Flush(pieces, section))
    ensures Print(Flush(pieces, section)) == Print(pieces) + section
  {
    if section != [] {
      PrintSnoc(pieces, Stub(LITERAL, section));
      NormalSnoc(pieces, Stub(LITERAL, section));
    }
  }

  lemma StepReads(m: Machine, c: ascii, pattern: Str)
    requires Reads(m, pattern)
    ensures Reads(Step(m, c), pattern + [c])
  {
    hide IsNormal, Print;
    if m.Running? {
      if m.state.STATE_INIT? && c == HASH {
        FlushReads(m.pieces, m.section);
      } else if m.state.STATE_FETCH? && c == TokenPair(m.token) && m.section != [] {
        var stub := Stub(FetchType(m.token), m.section);
        PrintSnoc(m.pieces, stub);
        NormalSnoc(m.pieces, stub);
        assert PrintStub(stub) == [HASH, m.token] + m.section + [c];
        assert pattern + [c] == Print(m.pieces) + PrintStub(stub);
        assert !EndsInLiteral(m.pieces + [stub]);
      }
    }
  }

  lemma {:induction false} FeedReads(m: Machine, pattern: Str, s: Str)
    requires IsAscii(s) && Reads(m, pattern)
    ensures Reads(Feed(m, s), pattern + s)
    decreases s
  {
    hide Reads, Step;
    if s == [] {
      assert pattern + s == pattern;
    } else {
      StepReads(m, s[0], pattern);
      FeedReads(Step(m, s[0]), pattern + [s[0]], s[1..]);
      assert pattern + [s[0]] + s[1..] == pattern + s;
    }
  }

  /** An accepted pattern is the print of its pieces. */
  lemma ExplodedSound(pattern: Str)
    requires IsAscii(pattern)
    ensures Exploded(pattern).ok ==>
              IsNormal(Exploded(pattern).pieces) && Print(Exploded(pattern).pieces) == pattern
  {
    hide Feed, Step;
    FeedReads(START, [], pattern);
    assert [] + pattern == pattern;
    var m := Feed(START, pattern);
    if m.Running? && m.state.STATE_INIT? {
      FlushReads(m.pieces, m.section);
    }
  }

  // ---------------------------------------------------------------------------------------
  // Completeness: the machine reads every print
  // ---------------------------------------------------------------------------------------

  lemma {:induction false} FeedText(m: Machine, s: Str)
    requires m.Running? && !m.state.STATE_MATCH_TOKEN? && IsPlainText(s)
    ensures IsAscii(s) && Feed(m, s) == m.(section := m.section + s)
    decreases s
  {
    if s == [] {
      assert m.section + s == m.section;
    } else {
      FeedText(Step(m, s[0]), s[1..]);
      assert m.section + [s[0]] + s[1..] == m.section + s;
    }
  }

  lemma FeedPlaceholder(m: Machine, stub: Stub)
    requires m.Running? && m.state.STATE_INIT?
    requires stub.kind != LITERAL && stub.value != [] && IsPlainText(stub.value)
    ensures IsAscii(PrintStub(stub))
    ensures var m' := Feed(m, PrintStub(stub));
            m'.Running? && m'.state.STATE_INIT? && m'.section == [] &&
            m'.pieces == Flush(m.pieces, m.section) + [stub]
  {
    hide IsPlainText, Step, Feed;
    var open: ascii := if stub.kind == FIELD then OPEN_BRACE else OPEN_BRACKET;
    FeedOpen(m, open);
    FeedText(Feed(m, [HASH, open]), stub.value);
    FeedConcat(m, [HASH, open], stub.value);
    assert PrintStub(stub) == ([HASH, open] + stub.value) + [TokenPair(open)];
    FeedOne(m, [HASH, open] + stub.value, TokenPair(open));
    assert [] + stub.value == stub.value;
    StepClose(Feed(m, [HASH, open] + stub.value));
  }

  lemma FeedOpen(m: Machine, open: ascii)
    requires m.Running? && m.state.STATE_INIT? && (open == OPEN_BRACE || open == OPEN_BRACKET)
    ensures Feed(m, [HASH, open]) == Running(STATE_FETCH, open, [], Flush(m.pieces, m.section))
  {
    FeedOne(m, [], HASH);
    FeedOne(m, [HASH], open);
    assert [] + [HASH] == [HASH] && [HASH] + [open] == [HASH, open];
  }

  lemma StepClose(m: Machine)
    requires m.Running? && m.state.STATE_FETCH? && m.section != [] && TokenPair(m.token) != 0
    ensures Step(m, TokenPair(m.token))
            == Running(STATE_INIT, m.token, [], m.pieces + [Stub(FetchType(m.token), m.section)])
  {
  }

  lemma {:induction false} FeedPrint(stubs: seq<Stub>)
    requires IsNormal(stubs)
    ensures IsAscii(Print(stubs))
    ensures var m := Feed(START, Print(stubs));
            m.Running? && m.state.STATE_INIT? && Flush(m.pieces, m.section) == stubs &&
            (m.section != [] <==> EndsInLiteral(stubs))
    decreases stubs
  {
    if stubs == [] {
    } else {
      var init, stub := stubs[..|stubs| - 1], stubs[|stubs| - 1];
      assert stubs == init + [stub];
      FeedPrint(init);
      var m := Feed(START, Print(init));
      if stub.kind == LITERAL {
        FeedText(m, stub.value);
        assert [] + stub.value == stub.value;
      } else {
        FeedPlaceholder(m, stub);
      }
      FeedConcat(START, Print(init), PrintStub(stub));
    }
  }

  /** Exploding the print of a normal list of pieces gives the list back. */
  lemma ExplodePrint(stubs: seq<Stub>)
    requires IsNormal(stubs)
    ensures IsAscii(Print(stubs)) && Exploded(Print(stubs)) == Explosion(true, stubs, OK)
  {
    FeedPrint(stubs);
  }

  /** Printing loses nothing. */
  lemma PrintInjective(a: seq<Stub>, b: seq<Stub>)
    requires IsNormal(a) && IsNormal(b) && Print(a) == Print(b)
    ensures a == b
  {
    ExplodePrint(a);
    ExplodePrint(b);
  }

  /** A pattern is accepted exactly when it is a template. */
  lemma AcceptsTemplates(pattern: Str)
    requires IsAscii(pattern)
    ensures Exploded(pattern).ok <==> IsTemplate(pattern)
  {
    hide Feed, Step;
    ExplodedSound(pattern);
    if IsTemplate(pattern) {
      var stubs :| IsNormal(stubs) && Print(stubs) == pattern;
      ExplodePrint(stubs);
    }
  }

  // ---------------------------------------------------------------------------------------
  // Errors
  // ---------------------------------------------------------------------------------------

  lemma AcceptedWhenInit(pattern: Str)
    requires IsAscii(pattern)
    requires Feed(START, pattern).Running? && Feed(START, pattern).state.STATE_INIT?
    ensures IsTemplate(pattern)
  {
    hide Feed, Step;
    ExplodedSound(pattern);
  }

  lemma InitWhenAccepted(pattern: Str)
    requires IsTemplate(pattern)
    ensures IsAscii(pattern) && Feed(START, pattern).Running? && Feed(START, pattern).state.STATE_INIT?
  {
    hide Feed, Step;
    var stubs :| IsNormal(stubs) && Print(stubs) == pattern;
    FeedPrint(stubs);
  }

  /** A machine that has stopped accepts no continuation. */
  lemma TemplateKeepsRunning(pattern: Str, more: Str)
    requires IsAscii(pattern) && IsTemplate(pattern + more)
    ensures Feed(START, pattern).Running?
  {
    hide Feed, IsTemplate;
    InitWhenAccepted(pattern + more);
    AsciiRest(pattern, more);
    FeedConcat(START, pattern, more);
    if !Feed(START, pattern).Running? {
      FeedRejected(Feed(START, pattern), more);
    }
  }

  lemma AsciiRest(pattern: Str, more: Str)
    requires IsAscii(pattern + more)
    ensures IsAscii(more)
  {
    assert forall i | 0 <= i < |more| :: more[i] == (pattern + more)[|pattern| + i];
  }

  /** The machine is still running exactly when what it has read can become a template. */
  lemma RunningIsViable(pattern: Str)
    requires IsAscii(pattern)
    ensures Feed(START, pattern).Running? <==> IsViable(pattern)
  {
    hide Feed, IsTemplate, Reads;
    var m := Feed(START, pattern);
    if m.Running? {
      StartReads();
      FeedReads(START, [], pattern);
      assert [] + pattern == pattern;
      Completed(pattern, m);
    } else if more :| IsTemplate(pattern + more) {
      TemplateKeepsRunning(pattern, more);
    }
  }

  /** Every running machine can be brought to accept. */
  lemma Completed(pattern: Str, m: Machine)
    requires IsAscii(pattern) && m == Feed(START, pattern) && m.Running? && Reads(m, pattern)
    ensures IsViable(pattern)
  {
    hide Feed, IsNormal, Print;
    var name: ascii := 0x61;
    match m.state {
      case STATE_INIT =>
        assert pattern + [] == pattern;
        AcceptedWhenInit(pattern);
      case STATE_MATCH_TOKEN =>
        FeedOne(START, pattern, OPEN_BRACE);
        Completed1(pattern + [OPEN_BRACE], name, CLOSE_BRACE);
        Longer(pattern, OPEN_BRACE);
      case STATE_FETCH =>
        var close: ascii := TokenPair(m.token);
        if m.section == [] {
          Completed1(pattern, name, close);
        } else {
          FeedOne(START, pattern, close);
          AcceptedWhenInit(pattern + [close]);
        }
    }
  }

  lemma Completed1(pattern: Str, name: ascii, close: ascii)
    requires IsAscii(pattern) && !IsToken(name)
    requires var m := Feed(START, pattern);
             m.Running? && m.state.STATE_FETCH? && close == TokenPair(m.token) && close != 0
    ensures IsViable(pattern)
  {
    hide Feed, IsNormal, Print;
    FeedOne(START, pattern, name);
    FeedOne(START, pattern + [name], close);
    AcceptedWhenInit(pattern + [name] + [close]);
    assert pattern + [name] + [close] == pattern + [name, close];
  }

  lemma Longer(pattern: Str, c: byte)
    requires IsViable(pattern + [c])
    ensures IsViable(pattern)
  {
    hide IsTemplate;
    var more :| IsTemplate(pattern + [c] + more);
    assert pattern + [c] + more == pattern + ([c] + more);
  }

  /** `pattern` is a template followed by `#`. */
  ghost predicate AfterHash(pattern: Str) {
    pattern != [] && pattern[|pattern| - 1] == HASH && IsTemplate(pattern[..|pattern| - 1])
  }

  /** `pattern` is a template followed by `#`, an opening token and the start of a name. */
  ghost predicate InsidePlaceholder(pattern: Str, open: ascii, name: Str) {
    && |pattern| >= |name| + 2
    && (open == OPEN_BRACE || open == OPEN_BRACKET)
    && IsPlainText(name)
    && IsTemplate(pattern[..|pattern| - |name| - 2])
    && pattern == pattern[..|pattern| - |name| - 2] + [HASH, open] + name
  }

  /** The error that reading `c` after `pattern` deserves, in terms of templates alone. */
  ghost predicate Blames(pattern: Str, c: ascii, err: PatternErr) {
    match err
    case ILL_TOKEN => IsTemplate(pattern) && c in {0x5B, 0x5D, 0x7B, 0x7D}
    case ILL_BEGIN => AfterHash(pattern) && c != 0x7B && c != 0x5B
    case ILL_END => exists open: ascii, name :: InsidePlaceholder(pattern, open, name) && c in {0x23, 0x5B, 0x7B}
    case UNMATCH =>
      exists open: ascii, name ::
        InsidePlaceholder(pattern, open, name) && c == if open == 0x7B then 0x5D else 0x7D
    case NONE_FIELD =>
      exists open: ascii :: InsidePlaceholder(pattern, open, []) && c == if open == 0x7B then 0x7D else 0x5D
    case _ => false
  }

  lemma HashState(pattern: Str)
    requires IsAscii(pattern)
    ensures AfterHash(pattern) <==>
            Feed(START, pattern).Running? && Feed(START, pattern).state.STATE_MATCH_TOKEN?
  {
    hide Feed, Print, IsNormal, IsTemplate;
    var m := Feed(START, pattern);
    if AfterHash(pattern) {
      var init := pattern[..|pattern| - 1];
      InitWhenAccepted(init);
      FeedOne(START, init, HASH);
      assert init + [HASH] == pattern;
    }
    if m.Running? && m.state.STATE_MATCH_TOKEN? {
      StartReads();
      FeedReads(START, [], pattern);
      assert [] + pattern == pattern;
      PrintIsTemplate(m.pieces);
      assert pattern[..|pattern| - 1] == Print(m.pieces);
    }
  }

  lemma StartReads()
    ensures Reads(START, [])
  {
  }

  lemma PrintIsTemplate(stubs: seq<Stub>)
    requires IsNormal(stubs)
    ensures IsTemplate(Print(stubs))
  {
  }

  lemma InsideIsFetching(pattern: Str, open: ascii, name: Str)
    requires IsAscii(pattern) && InsidePlaceholder(pattern, open, name)
    ensures var m := Feed(START, pattern);
            m.Running? && m.state.STATE_FETCH? && m.token == open && m.section == name
  {
    hide Feed, Print, IsNormal, IsTemplate;
    var init := pattern[..|pattern| - |name| - 2];
    InitWhenAccepted(init);
    FeedOne(START, init, HASH);
    FeedOne(START, init + [HASH], open);
    assert init + [HASH] + [open] == init + [HASH, open];
    FeedText(Feed(START, init + [HASH, open]), name);
    FeedConcat(START, init + [HASH, open], name);
    assert [] + name == name;
  }

  lemma FetchingIsInside(pattern: Str)
    requires IsAscii(pattern)
    requires var m := Feed(START, pattern); m.Running? && m.state.STATE_FETCH?
    ensures var m := Feed(START, pattern);
            InsidePlaceholder(pattern, m.token, m.section) && TokenPair(m.token) != 0
  {
    hide Feed, Print, IsNormal, IsTemplate;
    var m := Feed(START, pattern);
    StartReads();
    FeedReads(START, [], pattern);
    assert [] + pattern == pattern;
    PrintIsTemplate(m.pieces);
    assert pattern == Print(m.pieces) + [HASH, m.token] + m.section;
    assert pattern[..|pattern| - |m.section| - 2] == Print(m.pieces);
  }

  /** Reading `c` is rejected with an error exactly when that error is deserved. */
  lemma StepBlames(pattern: Str, c: ascii, err: PatternErr)
    requires IsAscii(pattern) && IsViable(pattern)
    ensures Blames(pattern, c, err) <==>
            var m' := Step(Feed(START, pattern), c); m'.Rejected? && m'.err == err
  {
    hide Feed, Print, IsNormal, IsViable, InsidePlaceholder, AfterHash;
    RunningIsViable(pattern);
    var m := Feed(START, pattern);
    HashState(pattern);
    if m.state.STATE_INIT? {
      AcceptedWhenInit(pattern);
    }
    if IsTemplate(pattern) {
      InitWhenAccepted(pattern);
    }
    if m.state.STATE_FETCH? {
      FetchingIsInside(pattern);
    }
    forall open: ascii, name
      ensures InsidePlaceholder(pattern, open, name) <==> m.state.STATE_FETCH? && m.token == open && m.section == name
    {
      if InsidePlaceholder(pattern, open, name) {
        InsideIsFetching(pattern, open, name);
      }
    }
  }

  /** `pattern` up to position `k` can become a template, and with one more character cannot. */
  ghost predicate BreaksAt(pattern: Str, k: nat) {
    k < |pattern| && IsViable(pattern[..k]) && !IsViable(pattern[..k + 1])
  }

  /** `text` is the finished pieces and then text, a `#`, or an opened placeholder, as far as it goes. */
  ghost predicate IsReadAs(pieces: seq<Stub>, text: Str) {
    IsNormal(pieces) && exists open :: text == Print(pieces) + open && IsUnfinished(pieces, open)
  }

  predicate IsUnfinished(pieces: seq<Stub>, open: Str) {
    || (IsPlainText(open) && !EndsInLiteral(pieces))
    || open == [0x23]
    || (|open| >= 2 && open[0] == 0x23 && (open[1] == 0x7B || open[1] == 0x5B) && IsPlainText(open[2..]))
  }

  lemma RunningReadsAs(pattern: Str)
    requires IsAscii(pattern) && Feed(START, pattern).Running?
    ensures IsReadAs(Feed(START, pattern).pieces, pattern)
  {
    hide Feed, Print, IsNormal, IsPlainText;
    var m := Feed(START, pattern);
    StartReads();
    FeedReads(START, [], pattern);
    assert [] + pattern == pattern;
    var open := Pending(m);
    assert m.state.STATE_FETCH? ==> open[2..] == m.section;
    assert IsUnfinished(m.pieces, open);
  }

  lemma RejectingKeepsPieces(m: Machine, c: ascii)
    requires m.Running? && Step(m, c).Rejected?
    ensures Step(m, c).pieces == m.pieces
  {
  }

  /** Where a rejected run went wrong. */
  lemma {:induction false} FeedBreaks(pattern: Str)
    requires IsAscii(pattern) && Feed(START, pattern).Rejected?
    ensures exists k: nat ::
      && BreaksAt(pattern, k) && Blames(pattern[..k], pattern[k], Feed(START, pattern).err)
      && IsReadAs(Feed(START, pattern).pieces, pattern[..k])
    decreases |pattern|
  {
    hide Feed, Step, IsViable, Blames, IsReadAs;
    if pattern == [] {
      assert Feed(START, []) == START by { EmptyFeed(); }
      assert false;
    } else {
      var k := |pattern| - 1;
      var init := pattern[..k];
      FeedOne(START, init, pattern[k]);
      assert init + [pattern[k]] == pattern;
      if Feed(START, init).Rejected? {
        FeedBreaks(init);
        var j: nat :|
          && BreaksAt(init, j) && Blames(init[..j], init[j], Feed(START, init).err)
          && IsReadAs(Feed(START, init).pieces, init[..j]);
        assert init[..j] == pattern[..j] && init[..j + 1] == pattern[..j + 1];
        StepRejected(Feed(START, init), pattern[k]);
        assert BreaksAt(pattern, j) && Blames(pattern[..j], pattern[j], Feed(START, pattern).err);
      } else {
        RunningIsViable(init);
        RunningIsViable(pattern);
        StepBlames(init, pattern[k], Feed(START, pattern).err);
        RunningReadsAs(init);
        RejectingKeepsPieces(Feed(START, init), pattern[k]);
        assert pattern[..k + 1] == pattern;
        assert BreaksAt(pattern, k);
      }
    }
  }

  lemma EmptyFeed()
    ensures Feed(START, []) == START
  {
  }

  lemma StepRejected(m: Machine, c: ascii)
    requires m.Rejected?
    ensures Step(m, c) == m
  {
  }

  /**
   The error of a pattern that is no template: either some prefix is the first that cannot become
   one, and its last character deserves the error; or the pattern stops inside a placeholder.  The
   pieces are those finished by then.
   */
  lemma RejectionExplained(pattern: Str)
    requires IsAscii(pattern) && !IsTemplate(pattern)
    ensures var err := Exploded(pattern).err;
            var pieces := Exploded(pattern).pieces;
            if IsViable(pattern) then
              err == (if AfterHash(pattern) then ILL_BEGIN else ILL_END) && IsReadAs(pieces, pattern)
            else exists k: nat ::
              BreaksAt(pattern, k) && Blames(pattern[..k], pattern[k], err) && IsReadAs(pieces, pattern[..k])
  {
    hide Feed, Step, IsViable, Blames, AfterHash, IsTemplate, IsReadAs;
    AcceptsTemplates(pattern);
    RunningIsViable(pattern);
    HashState(pattern);
    if Feed(START, pattern).Rejected? {
      FeedBreaks(pattern);
    } else {
      RunningReadsAs(pattern);
    }
  }

  // ---------------------------------------------------------------------------------------
  // The loop
  // ---------------------------------------------------------------------------------------

  method Explode(pattern: Str) returns (ok: bool, pieces: seq<Stub>, err: PatternErr)
    requires IsAscii(pattern)
    ensures Explosion(ok, pieces, err) == Exploded(pattern)
    ensures ok <==> IsTemplate(pattern)
    ensures ok ==> IsNormal(pieces) && Print(pieces) == pattern
  {
    hide IsNormal, Print, IsTemplate;
    AcceptsTemplates(pattern);
    ExplodedSound(pattern);
    pieces := [];
    var section: Str := [];
    var stubType := LITERAL;
    var token: ascii := 0;
    var state := STATE_INIT;
    assert pattern[0..] == pattern;
    for i := 0 to |pattern|
      invariant Feed(Running(state, token, section, pieces), pattern[i..]) == Feed(START, pattern)
      invariant stubType == if state.STATE_FETCH? then FetchType(token) else LITERAL
    {
      var c: ascii := pattern[i];
      assert pattern[i..][1..] == pattern[i + 1..];
      ghost var before := Running(state, token, section, pieces);
      ghost var after := Step(before, c);
      if after.Rejected? {
        FeedRejected(after, pattern[i + 1..]);
      }
      match state {
        case STATE_INIT =>
          if IsToken(c) {
            if c == HASH {
              if section != [] {
                pieces := pieces + [Stub(stubType, section)];
                section := [];
              }
              state := STATE_MATCH_TOKEN;
            } else {
              return false, pieces, ILL_TOKEN;
            }
          } else {
            section := section + [c];
          }
        case STATE_MATCH_TOKEN =>
          if TokenPair(c) == 0 {
            return false, pieces, ILL_BEGIN;
          }
          token := c;
          state := STATE_FETCH;
          stubType := if token == OPEN_BRACKET then LIST else FIELD;
        case STATE_FETCH =>
          if IsToken(c) {
            if IsEndToken(c) {
              if c != TokenPair(token) {
                return false, pieces, UNMATCH;
              }
              if section == [] {
                return false, pieces, NONE_FIELD;
              }
              pieces := pieces + [Stub(stubType, section)];
              section := [];
              state := STATE_INIT;
              stubType := LITERAL;
            } else {
              return false, pieces, ILL_END;
            }
          } else {
            section := section + [c];
          }
      }
    }
    match state {
      case STATE_INIT =>
        if section != [] {
          pieces := pieces + [Stub(stubType, section)];
        }
        return true, pieces, OK;
      case STATE_MATCH_TOKEN =>
        return false, pieces, ILL_BEGIN;
      case STATE_FETCH =>
        return false, pieces, ILL_END;
    }
  }
}
