/**
 What the escapers write, told by the characters of the text: byte by byte in numbers, without the
 classifiers the loops use.
 */
module EscapeText {
  import opened Bytes
  import opened Charset
  import opened EscapeMeaning
  import opened EscapeSpec
  import opened MysqlLexer
  import opened Options

  /** What stands first in `s`: a character, or one byte where no character starts. */
  ghost predicate StandsFirst(cs: Charset, s: Str, m: Str) {
    m <= s && (IsCharacter(cs, m) || (|m| == 1 && forall k: nat | 0 < k <= |s| :: !IsCharacter(cs, s[..k])))
  }

  /** Characters of the set begin with this byte. */
  predicate BeginsCharacters(cs: Charset, c: byte) {
    match cs
    case GBK => 0x81 <= c <= 0xFE
    case UTF8 => 0xC2 <= c <= 0xEF
  }

  /** A byte outside characters, escaped with a backslash where it must be. */
  function Backslashed(cs: Charset, c: byte): Str {
    if c == 0x00 then [0x5C, 0x30]
    else if c == 0x0A then [0x5C, 0x6E]
    else if c == 0x0D then [0x5C, 0x72]
    else if c == 0x1A then [0x5C, 0x5A]
    else if c == 0x22 || c == 0x27 || c == 0x5C || BeginsCharacters(cs, c) then [0x5C, c]
    else [c]
  }

  lemma CharacterLength(cs: Charset, m: Str)
    requires IsCharacter(cs, m)
    ensures 1 < |m| <= 3
  {
  }

  lemma FirstIsUnit(cs: Charset, s: Str, m: Str)
    requires s != [] && StandsFirst(cs, s, m)
    ensures |m| == Unit(cs, s) && m == s[..|m|]
    ensures if IsCharacter(cs, m) then IsMbChar(cs, s) == |m| else IsMbChar(cs, s) == 0
  {
    hide IsMbChar, IsCharacter;
    assert s[..|m|] == m;
    if IsCharacter(cs, m) {
      CharacterLength(cs, m);
      IsMbCharExact(cs, s, |m|);
    } else if IsMbChar(cs, s) > 0 {
      IsMbCharExact(cs, s, IsMbChar(cs, s));
    }
  }

  /** Something stands first in every text, and one thing only. */
  lemma FirstExists(cs: Charset, s: Str) returns (m: Str)
    requires s != []
    ensures StandsFirst(cs, s, m) && forall n | StandsFirst(cs, s, n) :: n == m
  {
    hide IsMbChar, IsCharacter;
    m := s[..Unit(cs, s)];
    if IsMbChar(cs, s) > 0 {
      IsMbCharExact(cs, s, IsMbChar(cs, s));
    }
    forall k: nat | 0 < k <= |s|
      ensures IsCharacter(cs, s[..k]) <==> IsMbChar(cs, s) == k
    {
      IsMbCharExact(cs, s, k);
    }
    forall n | StandsFirst(cs, s, n)
      ensures n == m
    {
      FirstIsUnit(cs, s, n);
    }
  }

  /** Escaping deals with what stands first and goes on: a character stays as it is, a byte is looked up. */
  lemma EscapeFirst(cs: Charset, style: Style, s: Str, m: Str)
    requires s != [] && StandsFirst(cs, s, m)
    ensures m != [] && Escape(cs, style, s) ==
            (if |m| > 1 then m
             else if style.Backslashes? then Backslashed(cs, m[0])
             else if m[0] == style.quote then [m[0], m[0]]
             else m) + Escape(cs, style, s[|m|..])
  {
    FirstIsUnit(cs, s, m);
    if IsCharacter(cs, m) {
      CharacterLength(cs, m);
    }
    hide IsMbChar, IsCharacter, Escape;
    Unfold(cs, style, s);
  }

  lemma EscapeNothing(cs: Charset, style: Style)
    ensures Escape(cs, style, []) == []
  {
  }

  // ---------------------------------------------------------------------------------------
  // Whole characters
  // ---------------------------------------------------------------------------------------

  function Joined(pieces: seq<Str>): Str {
    if pieces == [] then [] else pieces[0] + Joined(pieces[1..])
  }

  /** A character, or an ASCII byte that means nothing special between the quotes. */
  ghost predicate NeedsNoEscape(cs: Charset, style: Style, piece: Str) {
    || IsCharacter(cs, piece)
    || (|piece| == 1 && piece[0] < 0x80 &&
        if style.Backslashes? then piece[0] !in {0x00, 0x0A, 0x0D, 0x1A, 0x22, 0x27, 0x5C} else piece[0] != style.quote)
  }

  lemma AsciiStandsFirst(cs: Charset, s: Str)
    requires s != [] && s[0] < 0x80
    ensures StandsFirst(cs, s, [s[0]])
  {
    hide IsCharacter;
    forall k: nat | 0 < k <= |s|
      ensures !IsCharacter(cs, s[..k])
    {
      IsMbCharExact(cs, s, k);
      LeadByte(cs, s);
    }
  }

  /**
   A text made of whole characters and harmless ASCII is escaped to itself, in both ways: whatever
   the bytes inside the characters look like, backslash, backtick and all.
   */
  lemma {:induction false} CharactersStay(cs: Charset, style: Style, pieces: seq<Str>)
    requires forall i | 0 <= i < |pieces| :: NeedsNoEscape(cs, style, pieces[i])
    ensures Escape(cs, style, Joined(pieces)) == Joined(pieces)
  {
    hide IsCharacter, Escape;
    if pieces == [] {
      EscapeNothing(cs, style);
    } else {
      var m, rest := pieces[0], Joined(pieces[1..]);
      assert NeedsNoEscape(cs, style, m);
      if IsCharacter(cs, m) {
        CharacterLength(cs, m);
      } else {
        AsciiStandsFirst(cs, m + rest);
        assert m == [m[0]];
      }
      assert StandsFirst(cs, m + rest, m);
      EscapeFirst(cs, style, m + rest, m);
      assert (m + rest)[|m|..] == rest;
      CharactersStay(cs, style, pieces[1..]);
    }
  }

  /** Every head with every tail is copied, whatever follows; a backslash or backtick as tail as well. */
  lemma GbkPairStays(style: Style, head: byte, tail: byte, rest: Str)
    requires 0x81 <= head <= 0xFE && (0x40 <= tail <= 0x7E || 0x80 <= tail <= 0xFE)
    ensures Escape(GBK, style, [head, tail] + rest) == [head, tail] + Escape(GBK, style, rest)
  {
    hide Escape;
    var m: Str := [head, tail];
    EscapeFirst(GBK, style, m + rest, m);
    assert (m + rest)[2..] == rest;
  }

  // ---------------------------------------------------------------------------------------
  // Quotes
  // ---------------------------------------------------------------------------------------

  /**
   What `escape_field_quote` leaves in the buffer reads back between two of the quotes it was asked
   for, unless it is a name under GBK that ends in a byte with which a character could begin.
   */
  lemma FieldQuoteMeaning(cs: Charset, quote: byte, s: Str, rest: Str)
    requires quote == 0x22 || quote == 0x27 || quote == 0x60
    requires rest == [] || rest[0] != quote
    ensures var style := if quote == 0x60 then Doubles(0x60) else Backslashes;
            ReadQuoted(cs, quote, Escape(cs, style, s) + ([quote] + rest)) == Some(Quoted(s, rest))
            <==> !(quote == 0x60 && cs == GBK && EndsInStrayLead(cs, s))
  {
    hide Escape, ReadString, ReadIdentifier, EndsInStrayLead;
    if quote == 0x60 {
      IdentifierRoundTrip(cs, quote, s, rest);
    } else {
      RoundTrip(cs, quote, s, rest);
    }
  }
}
