/**
 What a server reads back from escaped text.
 */
module EscapeMeaning {
  import opened Bytes
  import opened Charset
  import opened EscapeSpec
  import opened MysqlLexer
  import opened Options

  /** Reading one escaped unit gives back the bytes it came from, whatever follows. */
  lemma ReadUnit(cs: Charset, q: byte, s: Str, t: Str)
    requires s != [] && (q == QUOTE || q == DOUBLE_QUOTE)
    ensures ReadString(cs, q, EscapeUnit(cs, Backslashes, s) + t) == Prepend(s[..Unit(cs, s)], ReadString(cs, q, t))
  {
    var out := EscapeUnit(cs, Backslashes, s);
    LeadByte(cs, s);
    LeadByte(cs, out + t);
    assert (out + t)[|out|..] == t;
    if IsMbChar(cs, s) > 0 {
      MbCharPrefix(cs, s, t);
      assert (out + t)[..|out|] == out;
    } else if EscapeChoice(cs, s[0]) != 0 {
      assert (out + t)[0] == BACKSLASH && (out + t)[1] == EscapeChoice(cs, s[0]);
      assert Unescape(EscapeChoice(cs, s[0])) == [s[0]];
      assert s[..1] == [s[0]];
    } else {
      assert s[..1] == [s[0]];
    }
  }

  lemma PrependTwice(a: Str, b: Str, r: Option<Quoted>)
    ensures Prepend(a, Prepend(b, r)) == Prepend(a + b, r)
  {
    if r.Some? {
      assert a + (b + r.value.value) == (a + b) + r.value.value;
    }
  }

  /** Escaped text reads back as the original text, then as whatever follows it reads. */
  lemma {:induction false} ReadEscaped(cs: Charset, q: byte, s: Str, t: Str)
    requires q == QUOTE || q == DOUBLE_QUOTE
    ensures ReadString(cs, q, Escape(cs, Backslashes, s) + t) == Prepend(s, ReadString(cs, q, t))
  {
    hide IsMbChar, Unit, EscapeUnit, ReadString;
    if s == [] {
      assert Escape(cs, Backslashes, s) + t == t;
      PrependEmpty(ReadString(cs, q, t));
    } else {
      var n := Unit(cs, s);
      var tail := Escape(cs, Backslashes, s[n..]) + t;
      assert Escape(cs, Backslashes, s) + t == EscapeUnit(cs, Backslashes, s) + tail;
      ReadUnit(cs, q, s, tail);
      ReadEscaped(cs, q, s[n..], t);
      PrependTwice(s[..n], s[n..], ReadString(cs, q, t));
      assert s[..n] + s[n..] == s;
    }
  }

  lemma PrependEmpty(r: Option<Quoted>)
    ensures Prepend([], r) == r
  {
    if r.Some? {
      assert [] + r.value.value == r.value.value;
    }
  }

  /**
   The round trip.  Put between quotes, any byte string whatever, with stray or truncated lead
   bytes and with GBK tails that are backslashes, is read back unchanged, and reading stops at
   the quote that was put after it.
   */
  lemma RoundTrip(cs: Charset, q: byte, s: Str, rest: Str)
    requires q == QUOTE || q == DOUBLE_QUOTE
    requires rest == [] || rest[0] != q
    ensures ReadString(cs, q, Escape(cs, Backslashes, s) + ([q] + rest)) == Some(Quoted(s, rest))
  {
    hide ReadString, Escape;
    ReadEscaped(cs, q, s, [q] + rest);
    ReadClosing(cs, q, rest);
    assert s + [] == s;
  }

  /** Two values are never confused: the escaper loses nothing. */
  lemma EscapeInjective(cs: Charset, s: Str, t: Str)
    requires Escape(cs, Backslashes, s) == Escape(cs, Backslashes, t)
    ensures s == t
  {
    hide ReadString, Escape;
    RoundTrip(cs, QUOTE, s, []);
    RoundTrip(cs, QUOTE, t, []);
  }

  lemma UnitNoZero(cs: Charset, s: Str)
    requires s != []
    ensures NUL !in EscapeUnit(cs, Backslashes, s)
  {
    LeadByte(cs, s);
  }

  /** No zero byte is written, so the output survives being read back as a C string. */
  lemma {:induction false} NoZeroByte(cs: Charset, s: Str)
    ensures NUL !in Escape(cs, Backslashes, s)
    decreases s
  {
    hide IsMbChar, Unit, EscapeUnit;
    if s == [] {
    } else {
      NoZeroByte(cs, s[Unit(cs, s)..]);
      UnitNoZero(cs, s);
    }
  }

  // ---------------------------------------------------------------------------------------
  // Identifiers
  // ---------------------------------------------------------------------------------------

  /** The last round of the escaper is a single byte that appears to begin a multi-byte character. */
  predicate EndsInStrayLead(cs: Charset, s: Str) {
    s != [] &&
    if Unit(cs, s) == |s| then IsMbChar(cs, s) == 0 && MbCharLen(cs, s[0]) > 1
    else EndsInStrayLead(cs, s[Unit(cs, s)..])
  }

  /** The closing quote can be taken for the second half of a character that the text leaves open. */
  predicate SwallowsQuote(cs: Charset, q: byte, s: Str) {
    cs == GBK && IsGbkTail(q) && EndsInStrayLead(cs, s)
  }

  /** Doubling never changes the first byte of what follows. */
  lemma DoubledStart(cs: Charset, q: byte, s: Str)
    requires s != []
    ensures Escape(cs, Doubles(q), s)[0] == s[0]
  {
  }

  /** A byte that starts no character still starts none when what follows it has its quotes doubled. */
  lemma DoubledStray(cs: Charset, q: byte, s: Str, t: Str)
    requires IsQuote(q) && s != [] && IsMbChar(cs, s) == 0
    requires t != [] && t[0] == q
    requires !(|s| == 1 && SwallowsQuote(cs, q, s))
    ensures IsMbChar(cs, [s[0]] + (Escape(cs, Doubles(q), s[1..]) + t)) == 0
  {
    if |s| > 1 {
      DoubledStart(cs, q, s[1..]);
      if cs == UTF8 && IsContinuationByte(s[1]) {
        assert IsMbChar(cs, s[1..]) == 0;
        assert s[1..][1..] == s[2..];
        if |s| > 2 {
          DoubledStart(cs, q, s[2..]);
        }
      }
    }
  }

  lemma UnfoldBefore(cs: Charset, style: Style, s: Str, t: Str)
    requires s != []
    ensures Escape(cs, style, s) + t == EscapeUnit(cs, style, s) + (Escape(cs, style, s[Unit(cs, s)..]) + t)
  {
    hide IsMbChar, Unit, EscapeUnit;
  }

  lemma ReadDoubledUnit(cs: Charset, q: byte, s: Str, t: Str)
    requires IsQuote(q) && s != [] && t != [] && t[0] == q
    requires !(|s| == 1 && SwallowsQuote(cs, q, s))
    ensures var u := Unit(cs, s);
            ReadIdentifier(cs, q, Escape(cs, Doubles(q), s) + t)
            == Prepend(s[..u], ReadIdentifier(cs, q, Escape(cs, Doubles(q), s[u..]) + t))
  {
    hide IsMbChar, Escape;
    var u := Unit(cs, s);
    var out := EscapeUnit(cs, Doubles(q), s);
    var tail := Escape(cs, Doubles(q), s[u..]) + t;
    UnfoldBefore(cs, Doubles(q), s, t);
    assert (out + tail)[|out|..] == tail;
    if IsMbChar(cs, s) > 0 {
      MbCharPrefix(cs, s, tail);
      assert (out + tail)[..|out|] == out;
    } else {
      assert s[..1] == [s[0]];
      if s[0] == q {
        assert (out + tail)[0] == q && (out + tail)[1] == q;
        assert MbCharLen(cs, q) <= 1;
        LeadByte(cs, out + tail);
      } else {
        DoubledStray(cs, q, s, t);
      }
    }
  }

  lemma {:induction false} ReadDoubled(cs: Charset, q: byte, s: Str, t: Str)
    requires IsQuote(q) && t != [] && t[0] == q
    requires !SwallowsQuote(cs, q, s)
    ensures ReadIdentifier(cs, q, Escape(cs, Doubles(q), s) + t) == Prepend(s, ReadIdentifier(cs, q, t))
  {
    hide IsMbChar, Unit, EscapeUnit, ReadIdentifier;
    if s == [] {
      assert Escape(cs, Doubles(q), s) + t == t;
      PrependEmpty(ReadIdentifier(cs, q, t));
    } else {
      var u := Unit(cs, s);
      ReadDoubledUnit(cs, q, s, t);
      ReadDoubled(cs, q, s[u..], t);
      PrependTwice(s[..u], s[u..], ReadIdentifier(cs, q, t));
      assert s[..u] + s[u..] == s;
    }
  }

  /** A text that ends in a stray lead byte takes the closing quote into its value. */
  lemma {:induction false} ReadSwallowed(cs: Charset, q: byte, s: Str, t: Str)
    requires IsQuote(q) && t != [] && t[0] == q
    requires SwallowsQuote(cs, q, s)
    ensures ReadIdentifier(cs, q, Escape(cs, Doubles(q), s) + t) == Prepend(s + [q], ReadIdentifier(cs, q, t[1..]))
    decreases s
  {
    var u := Unit(cs, s);
    if u == |s| {
      var out := Escape(cs, Doubles(q), s);
      assert out == [s[0]] && s == [s[0]];
      assert (out + t)[..2] == s + [q];
      assert (out + t)[2..] == t[1..];
    } else {
      ReadDoubledUnit(cs, q, s, t);
      ReadSwallowed(cs, q, s[u..], t);
      PrependTwice(s[..u], s[u..] + [q], ReadIdentifier(cs, q, t[1..]));
      assert s[..u] + (s[u..] + [q]) == s + [q];
    }
  }

  /**
   When a quoted identifier reads back.  Under UTF8, or with a quote that is no GBK tail, always;
   a backtick is a GBK tail, so under GBK exactly when the name does not end in a stray lead byte.
   */
  lemma IdentifierRoundTrip(cs: Charset, q: byte, s: Str, rest: Str)
    requires IsQuote(q)
    requires rest == [] || rest[0] != q
    ensures ReadIdentifier(cs, q, Escape(cs, Doubles(q), s) + ([q] + rest)) == Some(Quoted(s, rest))
            <==> !SwallowsQuote(cs, q, s)
  {
    hide IsMbChar, Unit, EscapeUnit, Escape, EndsInStrayLead;
    var t := [q] + rest;
    assert t[1..] == rest;
    if SwallowsQuote(cs, q, s) {
      ReadSwallowed(cs, q, s, t);
    } else {
      ReadDoubled(cs, q, s, t);
      ReadClosing(cs, q, rest);
      assert s + [] == s;
    }
  }

  lemma ReadClosing(cs: Charset, q: byte, rest: Str)
    requires IsQuote(q)
    requires rest == [] || rest[0] != q
    ensures ReadIdentifier(cs, q, [q] + rest) == Some(Quoted([], rest))
    ensures ReadString(cs, q, [q] + rest) == Some(Quoted([], rest))
  {
    assert ([q] + rest)[1..] == rest;
    LeadByte(cs, [q] + rest);
  }

  /** The smallest identifier that does not read back. */
  lemma StrayLeadIdentifier()
    ensures SwallowsQuote(GBK, BACKTICK, [0x81])
    ensures !SwallowsQuote(UTF8, BACKTICK, [0x81])
    ensures ReadIdentifier(GBK, BACKTICK, Escape(GBK, Doubles(BACKTICK), [0x81]) + [BACKTICK]) == None
  {
    var s := Escape(GBK, Doubles(BACKTICK), [0x81]) + [BACKTICK];
    assert s == [0x81, BACKTICK];
    assert IsMbChar(GBK, s) == 2;
    assert s[2..] == [];
    assert ReadIdentifier(GBK, BACKTICK, s[2..]) == None;
  }
}
