/**
 What the two escapers of mysql_escape.cpp write, byte for byte, and where a full buffer may
 stop them.
 */
module EscapeSpec {
  import opened Bytes
  import opened Charset

  /** Escape special bytes with backslashes, or double one quote character. */
  datatype Style = Backslashes | Doubles(quote: byte)

  /** The byte written after a backslash for a single byte `c`, or 0 when `c` is copied. */
  function EscapeByte(c: byte): byte {
    if c == NUL then 0x30
    else if c == NEWLINE then 0x6E
    else if c == RETURN then 0x72
    else if c == BACKSLASH then BACKSLASH
    else if c == QUOTE then QUOTE
    else if c == DOUBLE_QUOTE then DOUBLE_QUOTE
    else if c == CTRL_Z then 0x5A
    else 0
  }

  /** The escaper's choice for a byte that starts no valid character: a stray lead byte escapes itself. */
  function EscapeChoice(cs: Charset, c: byte): byte {
    if MbCharLen(cs, c) > 1 then c else EscapeByte(c)
  }

  /** How many bytes of `s` the escaper handles in one round. */
  function Unit(cs: Charset, s: Str): (n: nat)
    requires s != []
    ensures 0 < n <= |s|
  {
    if IsMbChar(cs, s) > 0 then IsMbChar(cs, s) else 1
  }

  /** What the escaper writes in one round. */
  function EscapeUnit(cs: Charset, style: Style, s: Str): (out: Str)
    requires s != []
    ensures 0 < |out| <= 2 * Unit(cs, s)
  {
    if IsMbChar(cs, s) > 0 then s[..IsMbChar(cs, s)]
    else match style {
      case Backslashes =>
        if EscapeChoice(cs, s[0]) != 0 then [BACKSLASH, EscapeChoice(cs, s[0])] else [s[0]]
      case Doubles(quote) =>
        if s[0] == quote then [quote, quote] else [s[0]]
    }
  }

  function Escape(cs: Charset, style: Style, s: Str): (out: Str)
    ensures |s| <= |out| <= 2 * |s|
  {
    if s == [] then [] else EscapeUnit(cs, style, s) + Escape(cs, style, s[Unit(cs, s)..])
  }

  /** A byte that starts no character and is not copied: special, or a stray lead byte. */
  predicate IsEscaped(cs: Charset, style: Style, s: Str)
    requires s != []
  {
    IsMbChar(cs, s) == 0 &&
    match style
    case Backslashes => EscapeChoice(cs, s[0]) != 0
    case Doubles(quote) => s[0] == quote
  }

  /** How many bytes of the text are escaped. */
  function EscapedBytes(cs: Charset, style: Style, s: Str): nat {
    if s == [] then 0
    else (if IsEscaped(cs, style, s) then 1 else 0) + EscapedBytes(cs, style, s[Unit(cs, s)..])
  }

  /** Every byte that is escaped adds one byte, and nothing else adds any. */
  lemma {:induction false} EscapeLength(cs: Charset, style: Style, s: Str)
    ensures |Escape(cs, style, s)| == |s| + EscapedBytes(cs, style, s)
    decreases s
  {
    hide IsMbChar;
    if s == [] {
    } else {
      EscapeLength(cs, style, s[Unit(cs, s)..]);
    }
  }

  // ---------------------------------------------------------------------------------------
  // Where the text may be cut
  // ---------------------------------------------------------------------------------------

  /** `n` is a place between two rounds of the escaper. */
  predicate IsBoundary(cs: Charset, s: Str, n: nat)
    decreases s
  {
    n == 0 || (n <= |s| && s != [] && Unit(cs, s) <= n && IsBoundary(cs, s[Unit(cs, s)..], n - Unit(cs, s)))
  }

  /** The first round does not see what is cut off after it. */
  lemma UnitCut(cs: Charset, style: Style, s: Str, n: nat)
    requires s != [] && Unit(cs, s) <= n <= |s|
    ensures Unit(cs, s[..n]) == Unit(cs, s) && EscapeUnit(cs, style, s[..n]) == EscapeUnit(cs, style, s)
  {
    MbCharCut(cs, s, n);
    assert s[..n][..Unit(cs, s)] == s[..Unit(cs, s)];
  }

  /** Cut at a boundary, the text escapes piece by piece. */
  lemma {:induction false} EscapeSplit(cs: Charset, style: Style, s: Str, n: nat)
    requires n <= |s| && IsBoundary(cs, s, n)
    ensures Escape(cs, style, s) == Escape(cs, style, s[..n]) + Escape(cs, style, s[n..])
    decreases s
  {
    hide IsMbChar, Unit, EscapeUnit;
    if n == 0 {
      assert s[..0] == [] && s[0..] == s;
    } else {
      var u := Unit(cs, s);
      var first := EscapeUnit(cs, style, s);
      UnitCut(cs, style, s, n);
      EscapeSplit(cs, style, s[u..], n - u);
      assert s[..n][u..] == s[u..][..n - u];
      assert s[n..] == s[u..][n - u..];
      calc {
        Escape(cs, style, s);
        first + (Escape(cs, style, s[u..][..n - u]) + Escape(cs, style, s[n..]));
        (first + Escape(cs, style, s[u..][..n - u])) + Escape(cs, style, s[n..]);
        Escape(cs, style, s[..n]) + Escape(cs, style, s[n..]);
      }
    }
  }

  /** The place one round after a boundary is a boundary. */
  lemma {:induction false} NextBoundary(cs: Charset, s: Str, n: nat)
    requires n < |s| && IsBoundary(cs, s, n)
    ensures IsBoundary(cs, s, n + Unit(cs, s[n..]))
    decreases s
  {
    if n == 0 {
      assert s[0..] == s;
    } else {
      var u := Unit(cs, s);
      assert s[n..] == s[u..][n - u..];
      NextBoundary(cs, s[u..], n - u);
    }
  }

  lemma Unfold(cs: Charset, style: Style, s: Str)
    requires s != []
    ensures Escape(cs, style, s) == EscapeUnit(cs, style, s) + Escape(cs, style, s[Unit(cs, s)..])
  {
  }

  /** One round adds one unit's output. */
  lemma EscapeStep(cs: Charset, style: Style, s: Str, n: nat)
    requires n < |s| && IsBoundary(cs, s, n)
    ensures var m := n + Unit(cs, s[n..]);
            m <= |s| && IsBoundary(cs, s, m) &&
            Escape(cs, style, s[..m]) == Escape(cs, style, s[..n]) + EscapeUnit(cs, style, s[n..])
  {
    hide IsMbChar, Unit, EscapeUnit, Escape, IsBoundary;
    var rest := s[n..];
    Unfold(cs, style, rest);
    var u := Unit(cs, rest);
    NextBoundary(cs, s, n);
    EscapeSplit(cs, style, s, n);
    EscapeSplit(cs, style, s, n + u);
    assert rest[u..] == s[n + u..];
    StepCancel(Escape(cs, style, s[..n + u]), Escape(cs, style, s[..n]), EscapeUnit(cs, style, rest),
               Escape(cs, style, rest[u..]));
  }

  lemma StepCancel(a: Str, b: Str, c: Str, t: Str)
    requires a + t == b + (c + t)
    ensures a == b + c
  {
    assert b + (c + t) == (b + c) + t;
    Cancel(a, b + c, t);
  }

  lemma Cancel(a: Str, b: Str, t: Str)
    requires a + t == b + t
    ensures a == b
  {
    assert |a| == |b|;
    assert a == (a + t)[..|a|];
    assert b == (b + t)[..|a|];
  }

  /**
   `n` is where a buffer with room for `room` bytes stops the escaper: everything before `n` is
   escaped, and either `n` is the end or the next round does not fit.
   */
  ghost predicate StopsAt(cs: Charset, style: Style, s: Str, room: nat, n: nat) {
    && n <= |s|
    && IsBoundary(cs, s, n)
    && |Escape(cs, style, s[..n])| <= room
    && (n < |s| ==> |Escape(cs, style, s[..n])| + |EscapeUnit(cs, style, s[n..])| > room)
  }

  /** The escaper reaches the end exactly when the whole escaped text fits. */
  lemma StopsAtEnd(cs: Charset, style: Style, s: Str, room: nat, n: nat)
    requires StopsAt(cs, style, s, room, n)
    ensures n == |s| <==> |Escape(cs, style, s)| <= room
  {
    hide IsMbChar, Unit, EscapeUnit, Escape, IsBoundary;
    if n < |s| {
      EscapeSplit(cs, style, s, n);
      Unfold(cs, style, s[n..]);
      assert |Escape(cs, style, s[n..])| >= |EscapeUnit(cs, style, s[n..])|;
    } else {
      assert s[..n] == s;
    }
  }

  /** What lies between two boundaries is a whole number of rounds, so it starts with the round at the first. */
  lemma {:induction false} BoundaryGap(cs: Charset, s: Str, m: nat, n: nat)
    requires m < n <= |s| && IsBoundary(cs, s, m) && IsBoundary(cs, s, n)
    ensures m + Unit(cs, s[m..]) <= n
    decreases s
  {
    hide IsMbChar, Unit;
    if m == 0 {
      assert s[0..] == s;
    } else {
      var u := Unit(cs, s);
      assert s[m..] == s[u..][m - u..];
      BoundaryGap(cs, s[u..], m - u, n - u);
    }
  }

  /** The place where the escaper stops is the furthest boundary whose escaped text fits. */
  lemma StopsFurthest(cs: Charset, style: Style, s: Str, room: nat, n: nat, k: nat)
    requires StopsAt(cs, style, s, room, n)
    requires k <= |s| && IsBoundary(cs, s, k) && |Escape(cs, style, s[..k])| <= room
    ensures k <= n
  {
    hide IsMbChar, Unit, EscapeUnit, Escape, IsBoundary;
    if n < k {
      BoundaryGap(cs, s, n, k);
      var m := n + Unit(cs, s[n..]);
      EscapeStep(cs, style, s, n);
      EscapeMonotone(cs, style, s, m, k);
      assert false;
    }
  }

  lemma {:induction false} BoundaryOfPrefix(cs: Charset, s: Str, m: nat, k: nat)
    requires m <= k <= |s| && IsBoundary(cs, s, m) && IsBoundary(cs, s, k)
    ensures IsBoundary(cs, s[..k], m)
    decreases s
  {
    hide IsMbChar, Unit, EscapeUnit;
    if m == 0 {
    } else {
      var u := Unit(cs, s);
      UnitCut(cs, Backslashes, s, k);
      assert s[..k][u..] == s[u..][..k - u];
      BoundaryOfPrefix(cs, s[u..], m - u, k - u);
    }
  }

  lemma EscapeMonotone(cs: Charset, style: Style, s: Str, m: nat, k: nat)
    requires m <= k <= |s| && IsBoundary(cs, s, m) && IsBoundary(cs, s, k)
    ensures |Escape(cs, style, s[..m])| <= |Escape(cs, style, s[..k])|
  {
    hide IsMbChar, Unit, EscapeUnit;
    BoundaryOfPrefix(cs, s, m, k);
    EscapeSplit(cs, style, s[..k], m);
    assert s[..k][..m] == s[..m];
  }

  lemma Start(cs: Charset, style: Style, s: Str)
    ensures IsBoundary(cs, s, 0) && Escape(cs, style, []) == []
  {
  }

  lemma Fits(cs: Charset, style: Style, s: Str, n: nat)
    requires n <= |s| && IsBoundary(cs, s, n)
    ensures |Escape(cs, style, s[..n])| <= |Escape(cs, style, s)|
  {
    hide IsMbChar, Unit, EscapeUnit;
    EscapeSplit(cs, style, s, n);
  }
}
