/**
 The two escaping loops of mysql_escape.cpp, with their read and write cursors, and the wrapper
 that chooses a buffer.
 */
module EscapeLoop {
  import opened Bytes
  import opened Charset
  import opened EscapeSpec
  import opened EscapeMeaning
  import Splitting

  /** The first bytes of `buffer` are `text` and a terminating zero. */
  predicate HoldsCString(buffer: Str, text: Str) {
    |text| < |buffer| && buffer[..|text|] == text && buffer[|text|] == NUL
  }

  /** The room the escaper gives itself: `toLength` counts the terminator, and 0 means enough. */
  function Room(toLength: nat, from: Str): nat {
    if toLength != 0 then toLength - 1 else 2 * |from|
  }

  /** Copies `k` bytes from position `f` of `from` to position `t` of `to`, one at a time. */
  method CopyBytes(to: array<byte>, t: nat, from: Str, f: nat, k: nat)
    requires t + k <= to.Length && f + k <= |from|
    modifies to
    ensures to[..t] == old(to[..t]) && to[t..t + k] == from[f..f + k] && to[t + k..] == old(to[t + k..])
  {
    var i := 0;
    while i < k
      invariant 0 <= i <= k
      invariant to[..t] == old(to[..t]) && to[t..t + i] == from[f..f + i] && to[t + i..] == old(to[t + i..])
    {
      to[t + i] := from[f + i];
      i := i + 1;
    }
  }

  /** A round's output fits between position `t` and `toEnd`. */
  predicate RoundFits(cs: Charset, style: Style, t: nat, toEnd: nat, rest: Str)
    requires rest != []
  {
    t + |EscapeUnit(cs, style, rest)| <= toEnd
  }

  /**
   The buffer that held `before` now holds, as a C string, the escaped form of the text up to the
   place where the room ends, and is unchanged after it.
   */
  ghost predicate Filled(cs: Charset, style: Style, toLength: nat, from: Str, before: Str, after: Str) {
    exists n: nat ::
      && StopsAt(cs, style, from, Room(toLength, from), n)
      && |after| == |before|
      && HoldsCString(after, Escape(cs, style, from[..n]))
      && after[|Escape(cs, style, from[..n])| + 1..] == before[|Escape(cs, style, from[..n])| + 1..]
  }

  /** What one round adds, and that the buffer has room for it if it fits. */
  lemma RoundReady(cs: Charset, style: Style, toLength: nat, from: Str, f: nat, t: nat, size: nat)
    requires f < |from| && IsBoundary(cs, from, f) && t == |Escape(cs, style, from[..f])|
    requires if toLength == 0 then |Escape(cs, style, from)| < size else toLength <= size
    ensures var out, next := EscapeUnit(cs, style, from[f..]), f + Unit(cs, from[f..]);
      && next <= |from| && IsBoundary(cs, from, next)
      && Escape(cs, style, from[..next]) == Escape(cs, style, from[..f]) + out
      && (t + |out| <= Room(toLength, from) ==> t + |out| < size)
  {
    hide IsMbChar, Unit, EscapeUnit, IsBoundary, Escape;
    EscapeStep(cs, style, from, f);
    Fits(cs, style, from, f + Unit(cs, from[f..]));
  }

  /** What the end of the loop amounts to, with the read cursor at `f` and the write cursor at `t`. */
  lemma Ended(cs: Charset, style: Style, toLength: nat, from: Str, before: Str, after: Str, f: nat, t: nat)
    requires f <= |from| && IsBoundary(cs, from, f) && t <= Room(toLength, from)
    requires f < |from| ==> !RoundFits(cs, style, t, Room(toLength, from), from[f..])
    requires t < |after| == |before| && after[..t] == Escape(cs, style, from[..f])
    requires after[t] == NUL && after[t + 1..] == before[t + 1..]
    ensures Filled(cs, style, toLength, from, before, after)
    ensures var length := |Escape(cs, style, from)|;
      (if f < |from| then -1 else t) == if toLength == 0 || length < toLength then length else -1
  {
    hide Escape, IsBoundary, IsMbChar, EscapeUnit;
    var text := Escape(cs, style, from[..f]);
    assert |text| == t;
    assert StopsAt(cs, style, from, Room(toLength, from), f);
    StopsAtEnd(cs, style, from, Room(toLength, from), f);
    assert f == |from| ==> from[..f] == from;
    assert HoldsCString(after, text) && after[|text| + 1..] == before[|text| + 1..];
  }

  /** With no length given nothing is ever cut: the result is the escaped text, all of it. */
  lemma NoLengthNoOverflow(cs: Charset, style: Style, from: Str, before: Str, after: Str)
    requires Filled(cs, style, 0, from, before, after)
    ensures HoldsCString(after, Escape(cs, style, from))
  {
    hide IsMbChar, Unit, EscapeUnit, IsBoundary;
    var n: nat :|
      && StopsAt(cs, style, from, Room(0, from), n)
      && HoldsCString(after, Escape(cs, style, from[..n]));
    StopsAtEnd(cs, style, from, Room(0, from), n);
    assert from[..n] == from;
  }

  /** Writing positions `start` to `t` of a buffer whose rest was untouched appends to its first part. */
  lemma Extend(before: Str, mid: Str, after: Str, start: nat, t: nat)
    requires start <= t <= |before| == |mid| == |after|
    requires mid[start..] == before[start..]
    requires after[..start] == mid[..start] && after[t..] == mid[t..]
    ensures after[..t] == mid[..start] + after[start..t] && after[t..] == before[t..]
  {
    assert mid[t..] == mid[start..][t - start..];
    assert before[t..] == before[start..][t - start..];
  }

  /**
   One round of the loop of `escape_string_for_mysql`, from cursor `f` of the text and cursor `t`
   of the buffer.  When the round's output does not fit before `toEnd`, nothing is written.
   */
  method StringRound(cs: Charset, to: array<byte>, t: nat, toEnd: nat, from: Str, f: nat)
    returns (overflow: bool, t': nat, f': nat)
    requires f < |from|
    requires t <= to.Length
    requires RoundFits(cs, Backslashes, t, toEnd, from[f..]) ==>
               t + |EscapeUnit(cs, Backslashes, from[f..])| <= to.Length
    modifies to
    ensures overflow <==> !RoundFits(cs, Backslashes, t, toEnd, from[f..])
    ensures overflow ==> t' == t && f' == f && to[..] == old(to[..])
    ensures !overflow ==>
              && t' == t + |EscapeUnit(cs, Backslashes, from[f..])| <= to.Length
              && f' == f + Unit(cs, from[f..])
              && to[..t] == old(to[..t])
              && to[t..t'] == EscapeUnit(cs, Backslashes, from[f..])
              && to[t'..] == old(to[t'..])
  {
    hide IsMbChar, MbCharLen, EscapeByte;
    var rest := from[f..];
    var tmpLength := IsMbChar(cs, rest);
    if tmpLength > 0 {
      if t + tmpLength > toEnd {
        return true, t, f;
      }
      assert rest[..tmpLength] == from[f..f + tmpLength];
      CopyBytes(to, t, from, f, tmpLength);
      return false, t + tmpLength, f + tmpLength;
    }
    var escape: byte := if MbCharLen(cs, from[f]) > 1 then from[f] else EscapeByte(from[f]);
    if escape != 0 {
      if t + 2 > toEnd {
        return true, t, f;
      }
      to[t] := BACKSLASH;
      to[t + 1] := escape;
      return false, t + 2, f + 1;
    }
    if t + 1 > toEnd {
      return true, t, f;
    }
    to[t] := from[f];
    return false, t + 1, f + 1;
  }

  /**
   Escapes `from` into the buffer `to`.  A caller that passes 0 for `toLength` promises the
   buffer is large enough.  The result is the number of bytes written before the terminator, or
   -1 when the text did not fit; then the buffer holds the longest part of the text that does.
   */
  method EscapeStringForMysql(cs: Charset, to: array<byte>, toLength: nat, from: Str) returns (r: int)
    requires if toLength == 0 then |Escape(cs, Backslashes, from)| < to.Length else toLength <= to.Length
    modifies to
    ensures var length := |Escape(cs, Backslashes, from)|;
            r == if toLength == 0 || length < toLength then length else -1
    ensures Filled(cs, Backslashes, toLength, from, old(to[..]), to[..])
  {
    hide IsMbChar, Unit, EscapeUnit, IsBoundary, Escape, HoldsCString, Filled;
    var f, t := 0, 0;
    var toEnd := if toLength != 0 then toLength - 1 else 2 * |from|;
    var overflow := false;
    ghost var before := to[..];
    Start(cs, Backslashes, from);
    assert from[..0] == [];
    while f < |from|
      invariant 0 <= f <= |from| && IsBoundary(cs, from, f)
      invariant !overflow && t == |Escape(cs, Backslashes, from[..f])| <= toEnd && t < to.Length
      invariant to[..t] == Escape(cs, Backslashes, from[..f]) && to[t..] == before[t..]
    {
      ghost var start, mid := t, to[..];
      RoundReady(cs, Backslashes, toLength, from, f, t, to.Length);
      overflow, t, f := StringRound(cs, to, t, toEnd, from, f);
      if overflow {
        break;
      }
      Extend(before, mid, to[..], start, t);
    }
    to[t] := NUL;
    Ended(cs, Backslashes, toLength, from, before, to[..], f, t);
    r := if overflow then -1 else t;
  }

  /**
   One round of the loop of `escape_quotes_for_mysql`, from cursor `f` of the text and cursor `t`
   of the buffer.  When the round's output does not fit before `toEnd`, nothing is written.
   */
  method QuotesRound(cs: Charset, to: array<byte>, t: nat, toEnd: nat, from: Str, f: nat, quote: byte)
    returns (overflow: bool, t': nat, f': nat)
    requires f < |from|
    requires t <= to.Length
    requires RoundFits(cs, Doubles(quote), t, toEnd, from[f..]) ==>
               t + |EscapeUnit(cs, Doubles(quote), from[f..])| <= to.Length
    modifies to
    ensures overflow <==> !RoundFits(cs, Doubles(quote), t, toEnd, from[f..])
    ensures overflow ==> t' == t && f' == f && to[..] == old(to[..])
    ensures !overflow ==>
              && t' == t + |EscapeUnit(cs, Doubles(quote), from[f..])| <= to.Length
              && f' == f + Unit(cs, from[f..])
              && to[..t] == old(to[..t])
              && to[t..t'] == EscapeUnit(cs, Doubles(quote), from[f..])
              && to[t'..] == old(to[t'..])
  {
    hide IsMbChar;
    var rest := from[f..];
    var tmpLength := IsMbChar(cs, rest);
    if tmpLength > 0 {
      if t + tmpLength > toEnd {
        return true, t, f;
      }
      assert rest[..tmpLength] == from[f..f + tmpLength];
      CopyBytes(to, t, from, f, tmpLength);
      return false, t + tmpLength, f + tmpLength;
    }
    if from[f] == quote {
      if t + 2 > toEnd {
        return true, t, f;
      }
      to[t] := quote;
      to[t + 1] := quote;
      return false, t + 2, f + 1;
    }
    if t + 1 > toEnd {
      return true, t, f;
    }
    to[t] := from[f];
    return false, t + 1, f + 1;
  }

  /** The same for an identifier, whose quotes are doubled. */
  method EscapeQuotesForMysql(cs: Charset, to: array<byte>, toLength: nat, from: Str, quote: byte) returns (r: int)
    requires if toLength == 0 then |Escape(cs, Doubles(quote), from)| < to.Length else toLength <= to.Length
    modifies to
    ensures var length := |Escape(cs, Doubles(quote), from)|;
            r == if toLength == 0 || length < toLength then length else -1
    ensures Filled(cs, Doubles(quote), toLength, from, old(to[..]), to[..])
  {
    hide IsMbChar, Unit, EscapeUnit, IsBoundary, Escape, HoldsCString, Filled;
    var f, t := 0, 0;
    var toEnd := if toLength != 0 then toLength - 1 else 2 * |from|;
    var overflow := false;
    ghost var before := to[..];
    Start(cs, Doubles(quote), from);
    assert from[..0] == [];
    while f < |from|
      invariant 0 <= f <= |from| && IsBoundary(cs, from, f)
      invariant !overflow && t == |Escape(cs, Doubles(quote), from[..f])| <= toEnd && t < to.Length
      invariant to[..t] == Escape(cs, Doubles(quote), from[..f]) && to[t..] == before[t..]
    {
      ghost var start, mid := t, to[..];
      RoundReady(cs, Doubles(quote), toLength, from, f, t, to.Length);
      overflow, t, f := QuotesRound(cs, to, t, toEnd, from, f, quote);
      if overflow {
        break;
      }
      Extend(before, mid, to[..], start, t);
    }
    to[t] := NUL;
    Ended(cs, Doubles(quote), toLength, from, before, to[..], f, t);
    r := if overflow then -1 else t;
  }

  /** The style that a quote asks for. */
  function FieldStyle(quote: byte): Style {
    if quote == BACKTICK then Doubles(BACKTICK) else Backslashes
  }

  /** `escape_field_quote`: chooses the escaper by the quote, with a buffer the caller vouches for. */
  method EscapeFieldQuote(cs: Charset, from: Str, quote: byte, to: array<byte>) returns (r: int)
    requires |Escape(cs, FieldStyle(quote), from)| < to.Length
    modifies to
    ensures var text := Escape(cs, if quote == 0x60 then Doubles(0x60) else Backslashes, from);
            r == |text| && to[..|text| + 1] == text + [0x00]
  {
    hide Escape;
    ghost var before := to[..];
    if quote == BACKTICK {
      r := EscapeQuotesForMysql(cs, to, 0, from, quote);
    } else {
      r := EscapeStringForMysql(cs, to, 0, from);
    }
    NoLengthNoOverflow(cs, FieldStyle(quote), from, before, to[..]);
  }

  // ---------------------------------------------------------------------------------------
  // The wrapper
  // ---------------------------------------------------------------------------------------

  /** The bytes of a buffer up to its first zero byte: what a C string pointer denotes. */
  function CString(buffer: Str): (s: Str) {
    if buffer == [] || buffer[0] == NUL then [] else [buffer[0]] + CString(buffer[1..])
  }

  /** Text without a zero byte is recovered from the buffer that holds it. */
  lemma {:induction false} CStringHolds(buffer: Str, text: Str)
    requires HoldsCString(buffer, text) && NUL !in text
    ensures CString(buffer) == text
  {
    if text == [] {
    } else {
      assert text[0] == buffer[..|text|][0] == buffer[0];
      assert buffer[1..][..|text| - 1] == text[1..];
      CStringHolds(buffer[1..], text[1..]);
    }
  }

  /** The buffer the wrapper escapes into: 1024 bytes on the stack, or one and a half times the text. */
  function Capacity(field: Str): nat {
    if |field| > 768 then |field| * 3 / 2 else 1024
  }

  /** The bytes of the text, one more for every escaped one, and the terminator fit the wrapper's buffer. */
  predicate FitsBuffer(cs: Charset, field: Str) {
    |field| + EscapedBytes(cs, Backslashes, field) < Capacity(field)
  }

  /** That is when the escaped text is shorter than 1024, or than half as long again as a text longer than 768. */
  lemma FitsExact(cs: Charset, field: Str)
    ensures FitsBuffer(cs, field)
            <==> |Escape(cs, Backslashes, field)| < if |field| <= 768 then 1024 else |field| + |field| / 2
    ensures FitsBuffer(cs, field) <==> |Escape(cs, Backslashes, field)| < Capacity(field)
  {
    EscapeLength(cs, Backslashes, field);
  }

  lemma {:induction false} QuotesDouble(cs: Charset, n: nat)
    ensures |Escape(cs, Backslashes, Splitting.Repeat(QUOTE, n))| == 2 * n
  {
    if n == 0 {
    } else {
      var s := Splitting.Repeat(QUOTE, n);
      assert IsMbChar(cs, s) == 0;
      assert s[1..] == Splitting.Repeat(QUOTE, n - 1);
      QuotesDouble(cs, n - 1);
    }
  }

  /** Every text of `n` bytes fits exactly when `n` is at most 511. */
  lemma AlwaysFits(cs: Charset, n: nat)
    ensures (forall field: Str | |field| == n :: FitsBuffer(cs, field)) <==> n <= 511
  {
    hide FitsBuffer;
    if n <= 511 {
      forall field: Str | |field| == n
        ensures FitsBuffer(cs, field)
      {
        FitsExact(cs, field);
      }
    } else {
      QuotesDouble(cs, n);
      FitsExact(cs, Splitting.Repeat(QUOTE, n));
      assert !FitsBuffer(cs, Splitting.Repeat(QUOTE, n));
    }
  }

  /** `escape_field` on strings: escapes into a buffer of its own and copies the C string out of it. */
  method EscapeField(cs: Charset, field: Str) returns (ok: bool, out: Str)
    requires FitsBuffer(cs, field)
    ensures ok && out == Escape(cs, Backslashes, field)
  {
    FitsExact(cs, field);
    var p := new byte[Capacity(field)](_ => NUL);
    ghost var before := p[..];
    var _ := EscapeStringForMysql(cs, p, 0, field);
    NoLengthNoOverflow(cs, Backslashes, field, before, p[..]);
    NoZeroByte(cs, field);
    CStringHolds(p[..], Escape(cs, Backslashes, field));
    return true, CString(p[..]);
  }
}
