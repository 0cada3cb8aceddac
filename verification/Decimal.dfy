/**
 Decimal numerals: `std::to_string` on integers and `strtoul` in base 10.
 */
module Decimal {
  import opened Bytes

  const ULONG_LIMIT := 0x1_0000_0000_0000_0000

  predicate IsDigit(c: byte) {
    ZERO <= c <= 0x39
  }

  predicate IsSpace(c: byte) {
    c == 0x20 || 0x09 <= c <= 0x0D
  }

  function OfNat(n: nat): (s: Str)
    ensures s != [] && forall i | 0 <= i < |s| :: IsDigit(s[i])
  {
    if n < 10 then [ZERO + n] else OfNat(n / 10) + [ZERO + n % 10]
  }

  function OfInt(n: int): (s: Str)
    ensures s != [] && forall i | 0 <= i < |s| :: IsDigit(s[i]) || s[i] == MINUS
  {
    if n < 0 then [MINUS] + OfNat(-n) else OfNat(n)
  }

  /** The value of the digits `s` starts with, read after digits worth `acc`. */
  function Digits(acc: nat, s: Str): nat
    decreases s
  {
    if s == [] || !IsDigit(s[0]) then acc else Digits(acc * 10 + (s[0] - ZERO), s[1..])
  }

  function SkipSpaces(s: Str): Str {
    if s != [] && IsSpace(s[0]) then SkipSpaces(s[1..]) else s
  }

  /**
   `strtoul` in base 10: leading spaces, a sign, digits.  A value out of range saturates; a minus
   sign negates in unsigned arithmetic.
   */
  function Strtoul(s: Str): (n: nat)
    ensures n < ULONG_LIMIT
  {
    var t := SkipSpaces(s);
    var signed := t != [] && (t[0] == MINUS || t[0] == 0x2B);
    var magnitude := Digits(0, if signed then t[1..] else t);
    if magnitude >= ULONG_LIMIT then ULONG_LIMIT - 1
    else if signed && t[0] == MINUS then (ULONG_LIMIT - magnitude) % ULONG_LIMIT
    else magnitude
  }

  lemma {:induction false} DigitsConcat(acc: nat, a: Str, b: Str)
    requires forall i | 0 <= i < |a| :: IsDigit(a[i])
    ensures Digits(acc, a + b) == Digits(Digits(acc, a), b)
    decreases a
  {
    if a == [] {
      assert a + b == b;
    } else {
      assert (a + b)[1..] == a[1..] + b;
      DigitsConcat(acc * 10 + (a[0] - ZERO), a[1..], b);
    }
  }

  lemma {:induction false} DigitsOfNat(n: nat)
    ensures Digits(0, OfNat(n)) == n
  {
    if n >= 10 {
      DigitsOfNat(n / 10);
      var last: Str := [ZERO + n % 10];
      DigitsConcat(0, OfNat(n / 10), last);
      assert Digits(n / 10, last) == Digits(n / 10 * 10 + n % 10, last[1..]);
    } else {
      var s: Str := [ZERO + n];
      assert Digits(0, s) == Digits(n, s[1..]);
    }
  }

  /** A printed number is read back, whatever text that is no digit follows it. */
  lemma StrtoulOfNat(n: nat, t: Str)
    requires n < ULONG_LIMIT
    requires t == [] || !IsDigit(t[0])
    ensures Strtoul(OfNat(n) + t) == n
  {
    DigitsOfNat(n);
    DigitsConcat(0, OfNat(n), t);
    assert (OfNat(n) + t)[0] == OfNat(n)[0];
  }

  // ---------------------------------------------------------------------------------------
  // What numerals mean
  // ---------------------------------------------------------------------------------------

  /** Ten digits and nothing else. */
  predicate AllDigits(s: Str) {
    forall i | 0 <= i < |s| :: 0x30 <= s[i] <= 0x39
  }

  /** The number that digits write in base 10, from the last place on. */
  function PlaceValue(s: Str): nat
    requires AllDigits(s)
  {
    if s == [] then 0 else 10 * PlaceValue(s[..|s| - 1]) + (s[|s| - 1] - 0x30)
  }

  lemma {:induction false} DigitsArePlaces(s: Str)
    requires AllDigits(s)
    ensures Digits(0, s) == PlaceValue(s)
    decreases |s|
  {
    if s == [] {
    } else {
      var init, last := s[..|s| - 1], [s[|s| - 1]];
      assert s == init + last;
      DigitsArePlaces(init);
      DigitsConcat(0, init, last);
      assert Digits(PlaceValue(init), last) == Digits(PlaceValue(init) * 10 + (last[0] - 0x30), last[1..]);
    }
  }

  /** Digits, at least one, and no needless zero in front. */
  predicate IsNumeral(s: Str) {
    s != [] && AllDigits(s) && (s[0] == 0x30 ==> |s| == 1)
  }

  /** A number is printed as the one numeral without leading zeros that stands for it. */
  lemma {:induction false} OfNatExact(n: nat, s: Str)
    ensures s == OfNat(n) <==> IsNumeral(s) && PlaceValue(s) == n
    decreases n
  {
    OfNatIsNumeral(n);
    if IsNumeral(s) && PlaceValue(s) == n {
      var init := s[..|s| - 1];
      assert s == init + [s[|s| - 1]];
      if |s| > 1 {
        PlaceValuePositive(init);
        OfNatExact(n / 10, init);
      }
    }
  }

  lemma {:induction false} PlaceValuePositive(s: Str)
    requires IsNumeral(s) && s[0] != 0x30
    ensures PlaceValue(s) > 0
    decreases |s|
  {
    if |s| > 1 {
      PlaceValuePositive(s[..|s| - 1]);
    }
  }

  lemma {:induction false} OfNatIsNumeral(n: nat)
    ensures IsNumeral(OfNat(n)) && PlaceValue(OfNat(n)) == n && (n > 0 ==> OfNat(n)[0] != 0x30)
    decreases n
  {
    if n >= 10 {
      OfNatIsNumeral(n / 10);
      var s := OfNat(n);
      assert s[..|s| - 1] == OfNat(n / 10);
    }
  }

  lemma {:induction false} SkipsSpaces(spaces: Str, t: Str)
    requires forall i | 0 <= i < |spaces| :: spaces[i] == 0x20 || 0x09 <= spaces[i] <= 0x0D
    requires t == [] || !(t[0] == 0x20 || 0x09 <= t[0] <= 0x0D)
    ensures SkipSpaces(spaces + t) == t
    decreases spaces
  {
    if spaces == [] {
      assert spaces + t == t;
    } else {
      assert (spaces + t)[1..] == spaces[1..] + t;
      SkipsSpaces(spaces[1..], t);
    }
  }

  /**
   What `strtoul` makes of spaces, a sign, digits and anything else: the number, cut off at the largest
   one of 64 bits; a minus sign counts down from 2 to the 64.
   */
  lemma StrtoulExact(spaces: Str, sign: Str, digits: Str, tail: Str)
    requires forall i | 0 <= i < |spaces| :: spaces[i] == 0x20 || 0x09 <= spaces[i] <= 0x0D
    requires sign == [] || sign == [0x2B] || sign == [0x2D]
    requires digits != [] && AllDigits(digits) && (tail == [] || !(0x30 <= tail[0] <= 0x39))
    ensures var n := PlaceValue(digits);
            Strtoul(spaces + (sign + (digits + tail)))
            == if n >= 0x1_0000_0000_0000_0000 then 0xFFFF_FFFF_FFFF_FFFF
               else if sign == [0x2D] && n > 0 then 0x1_0000_0000_0000_0000 - n
               else n
  {
    var text := digits + tail;
    var t := sign + text;
    SkipsSpaces(spaces, t);
    DigitsConcat(0, digits, tail);
    DigitsArePlaces(digits);
    assert sign != [] ==> t[1..] == text;
    assert sign == [] ==> t == text;
  }
}
