/**
 The two character sets the escaper knows, and its byte classifiers.
 */
module Charset {
  import opened Bytes

  datatype Charset = GBK | UTF8

  predicate IsGbkHead(c: byte) {
    0x81 <= c <= 0xFE
  }

  predicate IsGbkTail(c: byte) {
    0x40 <= c <= 0x7E || 0x80 <= c <= 0xFE
  }

  /** The exclusive or of a byte with 0x80: its top bit flipped. */
  function FlipTopBit(c: byte): byte {
    if c < 0x80 then c + 0x80 else c - 0x80
  }

  predicate IsContinuationByte(c: byte) {
    FlipTopBit(c) < 0x40
  }

  const ILSEQ := 0
  const TOOSMALL := -101
  const TOOSMALL2 := -102
  const TOOSMALL3 := -103

  function ValidMbCharLenUtf8mb3(s: Str): int
    requires s != []
  {
    var c := s[0];
    if c < 0x80 then 1
    else if c < 0xC2 then ILSEQ
    else if c < 0xE0 then
      if |s| < 2 then TOOSMALL2
      else if !IsContinuationByte(s[1]) then ILSEQ
      else 2
    else if |s| < 3 then TOOSMALL3
    else if !(IsContinuationByte(s[1]) && IsContinuationByte(s[2]) && (c >= 0xE1 || s[1] >= 0xA0)) then ILSEQ
    else 3
  }

  function ValidMbCharLenUtf8(s: Str): int {
    if s == [] then TOOSMALL
    else if s[0] < 0xF0 then ValidMbCharLenUtf8mb3(s)
    else ILSEQ
  }

  /** The length of the multi-byte character that `s` starts with, or 0 when it starts with none. */
  function IsMbChar(cs: Charset, s: Str): (n: nat)
    requires s != []
    ensures n <= |s| && n <= 3 && n != 1
  {
    match cs
    case GBK => if IsGbkHead(s[0]) && |s| > 1 && IsGbkTail(s[1]) then 2 else 0
    case UTF8 => var res := ValidMbCharLenUtf8(s); if res > 1 then res else 0
  }

  /** The length a character starting with byte `c` appears to have; 0 for an illegal head. */
  function MbCharLen(cs: Charset, c: byte): nat {
    match cs
    case GBK => if IsGbkHead(c) then 2 else 1
    case UTF8 =>
      if c < 0x80 then 1
      else if c < 0xC2 then 0
      else if c < 0xE0 then 2
      else if c < 0xF0 then 3
      else 0
  }

  // ---------------------------------------------------------------------------------------
  // An independent definition of what a multi-byte character is.
  // ---------------------------------------------------------------------------------------

  /** The encoding of a code point from 0x80 to 0xFFFF in two or three bytes (section 3 of RFC 3629). */
  function EncodeUtf8(cp: int): (s: Str)
    requires 0x80 <= cp <= 0xFFFF
  {
    if cp < 0x800 then [0xC0 + cp / 64, 0x80 + cp % 64]
    else [0xE0 + cp / 4096, 0x80 + cp / 64 % 64, 0x80 + cp % 64]
  }

  /**
   `m` is one multi-byte character of the character set: in GBK two bytes, the second of which may
   be an ASCII letter, a backslash or a backtick.
   */
  ghost predicate IsCharacter(cs: Charset, m: Str) {
    match cs
    case GBK => |m| == 2 && 0x81 <= m[0] <= 0xFE && (0x40 <= m[1] <= 0x7E || 0x80 <= m[1] <= 0xFE)
    case UTF8 => exists cp :: 0x80 <= cp <= 0xFFFF && m == EncodeUtf8(cp)
  }

  /** The code point a two- or three-byte sequence stands for. */
  function CodePoint(m: Str): int
    requires |m| == 2 || |m| == 3
  {
    if |m| == 2 then (m[0] as int - 0xC0) * 64 + (m[1] as int - 0x80)
    else (m[0] as int - 0xE0) * 4096 + (m[1] as int - 0x80) * 64 + (m[2] as int - 0x80)
  }

  /** The classifier finds a character exactly when the string starts with one, and finds its length. */
  lemma IsMbCharExact(cs: Charset, s: Str, k: nat)
    requires s != [] && 0 < k <= |s|
    ensures IsMbChar(cs, s) == k <==> IsCharacter(cs, s[..k])
  {
    hide EncodeUtf8, CodePoint;
    match cs
    case GBK =>
      if IsMbChar(cs, s) == k {
        assert s[..2] == [s[0], s[1]];
      }
    case UTF8 =>
      if IsMbChar(cs, s) == k {
        ClassifiedDecodes(s, k);
      }
      if IsCharacter(cs, s[..k]) {
        var cp :| 0x80 <= cp <= 0xFFFF && s[..k] == EncodeUtf8(cp);
        EncodedIsClassified(s, k, cp);
      }
  }

  lemma EncodedIsClassified(s: Str, k: nat, cp: int)
    requires 0 < k <= |s| && 0x80 <= cp <= 0xFFFF && s[..k] == EncodeUtf8(cp)
    ensures IsMbChar(UTF8, s) == k
  {
    if cp < 0x800 {
      assert s[0] == s[..k][0] == 0xC0 + cp / 64 && s[1] == s[..k][1] == 0x80 + cp % 64;
    } else {
      assert s[0] == s[..k][0] == 0xE0 + cp / 4096;
      assert s[1] == s[..k][1] == 0x80 + cp / 64 % 64 && s[2] == s[..k][2] == 0x80 + cp % 64;
    }
  }

  lemma ClassifiedDecodes(s: Str, k: nat)
    requires s != [] && 0 < k <= |s| && IsMbChar(UTF8, s) == k
    ensures 0x80 <= CodePoint(s[..k]) <= 0xFFFF
    ensures s[..k] == EncodeUtf8(CodePoint(s[..k]))
  {
  }

  /** Only a byte that appears to begin a multi-byte character begins one. */
  lemma LeadByte(cs: Charset, s: Str)
    requires s != []
    ensures IsMbChar(cs, s) > 0 ==> MbCharLen(cs, s[0]) == IsMbChar(cs, s)
    ensures MbCharLen(cs, s[0]) > 1 ==> s[0] > 0x80
  {
  }

  /**
   The length guessed from one byte is that of the characters which begin with it: more than 1
   exactly when there are any, and 1 exactly for a byte that is a character by itself.
   */
  lemma LeadExact(cs: Charset, c: byte, k: nat)
    requires k > 1
    ensures MbCharLen(cs, c) == k <==> exists m :: IsCharacter(cs, m) && |m| == k && m[0] == c
    ensures MbCharLen(cs, c) == 1 <==> if cs == GBK then c < 0x81 || c == 0xFF else c < 0x80
  {
    if MbCharLen(cs, c) == k {
      match cs
      case GBK =>
        assert IsCharacter(GBK, [c, 0x40]);
      case UTF8 =>
        var cp := if k == 2 then (c - 0xC0) * 64 else if c == 0xE0 then 0x800 else (c - 0xE0) * 4096;
        LeadOf(cp, c);
        assert IsCharacter(UTF8, EncodeUtf8(cp));
    }
    if m :| IsCharacter(cs, m) && |m| == k && m[0] == c {
      IsMbCharExact(cs, m, k);
      assert m[..k] == m;
      LeadByte(cs, m);
    }
  }

  lemma LeadOf(cp: int, c: byte)
    requires 0x80 <= cp <= 0xFFFF
    requires if cp < 0x800 then cp == (c - 0xC0) * 64 else c == 0xE0 + cp / 4096
    ensures EncodeUtf8(cp)[0] == c && |EncodeUtf8(cp)| == if cp < 0x800 then 2 else 3
  {
  }

  /** What follows a multi-byte character does not change it. */
  lemma MbCharPrefix(cs: Charset, s: Str, t: Str)
    requires s != []
    ensures IsMbChar(cs, s) > 0 ==> IsMbChar(cs, s[..IsMbChar(cs, s)] + t) == IsMbChar(cs, s)
  {
  }

  /** Cutting a string short never lengthens or creates its first character. */
  lemma MbCharCut(cs: Charset, s: Str, n: nat)
    requires s != [] && 0 < n <= |s|
    ensures IsMbChar(cs, s[..n]) == if IsMbChar(cs, s) <= n then IsMbChar(cs, s) else 0
  {
  }
}
