/**
 Byte strings.  The source works on `std::string`, a sequence of bytes; here a byte is an
 integer from 0 to 255 and a string is a sequence of them.
 */
module Bytes {
  type byte = b: int | 0 <= b < 0x100

  type Str = seq<byte>

  const NUL: byte := 0
  const NEWLINE: byte := 0x0A
  const RETURN: byte := 0x0D
  const CTRL_Z: byte := 0x1A
  const DOUBLE_QUOTE: byte := 0x22
  const HASH: byte := 0x23
  const QUOTE: byte := 0x27
  const COMMA: byte := 0x2C
  const MINUS: byte := 0x2D
  const DOT: byte := 0x2E
  const ZERO: byte := 0x30
  const LESS: byte := 0x3C
  const GREATER: byte := 0x3E
  const OPEN_BRACKET: byte := 0x5B
  const BACKSLASH: byte := 0x5C
  const CLOSE_BRACKET: byte := 0x5D
  const BACKTICK: byte := 0x60
  const OPEN_BRACE: byte := 0x7B
  const CLOSE_BRACE: byte := 0x7D

  predicate IsAscii(s: Str) {
    forall i | 0 <= i < |s| :: s[i] < 0x80
  }
}
