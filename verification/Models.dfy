/**
 The reflected model tree of model.h as a value: plain values, lists, and objects with named
 members.
 */
module Models {
  import opened Bytes
  import opened Decimal
  import opened Options

  type int16 = i: int | -0x8000 <= i < 0x8000
  type int32 = i: int | -0x8000_0000 <= i < 0x8000_0000
  type int64 = i: int | -0x8000_0000_0000_0000 <= i < 0x8000_0000_0000_0000
  type uint16 = i: int | 0 <= i < 0x1_0000
  type uint32 = i: int | 0 <= i < 0x1_0000_0000
  type uint64 = i: int | 0 <= i < 0x1_0000_0000_0000_0000

  /** A byte that the text of a number is made of: a digit, a sign, a point or a letter. */
  predicate IsNumeralByte(c: byte) {
    IsDigit(c) || c == MINUS || c == DOT || 0x61 <= c <= 0x7A
  }

  /** The text `std::to_string` gives for a floating-point number. */
  type FloatText = s: Str | s != [] && forall i | 0 <= i < |s| :: IsNumeralByte(s[i]) witness [ZERO]

  datatype Value =
    | Char(c: byte)
    | Int16(i16: int16)
    | Int(i32: int32)
    | Int64(i64: int64)
    | UInt16(u16: uint16)
    | UInt32(u32: uint32)
    | UInt64(u64: uint64)
    | Bool(b: bool)
    | Float(f: FloatText)
    | Double(d: FloatText)
    | String(s: Str)

  /** `Plain::str`. */
  function Text(v: Value): Str {
    match v
    case Char(c) => [c]
    case Int16(i) => OfInt(i)
    case Int(i) => OfInt(i)
    case Int64(i) => OfInt(i)
    case UInt16(i) => OfInt(i)
    case UInt32(i) => OfInt(i)
    case UInt64(i) => OfInt(i)
    case Bool(b) => if b then [ZERO + 1] else [ZERO]
    case Float(t) => t
    case Double(t) => t
    case String(s) => s
  }

  /** The two values are of one C++ type. */
  predicate SameKind(v: Value, w: Value) {
    match v
    case Char(_) => w.Char?
    case Int16(_) => w.Int16?
    case Int(_) => w.Int?
    case Int64(_) => w.Int64?
    case UInt16(_) => w.UInt16?
    case UInt32(_) => w.UInt32?
    case UInt64(_) => w.UInt64?
    case Bool(_) => w.Bool?
    case Float(_) => w.Float?
    case Double(_) => w.Double?
    case String(_) => w.String?
  }

  /** Characters and strings are quoted and escaped in a statement; numbers are not. */
  predicate NeedsQuote(v: Value) {
    v.Char? || v.String?
  }

  /** The text of a number is never empty and holds nothing but numeral bytes. */
  lemma NumberText(v: Value)
    requires !NeedsQuote(v)
    ensures Text(v) != [] && forall i | 0 <= i < |Text(v)| :: IsNumeralByte(Text(v)[i])
  {
  }

  /** The text of a number: a minus sign if it is negative, and the numeral of its amount. */
  predicate SpellsInt(s: Str, n: int) {
    if n < 0 then s != [] && s[0] == 0x2D && IsNumeral(s[1..]) && PlaceValue(s[1..]) == -n
    else IsNumeral(s) && PlaceValue(s) == n
  }

  /** The text of every value, type by type. */
  lemma TextExact(v: Value)
    ensures match v
      case Char(c) => Text(v) == [c]
      case Int16(i) => SpellsInt(Text(v), i)
      case Int(i) => SpellsInt(Text(v), i)
      case Int64(i) => SpellsInt(Text(v), i)
      case UInt16(i) => SpellsInt(Text(v), i)
      case UInt32(i) => SpellsInt(Text(v), i)
      case UInt64(i) => SpellsInt(Text(v), i)
      case Bool(b) => Text(v) == if b then [0x31] else [0x30]
      case Float(t) => Text(v) == t
      case Double(t) => Text(v) == t
      case String(s) => Text(v) == s
  {
    hide IsNumeral, PlaceValue;
    match v
    case Int16(i) => IntSpelled(i);
    case Int(i) => IntSpelled(i);
    case Int64(i) => IntSpelled(i);
    case UInt16(i) => IntSpelled(i);
    case UInt32(i) => IntSpelled(i);
    case UInt64(i) => IntSpelled(i);
    case _ =>
  }

  lemma IntSpelled(n: int)
    ensures SpellsInt(OfInt(n), n)
  {
    if n < 0 {
      OfNatIsNumeral(-n);
      assert OfInt(n)[1..] == OfNat(-n);
    } else {
      OfNatIsNumeral(n);
    }
  }

  /** `Null` is a null pointer; `Void` is a model of no type. */
  datatype Model =
    | Null
    | Void
    | Plain(value: Value)
    | List(items: seq<Model>)
    | Object(plains: map<Str, Value>, lists: map<Str, ListMember>, objects: map<Str, Model>)

  /** A list member of an object. */
  datatype ListMember = ListMember(items: seq<Model>)

  /** The member of an object, looked up among plain members, then lists, then objects. */
  function Member(m: Model, key: Str): Option<Model>
    requires m.Object?
  {
    if key in m.plains then Some(Plain(m.plains[key]))
    else if key in m.lists then Some(List(m.lists[key].items))
    else if key in m.objects then Some(m.objects[key])
    else None
  }

  /** `List::at`. */
  function At(items: seq<Model>, i: nat): Model {
    if i < |items| then items[i] else Null
  }
}
