/**
 Encoding and decoding type by type and place by place, in numbers: what the casts do, which numbers
 are refused, and what becomes of items and members that the JSON value lacks.
 */
module JsonMeaning {
  import opened Bytes
  import opened JsonModels
  import opened Models
  import opened Options

  // ---------------------------------------------------------------------------------------
  // Encoding
  // ---------------------------------------------------------------------------------------

  /** A number is encoded as itself, in whatever type it is, except that a `char` counts as signed. */
  lemma EncodeValueExact(v: Value)
    requires IsExact(v)
    ensures match v
      case Char(c) => EncodeValue(v) == JInt(if c < 0x80 then c else c - 0x100)
      case Int16(i) => EncodeValue(v) == JInt(i)
      case Int(i) => EncodeValue(v) == JInt(i)
      case Int64(i) => EncodeValue(v) == JInt(i)
      case UInt16(i) => EncodeValue(v) == JInt(i)
      case UInt32(i) => EncodeValue(v) == JInt(i)
      case UInt64(i) => EncodeValue(v) == JInt(i)
      case Bool(b) => EncodeValue(v) == JBool(b)
      case String(s) => EncodeValue(v) == JString(s)
  {
  }

  /** A list becomes an array of its items in order, an object one of its members by name. */
  lemma EncodeExact(m: Model)
    requires IsPlainData(m)
    ensures m.Null? || m.Void? ==> Encode(m) == JNull
    ensures m.Plain? ==> Encode(m) == EncodeValue(m.value)
    ensures m.List? ==>
      && ArePlainData(m.items) && Encode(m).JArray? && |Encode(m).items| == |m.items|
      && forall i | 0 <= i < |m.items| :: Encode(m).items[i] == Encode(m.items[i])
    ensures m.Object? ==>
      && Encode(m).JObject? && Encode(m).members.Keys == m.plains.Keys + m.lists.Keys + m.objects.Keys
      && (forall k | k in m.plains :: Encode(m).members[k] == EncodeValue(m.plains[k]))
      && (forall k | k in m.lists :: Encode(m).members[k] == Encode(List(m.lists[k].items)))
      && forall k | k in m.objects :: Encode(m).members[k] == Encode(m.objects[k])
  {
    hide IsExact, EncodeValue, EncodeItems;
  }

  // ---------------------------------------------------------------------------------------
  // Decoding numbers
  // ---------------------------------------------------------------------------------------

  /** A JSON number within bounds. */
  predicate IsWithin(j: Json, low: int, high: int) {
    (j.JInt? && low <= j.n <= high) || (j.JReal? && low as real <= j.r <= high as real)
  }

  /** The whole number that a JSON number is taken for: a real one loses what is behind the point. */
  predicate IsWhole(j: Json, n: int) {
    match j
    case JInt(i) => n == i
    case JReal(r) =>
      if r >= 0.0 then n as real <= r < n as real + 1.0 else n as real - 1.0 < r <= n as real
    case _ => false
  }

  /** The number a value holds; a byte counts from 0 to 255. */
  function Amount(v: Value): int
    requires IsExact(v) && !v.Bool? && !v.String?
  {
    match v
    case Char(c) => c
    case Int16(i) => i
    case Int(i) => i
    case Int64(i) => i
    case UInt16(i) => i
    case UInt32(i) => i
    case UInt64(i) => i
  }

  /** The bounds within which the library reads a number for the type, and how many values the type has. */
  function Bounds(v: Value): (int, int, nat)
    requires IsExact(v) && !v.Bool? && !v.String?
  {
    match v
    case Char(_) => (-0x8000_0000, 0x7FFF_FFFF, 0x100)
    case Int16(_) => (-0x8000_0000, 0x7FFF_FFFF, 0x1_0000)
    case Int(_) => (-0x8000_0000, 0x7FFF_FFFF, 0x1_0000_0000)
    case Int64(_) => (-0x8000_0000_0000_0000, 0x7FFF_FFFF_FFFF_FFFF, 0x1_0000_0000_0000_0000)
    case UInt16(_) => (0, 0xFFFF_FFFF, 0x1_0000)
    case UInt32(_) => (0, 0xFFFF_FFFF, 0x1_0000_0000)
    case UInt64(_) => (0, 0xFFFF_FFFF_FFFF_FFFF, 0x1_0000_0000_0000_0000)
  }

  /** The two numbers are the same to a type with `span` values. */
  predicate IsSameIn(a: int, b: int, span: nat)
    requires span > 0
  {
    (a - b) % span == 0
  }

  /**
   Decoding a value.  A bool takes bools and a string strings; a number takes numbers within the
   bounds of the library, whole and wrapped around in its type, and throws outside; anything else
   changes nothing.
   */
  lemma DecodeValueExact(j: Json, v: Value)
    requires IsExact(v)
    ensures v.Bool? ==> DecodeValue(j, v) == Some(if j.JBool? then Bool(j.b) else v)
    ensures v.String? ==> DecodeValue(j, v) == Some(if j.JString? then String(j.s) else v)
    ensures !v.Bool? && !v.String? ==>
      var (low, high, span) := Bounds(v);
      if !j.JInt? && !j.JReal? then DecodeValue(j, v) == Some(v)
      else if !IsWithin(j, low, high) then DecodeValue(j, v) == None
      else
        exists n, w ::
          DecodeValue(j, v) == Some(w) && IsExact(w) && SameKind(w, v) && IsWhole(j, n) && IsSameIn(Amount(w), n, span)
  {
    if !v.Bool? && !v.String? && (j.JInt? || j.JReal?) {
      var (low, high, _) := Bounds(v);
      if IsWithin(j, low, high) {
        WholeExact(j);
        DecodedNumber(j, v);
      } else {
        RefusedNumber(j, v);
      }
    }
    hide DecodeValue, IsWhole, IsWithin, IsSameIn, Bounds, SameKind, Amount, Truncate;
  }

  function Whole(j: Json): int
    requires j.JInt? || j.JReal?
  {
    if j.JInt? then j.n else Truncate(j.r)
  }

  lemma WholeExact(j: Json)
    requires j.JInt? || j.JReal?
    ensures IsWhole(j, Whole(j))
  {
  }

  lemma RefusedNumber(j: Json, v: Value)
    requires IsExact(v) && !v.Bool? && !v.String? && (j.JInt? || j.JReal?)
    requires !IsWithin(j, Bounds(v).0, Bounds(v).1)
    ensures DecodeValue(j, v) == None
  {
    hide SignedCast, Truncate;
  }

  lemma WithinWhole(j: Json, low: int, high: int)
    requires IsWithin(j, low, high)
    ensures AsNumber(j, low, high) == Some(Whole(j)) && low <= Whole(j) <= high
  {
  }

  lemma DecodedNumber(j: Json, v: Value)
    requires IsExact(v) && !v.Bool? && !v.String?
    requires IsWithin(j, Bounds(v).0, Bounds(v).1)
    ensures var w := DecodeValue(j, v);
      && w.Some? && IsExact(w.value) && SameKind(w.value, v)
      && IsSameIn(Amount(w.value), Whole(j), Bounds(v).2)
  {
    var n := Whole(j);
    WithinWhole(j, Bounds(v).0, Bounds(v).1);
    match v
    case Char(_) => Wrapped(n, 0x100);
    case Int16(_) => Cast(n, 0x1_0000);
    case UInt16(_) => Wrapped(n, 0x1_0000);
    case _ =>
    hide SignedCast, Truncate, AsNumber, Whole, IsWithin;
  }

  lemma Wrapped(n: int, span: nat)
    requires span > 0
    ensures IsSameIn(n % span, n, span)
  {
    var q := n / span;
    assert n % span - n == span * -q;
    Multiple(-q, span);
  }

  lemma Cast(n: int, span: nat)
    requires span > 0
    ensures IsSameIn(SignedCast(n, span), n, span)
  {
    var q := n / span;
    assert n % span - n == span * -q;
    Multiple(-q, span);
    Multiple(-q - 1, span);
    assert span * (-q - 1) == span * -q - span;
  }

  lemma Multiple(q: int, span: nat)
    requires span > 0
    ensures span * q % span == 0
  {
    var r := span * q % span;
    var d := q - span * q / span;
    assert r == span * d;
  }

  // ---------------------------------------------------------------------------------------
  // Decoding items and members
  // ---------------------------------------------------------------------------------------

  /** What becomes of item `i`: nothing is left where the array has a null, or has ended. */
  ghost predicate IsDecodedItem(js: seq<Json>, items: seq<Model>, i: nat, result: Model)
    requires ArePlainData(items) && i < |items|
  {
    if i >= |js| || js[i] == JNull then result == Null else Decode(js[i], items[i]) == Some(result)
  }

  /**
   Decoding an array of any length into a list: as many items as before, each decoded from the
   element at its place, or deleted; it throws exactly where the decoding of an element does.
   */
  lemma DecodeItemsExact(js: seq<Json>, items: seq<Model>, result: seq<Model>)
    requires ArePlainData(items)
    ensures DecodeItems(JArray(js), items) == Some(result) <==>
      |result| == |items| && forall i | 0 <= i < |items| :: IsDecodedItem(js, items, i, result[i])
    ensures DecodeItems(JArray(js), items).None? <==>
      exists i :: 0 <= i < |items| && i < |js| && js[i] != JNull && Decode(js[i], items[i]).None?
  {
    hide Decode, IsPlainData;
    var r := DecodeItems(JArray(js), items);
    forall i | 0 <= i < |items|
      ensures DecodeItem(JsonAt(js, i), items[i]) ==
        if i >= |js| || js[i] == JNull then Some(Null) else Decode(js[i], items[i])
    {
    }
    if |result| == |items| && forall i | 0 <= i < |items| :: IsDecodedItem(js, items, i, result[i]) {
      assert forall i | 0 <= i < |items| :: DecodeItem(JsonAt(js, i), items[i]) == Some(result[i]);
      assert r.value == result;
    }
  }

  /** A JSON value of another type than the model, or null, changes nothing. */
  lemma DecodeOther(j: Json, m: Model)
    requires IsPlainData(m)
    requires j == JNull || m.Null? || m.Void? || (m.List? && !j.JArray?) || (m.Object? && !j.JObject?)
    ensures Decode(j, m) == Some(m)
  {
  }

  /** Members that the JSON object names are decoded from it, a null leaving them as they are. */
  lemma NamedMembers(js: map<Str, Json>, m: Model)
    requires m.Object? && IsPlainData(m)
    ensures Decode(JObject(js), m).None? <==>
      || (exists k :: k in m.plains && k in js && js[k] != JNull && DecodeValue(js[k], m.plains[k]).None?)
      || (exists k :: k in m.lists && k in js && Decode(js[k], List(m.lists[k].items)).None?)
      || (exists k :: k in m.objects && k in js && Decode(js[k], m.objects[k]).None?)
    ensures Decode(JObject(js), m).Some? ==>
      var r := Decode(JObject(js), m).value;
      && r.Object? && r.plains.Keys == m.plains.Keys && r.lists.Keys == m.lists.Keys && r.objects.Keys == m.objects.Keys
      && (forall k | k in m.plains && k in js ::
            if js[k] == JNull then r.plains[k] == m.plains[k]
            else DecodeValue(js[k], m.plains[k]) == Some(r.plains[k]))
      && (forall k | k in m.lists && k in js ::
            Decode(js[k], List(m.lists[k].items)) == Some(List(r.lists[k].items)))
      && (forall k | k in m.objects && k in js :: Decode(js[k], m.objects[k]) == Some(r.objects[k]))
  {
    ObjectParts(js, m);
    forall k | k in m.lists
      ensures var r := if k in js then DecodeItems(js[k], m.lists[k].items) else None;
        k in js ==> Decode(js[k], List(m.lists[k].items)) == if r.None? then None else Some(List(r.value))
    {
      if k in js {
        DecodeOfMember(js[k], List(m.lists[k].items));
      }
    }
    hide Decode, DecodeItems, DecodeValue, IsExact, ArePlainData;
  }
}
