/**
 Models to JSON values and back: json_to_model.cpp between the model tree and the value tree of the
 JsonCpp library.
 */
module JsonModels {
  import opened Bytes
  import opened Models
  import opened Options

  datatype Json =
    | JNull
    | JBool(b: bool)
    | JInt(n: int)
    | JReal(r: real)
    | JString(s: Str)
    | JArray(items: seq<Json>)
    | JObject(members: map<Str, Json>)

  // ---------------------------------------------------------------------------------------
  // Encoding
  // ---------------------------------------------------------------------------------------

  /** The number that the low bits of `n` stand for as a signed type with `span` values. */
  function SignedCast(n: int, span: nat): int
    requires span > 0
  {
    if n % span < span / 2 then n % span else n % span - span
  }

  /** Floating-point values are left out. */
  predicate IsExact(v: Value) {
    !v.Float? && !v.Double?
  }

  /** `char` is signed; a uint32 is read as an int32 and then made unsigned again. */
  function EncodeValue(v: Value): Json
    requires IsExact(v)
  {
    match v
    case Char(c) => JInt(SignedCast(c, 0x100))
    case Int16(i) => JInt(i)
    case Int(i) => JInt(i)
    case Int64(i) => JInt(i)
    case UInt16(i) => JInt(i)
    case UInt32(i) => JInt(SignedCast(i, 0x1_0000_0000) % 0x1_0000_0000)
    case UInt64(i) => JInt(i)
    case Bool(b) => JBool(b)
    case String(s) => JString(s)
  }

  /** A model without floating-point values whose members have distinct names. */
  predicate IsPlainData(m: Model) {
    match m
    case Plain(v) => IsExact(v)
    case List(items) => ArePlainData(items)
    case Object(plains, lists, objects) =>
      && plains.Keys !! lists.Keys && plains.Keys !! objects.Keys && lists.Keys !! objects.Keys
      && (forall k | k in plains :: IsExact(plains[k]))
      && (forall k | k in lists :: ArePlainData(lists[k].items))
      && (forall k | k in objects :: IsPlainData(objects[k]))
    case _ => true
  }

  predicate ArePlainData(items: seq<Model>) {
    forall i | 0 <= i < |items| :: IsPlainData(items[i])
  }

  /** A member of a later kind overwrites one of the same name. */
  function Encode(m: Model): Json
    requires IsPlainData(m)
  {
    match m
    case Null => JNull
    case Void => JNull
    case Plain(v) => EncodeValue(v)
    case List(items) => JArray(EncodeItems(items))
    case Object(plains, lists, objects) =>
      JObject(map k | k in plains.Keys + lists.Keys + objects.Keys ::
        if k in objects then Encode(objects[k])
        else if k in lists then JArray(EncodeItems(lists[k].items))
        else EncodeValue(plains[k]))
  }

  function EncodeItems(items: seq<Model>): (js: seq<Json>)
    requires ArePlainData(items)
    ensures |js| == |items| && forall i | 0 <= i < |items| :: js[i] == Encode(items[i])
  {
    seq(|items|, i requires 0 <= i < |items| => Encode(items[i]))
  }

  // The members of an object, as the loops over their kinds put them into the JSON object.

  function EncodePlains(plains: map<Str, Value>, names: set<Str>): map<Str, Json>
    requires forall k | k in plains :: IsExact(plains[k])
  {
    map k | k in plains && k in names :: EncodeValue(plains[k])
  }

  function EncodeLists(lists: map<Str, ListMember>, names: set<Str>): map<Str, Json>
    requires forall k | k in lists :: ArePlainData(lists[k].items)
  {
    map k | k in lists && k in names :: JArray(EncodeItems(lists[k].items))
  }

  function EncodeObjects(objects: map<Str, Model>, names: set<Str>): map<Str, Json>
    requires forall k | k in objects :: IsPlainData(objects[k])
  {
    map k | k in objects && k in names :: Encode(objects[k])
  }

  lemma EncodeOneMore(before: map<Str, Json>, m: Model, left: set<Str>, k: Str)
    requires m.Object? && IsPlainData(m) && k in left
    ensures k in m.plains ==>
      EncodePlains(m.plains, m.plains.Keys - (left - {k}))
      == EncodePlains(m.plains, m.plains.Keys - left)[k := EncodeValue(m.plains[k])]
    ensures k in m.lists ==>
      before + EncodeLists(m.lists, m.lists.Keys - (left - {k}))
      == (before + EncodeLists(m.lists, m.lists.Keys - left))[k := JArray(EncodeItems(m.lists[k].items))]
    ensures k in m.objects ==>
      before + EncodeObjects(m.objects, m.objects.Keys - (left - {k}))
      == (before + EncodeObjects(m.objects, m.objects.Keys - left))[k := Encode(m.objects[k])]
  {
    hide Encode, EncodeItems, EncodeValue, IsExact, ArePlainData;
  }

  lemma EncodeNone(before: map<Str, Json>, m: Model)
    requires m.Object? && IsPlainData(m)
    ensures EncodePlains(m.plains, m.plains.Keys - m.plains.Keys) == map[]
    ensures before + EncodeLists(m.lists, m.lists.Keys - m.lists.Keys) == before
    ensures before + EncodeObjects(m.objects, m.objects.Keys - m.objects.Keys) == before
  {
    hide Encode, EncodeItems, EncodeValue, IsExact, ArePlainData;
  }

  lemma ObjectsAreData(m: Model)
    requires m.Object? && IsPlainData(m)
    ensures forall k | k in m.plains :: IsExact(m.plains[k])
    ensures forall k | k in m.lists :: ArePlainData(m.lists[k].items)
    ensures forall k | k in m.objects :: IsPlainData(m.objects[k])
  {
    hide IsExact, ArePlainData;
  }

  /** Encoding an object is encoding its members kind by kind. */
  lemma EncodeParts(m: Model)
    requires m.Object? && IsPlainData(m)
    ensures Encode(m) == JObject(EncodePlains(m.plains, m.plains.Keys) + EncodeLists(m.lists, m.lists.Keys)
                                 + EncodeObjects(m.objects, m.objects.Keys))
  {
    hide EncodeItems, EncodeValue, IsExact, ArePlainData;
    var js := EncodePlains(m.plains, m.plains.Keys) + EncodeLists(m.lists, m.lists.Keys)
      + EncodeObjects(m.objects, m.objects.Keys);
    assert js.Keys == m.plains.Keys + m.lists.Keys + m.objects.Keys;
    assert Encode(m).members == js;
  }

  // ---------------------------------------------------------------------------------------
  // Decoding
  // ---------------------------------------------------------------------------------------

  /** A real number cut off towards zero. */
  function Truncate(r: real): (t: int)
    ensures r >= 0.0 ==> t as real <= r < (t + 1) as real
    ensures r < 0.0 ==> (t - 1) as real < r <= t as real
  {
    if r >= 0.0 then r.Floor else -((-r).Floor)
  }

  /** `asInt` and its kin: None where the library throws, for a number outside the type. */
  function AsNumber(j: Json, low: int, high: int): Option<int> {
    match j
    case JInt(n) => if low <= n <= high then Some(n) else None
    case JReal(r) => if low as real <= r <= high as real then Some(Truncate(r)) else None
    case _ => None
  }

  function AsInt(j: Json): (n: Option<int>)
    ensures n.Some? ==> -0x8000_0000 <= n.value < 0x8000_0000
  {
    AsNumber(j, -0x8000_0000, 0x7FFF_FFFF)
  }

  function AsUInt(j: Json): (n: Option<int>)
    ensures n.Some? ==> 0 <= n.value < 0x1_0000_0000
  {
    AsNumber(j, 0, 0xFFFF_FFFF)
  }

  function AsInt64(j: Json): (n: Option<int>)
    ensures n.Some? ==> -0x8000_0000_0000_0000 <= n.value < 0x8000_0000_0000_0000
  {
    AsNumber(j, -0x8000_0000_0000_0000, 0x7FFF_FFFF_FFFF_FFFF)
  }

  function AsUInt64(j: Json): (n: Option<int>)
    ensures n.Some? ==> 0 <= n.value < 0x1_0000_0000_0000_0000
  {
    AsNumber(j, 0, 0xFFFF_FFFF_FFFF_FFFF)
  }

  /** The value after decoding; None where the library throws. A value of another JSON type changes nothing. */
  function DecodeValue(j: Json, v: Value): Option<Value>
    requires IsExact(v)
  {
    if v.Bool? then Some(if j.JBool? then Bool(j.b) else v)
    else if v.String? then Some(if j.JString? then String(j.s) else v)
    else if !j.JInt? && !j.JReal? then Some(v)
    else
      match v
      case Char(_) => (match AsInt(j) case None => None case Some(n) => Some(Char(n % 0x100)))
      case Int16(_) => (match AsInt(j) case None => None case Some(n) => Some(Int16(SignedCast(n, 0x1_0000))))
      case Int(_) => (match AsInt(j) case None => None case Some(n) => Some(Int(n)))
      case Int64(_) => (match AsInt64(j) case None => None case Some(n) => Some(Int64(n)))
      case UInt16(_) => (match AsUInt(j) case None => None case Some(n) => Some(UInt16(n % 0x1_0000)))
      case UInt32(_) => (match AsUInt(j) case None => None case Some(n) => Some(UInt32(n)))
      case UInt64(_) => (match AsUInt64(j) case None => None case Some(n) => Some(UInt64(n)))
  }

  /** An array element; null behind the end. */
  function JsonAt(items: seq<Json>, i: nat): Json {
    if i < |items| then items[i] else JNull
  }

  /** The model after decoding `j` into `m`; None where the library throws on the way. */
  function Decode(j: Json, m: Model): Option<Model>
    requires IsPlainData(m)
    decreases m, 1
  {
    if m.Null? || j.JNull? then Some(m)
    else
      match m
      case Plain(v) => (match DecodeValue(j, v) case None => None case Some(w) => Some(Plain(w)))
      case List(items) => (match DecodeItems(j, items) case None => None case Some(decoded) => Some(List(decoded)))
      case Object(plains, lists, objects) =>
        if !j.JObject? then Some(m)
        else
          var ps := DecodePlains(j.members, plains);
          var ls := DecodeLists(j.members, m);
          var os := DecodeObjects(j.members, m);
          if ps.None? || ls.None? || os.None? then None else Some(Object(ps.value, ls.value, os.value))
      case _ => Some(m)
  }

  function DecodePlain(j: Json, v: Value): Option<Value>
    requires IsExact(v)
  {
    if j.JNull? then Some(v) else DecodeValue(j, v)
  }

  /** Null in the array, or no element at all, deletes the item. */
  function DecodeItem(j: Json, m: Model): Option<Model>
    requires IsPlainData(m)
    decreases m, 2
  {
    if j.JNull? then Some(Null) else Decode(j, m)
  }

  function DecodeItems(j: Json, items: seq<Model>): (r: Option<seq<Model>>)
    requires ArePlainData(items)
    ensures j.JArray? && r.Some? ==>
      && |r.value| == |items|
      && forall i | 0 <= i < |items| :: DecodeItem(JsonAt(j.items, i), items[i]) == Some(r.value[i])
    decreases items, 0
  {
    if !j.JArray? then Some(items)
    else if exists i :: 0 <= i < |items| && DecodeItem(JsonAt(j.items, i), items[i]).None? then None
    else Some(seq(|items|, i requires 0 <= i < |items| => DecodeItem(JsonAt(j.items, i), items[i]).value))
  }

  /** The members named in the JSON object are decoded, the others stay as they are. */
  function DecodePlains(js: map<Str, Json>, plains: map<Str, Value>): Option<map<Str, Value>>
    requires forall k | k in plains :: IsExact(plains[k])
  {
    if exists k :: k in plains && k in js && DecodePlain(js[k], plains[k]).None? then None
    else Some(map k | k in plains :: if k in js then DecodePlain(js[k], plains[k]).value else plains[k])
  }

  function DecodeLists(js: map<Str, Json>, m: Model): Option<map<Str, ListMember>>
    requires m.Object? && IsPlainData(m)
    decreases m, 0
  {
    if exists k :: k in m.lists && k in js && DecodeItems(js[k], m.lists[k].items).None? then None
    else Some(map k | k in m.lists ::
      if k in js then ListMember(DecodeItems(js[k], m.lists[k].items).value) else m.lists[k])
  }

  function DecodeObjects(js: map<Str, Json>, m: Model): Option<map<Str, Model>>
    requires m.Object? && IsPlainData(m)
    decreases m, 0
  {
    if exists k :: k in m.objects && k in js && Decode(js[k], m.objects[k]).None? then None
    else Some(map k | k in m.objects :: if k in js then Decode(js[k], m.objects[k]).value else m.objects[k])
  }

  // ---------------------------------------------------------------------------------------
  // Member by member
  // ---------------------------------------------------------------------------------------

  /** Decoding never changes the kind of a value. */
  lemma DecodeKeepsKind(j: Json, v: Value)
    requires IsExact(v)
    ensures DecodePlain(j, v).Some? ==> SameKind(DecodePlain(j, v).value, v)
  {
    hide AsInt, AsUInt, AsInt64, AsUInt64, SignedCast;
  }

  /** One turn of the loop over the names in a JSON object. */
  function DecodeMember(j: Json, m: Model, k: Str): Option<Model>
    requires m.Object? && IsPlainData(m)
  {
    if k in m.plains then
      match DecodePlain(j, m.plains[k])
      case None => None
      case Some(v) => Some(m.(plains := m.plains[k := v]))
    else if k in m.lists then
      match DecodeItems(j, m.lists[k].items)
      case None => None
      case Some(items) => Some(m.(lists := m.lists[k := ListMember(items)]))
    else if k in m.objects then
      match Decode(j, m.objects[k])
      case None => None
      case Some(o) => Some(m.(objects := m.objects[k := o]))
    else Some(m)
  }

  lemma DecodeOfMember(j: Json, m: Model)
    requires IsPlainData(m)
    ensures m.Plain? ==>
      var r := DecodePlain(j, m.value);
      Decode(j, m) == if r.None? then None else Some(Plain(r.value))
    ensures m.List? ==>
      var r := DecodeItems(j, m.items);
      Decode(j, m) == if r.None? then None else Some(List(r.value))
  {
    hide IsExact, ArePlainData, DecodeValue;
  }

  lemma DecodeIntoNull(j: Json)
    ensures Decode(j, Null) == Some(Null)
  {
  }

  function Restrict(js: map<Str, Json>, names: set<Str>): map<Str, Json> {
    map k | k in js && k in names :: js[k]
  }

  lemma DecodeNothing(js: map<Str, Json>, m: Model)
    requires m.Object? && IsPlainData(m)
    ensures Decode(JObject(Restrict(js, {})), m) == Some(m)
  {
    assert Restrict(js, {}) == map[];
    assert DecodePlains(map[], m.plains).value == m.plains;
    assert DecodeLists(map[], m).value == m.lists;
    assert DecodeObjects(map[], m).value == m.objects;
  }

  /** Where decoding some of the members throws, decoding all of them does. */
  lemma DecodeRest(js: map<Str, Json>, names: set<Str>, m: Model)
    requires m.Object? && IsPlainData(m) && Decode(JObject(Restrict(js, names)), m).None?
    ensures Decode(JObject(js), m).None?
  {
    hide DecodePlain, DecodeItems, IsExact, ArePlainData;
    var some := Restrict(js, names);
    if n :| n in m.plains && n in some && DecodePlain(some[n], m.plains[n]).None? {
      assert n in js && DecodePlain(js[n], m.plains[n]).None?;
    } else if n :| n in m.lists && n in some && DecodeItems(some[n], m.lists[n].items).None? {
      assert n in js && DecodeItems(js[n], m.lists[n].items).None?;
    } else {
      var n :| n in m.objects && n in some && Decode(some[n], m.objects[n]).None?;
      assert n in js && Decode(js[n], m.objects[n]).None?;
    }
  }

  lemma PlainsOneMore(js: map<Str, Json>, names: set<Str>, k: Str, plains: map<Str, Value>)
    requires (forall n | n in plains :: IsExact(plains[n])) && k in js && k !in names
    ensures var before := DecodePlains(Restrict(js, names), plains);
      var after := DecodePlains(Restrict(js, names + {k}), plains);
      && (before.None? ==> after.None?)
      && (before.Some? ==> before.value.Keys == plains.Keys)
      && (before.Some? && k !in plains ==> after == before)
      && (before.Some? && k in plains ==>
            && before.value[k] == plains[k]
            && var r := DecodePlain(js[k], plains[k]);
            if r.None? then after.None? else after == Some(before.value[k := r.value]))
  {
    hide DecodePlain, IsExact;
    var before := DecodePlains(Restrict(js, names), plains);
    var after := DecodePlains(Restrict(js, names + {k}), plains);
    if before.None? {
      var n :| n in plains && n in Restrict(js, names) && DecodePlain(Restrict(js, names)[n], plains[n]).None?;
      assert n in Restrict(js, names + {k}) && DecodePlain(Restrict(js, names + {k})[n], plains[n]).None?;
    } else if k in plains {
      assert k in Restrict(js, names + {k});
      if DecodePlain(js[k], plains[k]).Some? {
        assert after.value == before.value[k := DecodePlain(js[k], plains[k]).value];
      }
    } else {
      assert after.value == before.value;
    }
  }

  lemma ListsOneMore(js: map<Str, Json>, names: set<Str>, k: Str, m: Model)
    requires m.Object? && IsPlainData(m) && k in js && k !in names
    ensures var before := DecodeLists(Restrict(js, names), m);
      var after := DecodeLists(Restrict(js, names + {k}), m);
      && (before.None? ==> after.None?)
      && (before.Some? ==> before.value.Keys == m.lists.Keys)
      && (before.Some? && k !in m.lists ==> after == before)
      && (before.Some? && k in m.lists ==>
            && before.value[k] == m.lists[k]
            && var r := DecodeItems(js[k], m.lists[k].items);
            if r.None? then after.None? else after == Some(before.value[k := ListMember(r.value)]))
  {
    hide DecodeItems, IsExact;
    var before := DecodeLists(Restrict(js, names), m);
    var after := DecodeLists(Restrict(js, names + {k}), m);
    if before.None? {
      var n :| n in m.lists && n in Restrict(js, names) && DecodeItems(Restrict(js, names)[n], m.lists[n].items).None?;
      assert n in Restrict(js, names + {k}) && DecodeItems(Restrict(js, names + {k})[n], m.lists[n].items).None?;
    } else if k in m.lists {
      assert k in Restrict(js, names + {k});
      if DecodeItems(js[k], m.lists[k].items).Some? {
        assert after.value == before.value[k := ListMember(DecodeItems(js[k], m.lists[k].items).value)];
      }
    } else {
      assert after.value == before.value;
    }
  }

  lemma ObjectsOneMore(js: map<Str, Json>, names: set<Str>, k: Str, m: Model)
    requires m.Object? && IsPlainData(m) && k in js && k !in names
    ensures var before := DecodeObjects(Restrict(js, names), m);
      var after := DecodeObjects(Restrict(js, names + {k}), m);
      && (before.None? ==> after.None?)
      && (before.Some? ==> before.value.Keys == m.objects.Keys)
      && (before.Some? && k !in m.objects ==> after == before)
      && (before.Some? && k in m.objects ==>
            && before.value[k] == m.objects[k]
            && var r := Decode(js[k], m.objects[k]);
            if r.None? then after.None? else after == Some(before.value[k := r.value]))
  {
    hide Decode, IsExact;
    var before := DecodeObjects(Restrict(js, names), m);
    var after := DecodeObjects(Restrict(js, names + {k}), m);
    if before.None? {
      var n :| n in m.objects && n in Restrict(js, names) && Decode(Restrict(js, names)[n], m.objects[n]).None?;
      assert n in Restrict(js, names + {k}) && Decode(Restrict(js, names + {k})[n], m.objects[n]).None?;
    } else if k in m.objects {
      assert k in Restrict(js, names + {k});
      if Decode(js[k], m.objects[k]).Some? {
        assert after.value == before.value[k := Decode(js[k], m.objects[k]).value];
      }
    } else {
      assert after.value == before.value;
    }
  }

  /** What has been decoded can be decoded into again. */
  lemma {:induction false} DecodeKeepsData(j: Json, m: Model)
    requires IsPlainData(m)
    ensures Decode(j, m).Some? ==> IsPlainData(Decode(j, m).value)
    decreases m, 1
  {
    match m
    case Plain(v) => DecodeKeepsKind(j, v);
    case List(items) => DecodeItemsKeepsData(j, items);
    case Object(plains, lists, objects) =>
      forall k | k in plains && j.JObject? && k in j.members
        ensures var r := DecodePlain(j.members[k], plains[k]); r.Some? ==> IsExact(r.value)
      {
        DecodeKeepsKind(j.members[k], plains[k]);
      }
      forall k | k in lists && j.JObject? && k in j.members
        ensures var r := DecodeItems(j.members[k], lists[k].items); r.Some? ==> ArePlainData(r.value)
      {
        DecodeItemsKeepsData(j.members[k], lists[k].items);
      }
      forall k | k in objects && j.JObject? && k in j.members
        ensures var r := Decode(j.members[k], objects[k]); r.Some? ==> IsPlainData(r.value)
      {
        DecodeKeepsData(j.members[k], objects[k]);
      }
      hide DecodeItems, DecodePlain, IsExact, ArePlainData;
    case _ =>
  }

  lemma {:induction false} DecodeItemsKeepsData(j: Json, items: seq<Model>)
    requires ArePlainData(items)
    ensures DecodeItems(j, items).Some? ==> ArePlainData(DecodeItems(j, items).value)
    decreases items, 0
  {
    if j.JArray? && DecodeItems(j, items).Some? {
      forall i | 0 <= i < |items|
        ensures IsPlainData(DecodeItems(j, items).value[i])
      {
        assert DecodeItem(JsonAt(j.items, i), items[i]) == Some(DecodeItems(j, items).value[i]);
        DecodeKeepsData(JsonAt(j.items, i), items[i]);
      }
    }
  }

  /** Decoding an object is decoding its members kind by kind. */
  lemma ObjectParts(js: map<Str, Json>, m: Model)
    requires m.Object? && IsPlainData(m)
    ensures var ps := DecodePlains(js, m.plains); var ls := DecodeLists(js, m); var os := DecodeObjects(js, m);
      Decode(JObject(js), m)
        == if ps.None? || ls.None? || os.None? then None else Some(Object(ps.value, ls.value, os.value))
  {
    hide DecodePlains, DecodeLists, DecodeObjects, IsExact, ArePlainData;
  }

  /** Decoding an object is decoding its members one after the other, in any order. */
  lemma DecodeOneMore(js: map<Str, Json>, names: set<Str>, k: Str, m: Model)
    requires m.Object? && IsPlainData(m) && k in js && k !in names
    ensures var before := Decode(JObject(Restrict(js, names)), m);
      var after := Decode(JObject(Restrict(js, names + {k})), m);
      if before.None? then after.None?
      else before.value.Object? && IsPlainData(before.value) && after == DecodeMember(js[k], before.value, k)
  {
    hide Decode, DecodePlains, DecodeLists, DecodeObjects, DecodePlain, DecodeItems, Restrict, IsExact, ArePlainData;
    ObjectParts(Restrict(js, names), m);
    ObjectParts(Restrict(js, names + {k}), m);
    DecodeKeepsData(JObject(Restrict(js, names)), m);
    PlainsOneMore(js, names, k, m.plains);
    ListsOneMore(js, names, k, m);
    ObjectsOneMore(js, names, k, m);
  }

  // ---------------------------------------------------------------------------------------
  // Round trip
  // ---------------------------------------------------------------------------------------

  /**
   `target` has the shape of `m`: the same types, member names and list lengths, and a null where `m`
   has one; a list item that is null in `m` may be anything.
   */
  predicate SameShape(m: Model, target: Model)
    decreases m, 0
  {
    match m
    case Null => target == Null
    case Void => target == Void
    case Plain(v) => target.Plain? && SameKind(v, target.value)
    case List(items) => target.List? && SameShapes(items, target.items)
    case Object(plains, lists, objects) =>
      && target.Object?
      && plains.Keys == target.plains.Keys && lists.Keys == target.lists.Keys && objects.Keys == target.objects.Keys
      && (forall k | k in plains :: SameKind(plains[k], target.plains[k]))
      && (forall k | k in lists :: SameShapes(lists[k].items, target.lists[k].items))
      && (forall k | k in objects :: SameShape(objects[k], target.objects[k]))
  }

  predicate SameShapes(items: seq<Model>, targets: seq<Model>)
    decreases items, 0
  {
    |items| == |targets| &&
    forall i | 0 <= i < |items| :: items[i] == Null || (items[i] != Void && SameShape(items[i], targets[i]))
  }

  lemma CastBack(n: int)
    ensures 0 <= n < 0x100 ==> SignedCast(n, 0x100) % 0x100 == n
    ensures -0x8000 <= n < 0x8000 ==> SignedCast(n, 0x1_0000) == n
    ensures 0 <= n < 0x1_0000 ==> n % 0x1_0000 == n
    ensures 0 <= n < 0x1_0000_0000 ==> SignedCast(n, 0x1_0000_0000) % 0x1_0000_0000 == n
  {
  }

  lemma SameKindRoundTrip(v: Value, w: Value)
    requires IsExact(v) && SameKind(v, w)
    ensures DecodePlain(EncodeValue(v), w) == Some(v)
  {
    match v
    case Char(c) => CastBack(c); hide SignedCast;
    case Int16(i) => CastBack(i); hide SignedCast;
    case UInt16(i) => CastBack(i); hide SignedCast;
    case UInt32(i) => CastBack(i); hide SignedCast;
    case _ =>
  }

  lemma ValueRoundTrip(v: Value, w: Value)
    requires IsExact(v) && IsExact(w)
    ensures DecodePlain(EncodeValue(v), w) == Some(v) <==> SameKind(v, w)
  {
    DecodeKeepsKind(EncodeValue(v), w);
    hide DecodePlain, EncodeValue;
    if SameKind(v, w) {
      SameKindRoundTrip(v, w);
    }
  }

  lemma {:induction false} ItemsRoundTrip(items: seq<Model>, targets: seq<Model>)
    requires ArePlainData(items) && ArePlainData(targets)
    ensures DecodeItems(JArray(EncodeItems(items)), targets) == Some(items) <==> SameShapes(items, targets)
    decreases items, 0
  {
    var js := EncodeItems(items);
    if |items| == |targets| {
      forall i | 0 <= i < |items|
        ensures DecodeItem(JsonAt(js, i), targets[i]) == Some(items[i])
          <==> items[i] == Null || (items[i] != Void && SameShape(items[i], targets[i]))
      {
        JsonRoundTrip(items[i], targets[i]);
      }
      if SameShapes(items, targets) {
        var r := DecodeItems(JArray(js), targets);
        assert r.Some?;
        assert r.value == items;
      }
    }
  }

  lemma PlainsRoundTrip(js: map<Str, Json>, plains: map<Str, Value>, targets: map<Str, Value>)
    requires forall k | k in plains :: IsExact(plains[k]) && k in js && js[k] == EncodeValue(plains[k])
    requires forall k | k in targets :: IsExact(targets[k])
    ensures DecodePlains(js, targets) == Some(plains)
      <==> plains.Keys == targets.Keys && forall k | k in plains :: SameKind(plains[k], targets[k])
  {
    hide IsExact, SameKind, EncodeValue;
    forall k | k in plains && k in targets
      ensures DecodePlain(js[k], targets[k]) == Some(plains[k]) <==> SameKind(plains[k], targets[k])
    {
      ValueRoundTrip(plains[k], targets[k]);
    }
    hide DecodePlain;
    if plains.Keys == targets.Keys && forall k | k in plains :: SameKind(plains[k], targets[k]) {
      assert DecodePlains(js, targets).value == plains;
    }
  }

  lemma {:induction false} ListsRoundTrip(js: map<Str, Json>, m: Model, target: Model)
    requires m.Object? && target.Object? && IsPlainData(m) && IsPlainData(target)
    requires forall k | k in m.lists :: k in js && js[k] == JArray(EncodeItems(m.lists[k].items))
    ensures DecodeLists(js, target) == Some(m.lists)
      <==> m.lists.Keys == target.lists.Keys
           && forall k | k in m.lists :: SameShapes(m.lists[k].items, target.lists[k].items)
    decreases m, 0
  {
    forall k | k in m.lists && k in target.lists
      ensures DecodeItems(js[k], target.lists[k].items) == Some(m.lists[k].items)
        <==> SameShapes(m.lists[k].items, target.lists[k].items)
    {
      ItemsRoundTrip(m.lists[k].items, target.lists[k].items);
    }
    hide DecodeItems, EncodeItems, SameShapes, IsExact;
    if m.lists.Keys == target.lists.Keys
       && forall k | k in m.lists :: SameShapes(m.lists[k].items, target.lists[k].items) {
      assert DecodeLists(js, target).value == m.lists;
    }
  }

  lemma {:induction false} ObjectsRoundTrip(js: map<Str, Json>, m: Model, target: Model)
    requires m.Object? && target.Object? && IsPlainData(m) && IsPlainData(target)
    requires forall k | k in m.objects :: k in js && js[k] == Encode(m.objects[k])
    ensures DecodeObjects(js, target) == Some(m.objects)
      <==> m.objects.Keys == target.objects.Keys
           && forall k | k in m.objects :: SameShape(m.objects[k], target.objects[k])
    decreases m, 0
  {
    forall k | k in m.objects && k in target.objects
      ensures Decode(js[k], target.objects[k]) == Some(m.objects[k]) <==> SameShape(m.objects[k], target.objects[k])
    {
      JsonRoundTrip(m.objects[k], target.objects[k]);
    }
    hide Decode, Encode, SameShape, IsExact;
    if m.objects.Keys == target.objects.Keys
       && forall k | k in m.objects :: SameShape(m.objects[k], target.objects[k]) {
      assert DecodeObjects(js, target).value == m.objects;
    }
  }

  /** What is encoded and decoded again comes back exactly if the target has the shape of the model. */
  lemma {:induction false} JsonRoundTrip(m: Model, target: Model)
    requires IsPlainData(m) && IsPlainData(target)
    ensures Decode(Encode(m), target) == Some(m) <==> SameShape(m, target)
    decreases m, 1
  {
    hide DecodePlains, DecodeLists, DecodeObjects, DecodeItems, EncodeItems, SameShapes;
    hide SameKind, DecodeValue, EncodeValue, IsExact;
    match m
    case Null =>
    case Void =>
    case Plain(v) =>
      if target.Plain? {
        ValueRoundTrip(v, target.value);
      }
    case List(items) =>
      if target.List? {
        ItemsRoundTrip(items, target.items);
      }
    case Object(_, _, _) =>
      if target.Object? {
        var js := Encode(m).members;
        PlainsRoundTrip(js, m.plains, target.plains);
        ListsRoundTrip(js, m, target);
        ObjectsRoundTrip(js, m, target);
      }
  }

  /** Members that the JSON object does not name stay as they are. */
  lemma AbsentMembers(js: map<Str, Json>, m: Model)
    requires m.Object? && IsPlainData(m) && Decode(JObject(js), m).Some?
    ensures var r := Decode(JObject(js), m).value;
      && r.Object? && r.plains.Keys == m.plains.Keys && r.lists.Keys == m.lists.Keys && r.objects.Keys == m.objects.Keys
      && (forall k | k in m.plains && k !in js :: r.plains[k] == m.plains[k])
      && (forall k | k in m.lists && k !in js :: r.lists[k] == m.lists[k])
      && (forall k | k in m.objects && k !in js :: r.objects[k] == m.objects[k])
  {
    hide DecodePlain, DecodeItems, IsExact, ArePlainData;
    ObjectParts(js, m);
  }

  /** Decoding the same JSON value again changes nothing more. */
  lemma {:induction false} DecodeTwice(j: Json, m: Model)
    requires IsPlainData(m) && Decode(j, m).Some?
    ensures IsPlainData(Decode(j, m).value) && Decode(j, Decode(j, m).value) == Decode(j, m)
    decreases m, 1
  {
    DecodeKeepsData(j, m);
    match m
    case Plain(v) =>
      DecodePlainTwice(j, v);
    case List(items) =>
      DecodeItemsTwice(j, items);
    case Object(_, _, _) =>
      if j.JObject? {
        ObjectTwice(j.members, m);
      }
    case _ =>
  }

  lemma DecodePlainTwice(j: Json, v: Value)
    requires IsExact(v) && DecodePlain(j, v).Some?
    ensures IsExact(DecodePlain(j, v).value) && DecodePlain(j, DecodePlain(j, v).value) == DecodePlain(j, v)
  {
    hide AsInt, AsUInt, AsInt64, AsUInt64, SignedCast;
  }

  lemma {:induction false} DecodeItemsTwice(j: Json, items: seq<Model>)
    requires ArePlainData(items) && DecodeItems(j, items).Some?
    ensures ArePlainData(DecodeItems(j, items).value)
    ensures DecodeItems(j, DecodeItems(j, items).value) == DecodeItems(j, items)
    decreases items, 0
  {
    DecodeItemsKeepsData(j, items);
    var r := DecodeItems(j, items).value;
    if j.JArray? {
      forall i | 0 <= i < |items|
        ensures DecodeItem(JsonAt(j.items, i), r[i]) == Some(r[i])
      {
        assert DecodeItem(JsonAt(j.items, i), items[i]) == Some(r[i]);
        if !JsonAt(j.items, i).JNull? {
          DecodeTwice(JsonAt(j.items, i), items[i]);
        }
      }
      hide DecodeItem;
      assert DecodeItems(j, r).value == r;
    }
  }

  lemma {:induction false} ObjectTwice(js: map<Str, Json>, m: Model)
    requires m.Object? && IsPlainData(m) && Decode(JObject(js), m).Some?
    ensures var r := Decode(JObject(js), m).value; IsPlainData(r) && Decode(JObject(js), r) == Some(r)
    decreases m, 0
  {
    DecodeKeepsData(JObject(js), m);
    var r := Decode(JObject(js), m).value;
    ObjectParts(js, m);
    ObjectParts(js, r);
    forall k | k in m.plains && k in js
      ensures DecodePlain(js[k], r.plains[k]) == Some(r.plains[k])
    {
      DecodePlainTwice(js[k], m.plains[k]);
    }
    forall k | k in m.lists && k in js
      ensures DecodeItems(js[k], r.lists[k].items) == Some(r.lists[k].items)
    {
      DecodeItemsTwice(js[k], m.lists[k].items);
    }
    forall k | k in m.objects && k in js
      ensures Decode(js[k], r.objects[k]) == Some(r.objects[k])
    {
      DecodeTwice(js[k], m.objects[k]);
    }
    hide Decode, DecodePlain, DecodeItems, IsExact, ArePlainData;
    assert DecodePlains(js, r.plains).value == r.plains;
    assert DecodeLists(js, r).value == r.lists;
    assert DecodeObjects(js, r).value == r.objects;
  }
}
