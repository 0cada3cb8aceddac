/** Encoding and decoding on the heap: the recursion of json_to_model.cpp, in place. */
module JsonNodes {
  import opened Bytes
  import opened JsonMeaning
  import opened JsonModels
  import opened ModelNodes
  import opened Models
  import opened Options

  // ---------------------------------------------------------------------------------------
  // Encoding
  // ---------------------------------------------------------------------------------------

  /** The items of a list, appended one by one. */
  method ItemsToJson(list: Node) returns (js: seq<Json>)
    requires list.Valid() && list.kind == OfList && ArePlainData(list.ItemTrees())
    ensures js == EncodeItems(list.ItemTrees())
    decreases list.repr, 0
  {
    hide Node.Valid, Encode, IsPlainData;
    js := [];
    for i := 0 to |list.items|
      invariant |js| == i
      invariant forall k | 0 <= k < i :: js[k] == Encode(list.ItemTrees()[k])
    {
      var item := list.At(i);
      var json := ModelToJson(item);
      js := js + [json];
    }
  }

  method PlainToJson(obj: Node, k: Str, ghost m: Model) returns (json: Json)
    requires obj.Valid() && obj.kind == OfObject && obj.Tree() == m && IsPlainData(m) && k in m.plains
    ensures json == EncodeValue(m.plains[k])
    decreases obj.repr, 0
  {
    hide Node.Valid, EncodeValue, IsExact, ArePlainData;
    obj.KidIsOwned(PlainMember(k));
    json := ModelToJson(obj.plains[k]);
  }

  method ListToJson(obj: Node, k: Str, ghost m: Model) returns (json: Json)
    requires obj.Valid() && obj.kind == OfObject && obj.Tree() == m && IsPlainData(m) && k in m.lists
    ensures json == JArray(EncodeItems(m.lists[k].items))
    decreases obj.repr, 0
  {
    hide Node.Valid, EncodeItems, IsExact, ArePlainData;
    obj.KidIsOwned(ListOfName(k));
    json := ModelToJson(obj.lists[k]);
  }

  method MemberToJson(obj: Node, k: Str, ghost m: Model) returns (json: Json)
    requires obj.Valid() && obj.kind == OfObject && obj.Tree() == m && IsPlainData(m) && k in m.objects
    ensures json == Encode(m.objects[k])
    decreases obj.repr, 0
  {
    hide Node.Valid, Encode, IsPlainData;
    ObjectsAreData(m);
    obj.SelfOwned();
    if obj.objects[k] != null {
      obj.KidIsOwned(ObjectMember(k));
    }
    json := ModelToJson(obj.objects[k]);
  }

  /** The members of an object: plain ones, then lists, then objects, each kind in any order. */
  method ObjectToJson(obj: Node) returns (js: map<Str, Json>)
    requires obj.Valid() && obj.kind == OfObject && IsPlainData(obj.Tree())
    ensures JObject(js) == Encode(obj.Tree())
    decreases obj.repr, 2
  {
    hide Node.Valid, Encode, EncodeItems, EncodeValue, IsPlainData, EncodePlains, EncodeLists, EncodeObjects;
    ghost var m := obj.Tree();
    EncodeNone(map[], m);
    js := map[];
    var names := obj.plains.Keys;
    ObjectsAreData(m);
    while names != {}
      invariant names <= m.plains.Keys && js == EncodePlains(m.plains, m.plains.Keys - names)
      decreases names
    {
      var k :| k in names;
      EncodeOneMore(map[], m, names, k);
      names := names - {k};
      var json := PlainToJson(obj, k, m);
      js := js[k := json];
    }
    assert m.plains.Keys - names == m.plains.Keys;
    js := ListsToJson(obj, js, m);
    js := ObjectsToJson(obj, js, m);
    EncodeParts(m);
  }

  method ListsToJson(obj: Node, before: map<Str, Json>, ghost m: Model) returns (js: map<Str, Json>)
    requires obj.Valid() && obj.kind == OfObject && obj.Tree() == m && IsPlainData(m)
    ensures js == before + EncodeLists(m.lists, m.lists.Keys)
    decreases obj.repr, 1
  {
    hide Node.Valid, EncodeItems, IsPlainData, EncodeLists;
    EncodeNone(before, m);
    js := before;
    var names := obj.lists.Keys;
    ObjectsAreData(m);
    while names != {}
      invariant names <= m.lists.Keys && js == before + EncodeLists(m.lists, m.lists.Keys - names)
      decreases names
    {
      var k :| k in names;
      EncodeOneMore(before, m, names, k);
      names := names - {k};
      var json := ListToJson(obj, k, m);
      js := js[k := json];
    }
    assert m.lists.Keys - names == m.lists.Keys;
  }

  method ObjectsToJson(obj: Node, before: map<Str, Json>, ghost m: Model) returns (js: map<Str, Json>)
    requires obj.Valid() && obj.kind == OfObject && obj.Tree() == m && IsPlainData(m)
    ensures js == before + EncodeObjects(m.objects, m.objects.Keys)
    decreases obj.repr, 1
  {
    hide Node.Valid, Encode, IsPlainData, EncodeObjects;
    EncodeNone(before, m);
    js := before;
    var names := obj.objects.Keys;
    ObjectsAreData(m);
    while names != {}
      invariant names <= m.objects.Keys && js == before + EncodeObjects(m.objects, m.objects.Keys - names)
      decreases names
    {
      var k :| k in names;
      EncodeOneMore(before, m, names, k);
      names := names - {k};
      var json := MemberToJson(obj, k, m);
      js := js[k := json];
    }
    assert m.objects.Keys - names == m.objects.Keys;
  }

  method ModelToJson(model: Node?) returns (json: Json)
    requires model != null ==> model.Valid() && IsPlainData(model.Tree())
    ensures json == Encode(Node.TreeOf(model))
    decreases if model == null then {} else model.repr, 3
  {
    hide Node.Valid, EncodeItems, EncodeValue;
    if model == null {
      return JNull;
    }
    match model.kind
    case OfNoType => return JNull;
    case OfPlain => return EncodeValue(model.value);
    case OfList =>
      var items := ItemsToJson(model);
      return JArray(items);
    case OfObject =>
      var members := ObjectToJson(model);
      return JObject(members);
  }

  // ---------------------------------------------------------------------------------------
  // Decoding in place
  // ---------------------------------------------------------------------------------------

  /** One turn of the loop over the items of a list: a null, or no element, deletes the item. */
  method JsonToItem(json: Json, list: Node, i: nat) returns (ok: bool)
    requires list.Valid() && list.kind == OfList && i < |list.items| && IsPlainData(list.ItemTrees()[i])
    modifies list.repr
    ensures list.Valid() && list.repr <= old(list.repr) && |list.items| == |old(list.items)|
    ensures if ok then DecodeItem(json, old(list.ItemTrees()[i])) == Some(list.ItemTrees()[i])
            else DecodeItem(json, old(list.ItemTrees()[i])).None?
    ensures forall k | 0 <= k < |list.items| && k != i :: list.ItemTrees()[k] == old(list.ItemTrees())[k]
    decreases list.repr, 0
  {
    hide IsPlainData, Decode, DecodeItems;
    if json.JNull? {
      var _ := list.Set(i, null);
      return true;
    }
    var item := list.At(i);
    label before:
    ok := JsonToModel(json, item);
    if item != null {
      assert list.Kid(Item(i)) == item;
      list.ItemChanged@before(i);
    }
  }

  /** The loop over the items of a list. False where the library throws. */
  method JsonToItems(js: seq<Json>, list: Node) returns (ok: bool)
    requires list.Valid() && list.kind == OfList && ArePlainData(list.ItemTrees())
    modifies list.repr
    ensures list.Valid() && list.repr <= old(list.repr)
    ensures if ok then DecodeItems(JArray(js), old(list.ItemTrees())) == Some(list.ItemTrees())
            else DecodeItems(JArray(js), old(list.ItemTrees())).None?
    ensures ok ==>
      && |list.items| == |old(list.items)|
      && forall i | 0 <= i < |list.items| ::
        if i >= |js| || js[i] == JNull then list.ItemTrees()[i] == Null
        else Decode(js[i], old(list.ItemTrees())[i]) == Some(list.ItemTrees()[i])
    decreases list.repr, 1
  {
    hide IsPlainData, Decode, DecodeItem;
    ghost var was := list.ItemTrees();
    for i := 0 to |list.items|
      invariant list.Valid() && list.repr <= old(list.repr) && |list.items| == |was|
      invariant forall k | 0 <= k < i :: DecodeItem(JsonAt(js, k), was[k]) == Some(list.ItemTrees()[k])
      invariant forall k | i <= k < |was| :: list.ItemTrees()[k] == was[k]
    {
      ok := JsonToItem(JsonAt(js, i), list, i);
      if !ok {
        return;
      }
    }
    assert DecodeItems(JArray(js), was).value == list.ItemTrees();
    DecodeItemsExact(js, was, list.ItemTrees());
    assert forall i | 0 <= i < |was| :: IsDecodedItem(js, was, i, list.ItemTrees()[i]);
    return true;
  }

  /** Decodes into one member of an object. */
  method JsonToKid(json: Json, obj: Node, ghost s: Slot, kid: Node) returns (ok: bool)
    requires obj.Valid() && obj.kind == OfObject && !s.Item? && obj.Kid(s) == kid && kid in obj.repr
    requires kid.Valid() && kid.repr < obj.repr && IsPlainData(kid.Tree())
    modifies kid.repr
    ensures obj.Valid() && obj.repr == old(obj.repr) && obj.Kid(s) == kid && kid.Valid()
    ensures if ok then Decode(json, old(kid.Tree())) == Some(kid.Tree()) else Decode(json, old(kid.Tree())).None?
    ensures match s
            case PlainMember(k) => obj.Tree() == old(obj.Tree()).(plains := old(obj.PlainValues())[k := kid.value])
            case ListOfName(k) =>
              obj.Tree() == old(obj.Tree()).(lists := old(obj.ListTrees())[k := ListMember(kid.ItemTrees())])
            case ObjectMember(k) => obj.Tree() == old(obj.Tree()).(objects := old(obj.ObjectTrees())[k := kid.Tree()])
            case Item(_) => true
    decreases kid.repr, 4
  {
    hide Decode, IsPlainData;
    ok := JsonToModel(json, kid);
    obj.MemberChanged(s);
  }

  /** One turn of the loop over the names in a JSON object. */
  method JsonToMember(json: Json, obj: Node, k: Str) returns (ok: bool)
    requires obj.Valid() && obj.kind == OfObject && IsPlainData(obj.Tree())
    modifies obj.repr
    ensures obj.Valid() && obj.repr == old(obj.repr)
    ensures if ok then DecodeMember(json, old(obj.Tree()), k) == Some(obj.Tree())
            else DecodeMember(json, old(obj.Tree()), k).None?
    decreases obj.repr, 0
  {
    hide Decode, DecodePlain, DecodeItems, IsExact, ArePlainData, Node.Valid;
    ghost var was := obj.Tree();
    if k in obj.plains {
      obj.KidIsOwned(PlainMember(k));
      DecodeOfMember(json, Plain(was.plains[k]));
      ok := JsonToKid(json, obj, PlainMember(k), obj.plains[k]);
    } else if k in obj.lists {
      obj.KidIsOwned(ListOfName(k));
      DecodeOfMember(json, List(was.lists[k].items));
      ok := JsonToKid(json, obj, ListOfName(k), obj.lists[k]);
    } else if k in obj.objects {
      var kid := obj.objects[k];
      if kid == null {
        DecodeIntoNull(json);
        assert was.objects[k := Null] == was.objects;
        return true;
      }
      obj.KidIsOwned(ObjectMember(k));
      ok := JsonToKid(json, obj, ObjectMember(k), kid);
    } else {
      ok := true;
    }
  }

  /** The loop over the names in a JSON object. False where the library throws. */
  method JsonToObject(js: map<Str, Json>, obj: Node) returns (ok: bool)
    requires obj.Valid() && obj.kind == OfObject && IsPlainData(obj.Tree())
    modifies obj.repr
    ensures obj.Valid() && obj.repr == old(obj.repr)
    ensures if ok then Decode(JObject(js), old(obj.Tree())) == Some(obj.Tree())
            else Decode(JObject(js), old(obj.Tree())).None?
    decreases obj.repr, 1
  {
    hide Node.Valid, Decode, IsPlainData, DecodeMember;
    ghost var was := obj.Tree();
    ghost var done: set<Str> := {};
    var names := js.Keys;
    DecodeNothing(js, was);
    while names != {}
      invariant obj.Valid() && obj.repr == old(obj.repr) && IsPlainData(obj.Tree())
      invariant done + names == js.Keys && done !! names
      invariant Decode(JObject(Restrict(js, done)), was) == Some(obj.Tree())
      decreases names
    {
      var k :| k in names;
      names := names - {k};
      DecodeOneMore(js, done, k, was);
      ok := JsonToMember(js[k], obj, k);
      done := done + {k};
      if !ok {
        DecodeRest(js, done, was);
        return;
      }
      DecodeKeepsData(JObject(Restrict(js, done)), was);
    }
    assert Restrict(js, done) == js;
    return true;
  }

  /** Decodes `json` into the model. False where the library throws. */
  method JsonToModel(json: Json, model: Node?) returns (ok: bool)
    requires model != null ==> model.Valid() && IsPlainData(model.Tree())
    modifies if model == null then {} else model.repr
    ensures model != null ==> model.Valid() && model.repr <= old(model.repr)
    ensures if ok then Decode(json, old(Node.TreeOf(model))) == Some(Node.TreeOf(model))
            else Decode(json, old(Node.TreeOf(model))).None?
    decreases if model == null then {} else model.repr, 3
  {
    if model == null || json.JNull? {
      return true;
    }
    ghost var was := model.Tree();
    if model.kind == OfPlain {
      var decoded := DecodeValue(json, model.value);
      if decoded.None? {
        return false;
      }
      model.value := decoded.value;
      return true;
    }
    hide Node.Valid, IsExact;
    if json.JArray? && model.kind == OfList {
      ok := JsonToItems(json.items, model);
      return;
    }
    if json.JObject? && model.kind == OfObject {
      ok := JsonToObject(json.members, model);
      return;
    }
    return true;
  }

  /** Encoding one tree of nodes and decoding into another makes the trees equal exactly for trees of one shape. */
  method CopyByJson(model: Node, target: Node) returns (ok: bool)
    requires model.Valid() && IsPlainData(model.Tree()) && target.Valid() && IsPlainData(target.Tree())
    requires model.repr !! target.repr
    modifies target.repr
    ensures target.Valid() && model.Valid() && model.Tree() == old(model.Tree())
    ensures ok && target.Tree() == model.Tree() <==> SameShape(old(model.Tree()), old(target.Tree()))
  {
    hide Node.Valid, IsPlainData, Encode, Decode;
    ghost var m, t := model.Tree(), target.Tree();
    model.SelfOwned();
    JsonRoundTrip(m, t);
    var json := ModelToJson(model);
    ok := JsonToModel(json, target);
  }
}
