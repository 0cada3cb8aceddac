/**
 The model tree of model.h and model.cpp on the heap: lists own their items, and every way of
 putting a model into a list copies it.
 */
module ModelNodes {
  import opened Bytes
  import opened Models

  datatype Kind = OfNoType | OfPlain | OfList | OfObject

  /** The places where a node keeps another one. */
  datatype Slot = Item(i: nat) | PlainMember(name: Str) | ListOfName(name: Str) | ObjectMember(name: Str)

  /** What `clone` can copy: no null items, and no objects. */
  predicate Clonable(m: Model) {
    match m
    case Null => false
    case Void => true
    case Plain(_) => true
    case List(items) => forall i | 0 <= i < |items| :: Clonable(items[i])
    case Object(_, _, _) => false
  }

  function OneBack(s: Slot): Slot {
    if s.Item? && s.i > 0 then Item(s.i - 1) else s
  }

  function OneOn(s: Slot): Slot {
    if s.Item? then Item(s.i + 1) else s
  }

  class Node {
    const kind: Kind
    const plains: map<Str, Node>
    const lists: map<Str, Node>
    const objects: map<Str, Node?>
    var value: Value
    var items: seq<Node?>

    /** The node and everything it owns. */
    ghost var repr: set<Node>

    ghost function Kid(s: Slot): Node?
      reads this
    {
      match s
      case Item(i) => if i < |items| then items[i] else null
      case PlainMember(k) => if k in plains then plains[k] else null
      case ListOfName(k) => if k in lists then lists[k] else null
      case ObjectMember(k) => if k in objects then objects[k] else null
    }

    /** Only lists have items and only objects have members, each of its kind. */
    ghost predicate Shaped()
      reads this
    {
      && (kind != OfList ==> items == [])
      && (kind != OfObject ==> plains == map[] && lists == map[] && objects == map[])
      && (forall k | k in plains :: plains[k].kind == OfPlain)
      && (forall k | k in lists :: lists[k].kind == OfList)
      && (forall k | k in objects :: objects[k] != null ==> objects[k].kind == OfObject)
    }

    /** No node is owned twice: what the kids own is disjoint, and does not hold this node. */
    ghost predicate Valid()
      reads this, repr
      decreases repr
    {
      && this in repr && Shaped()
      && (forall s {:trigger Kid(s)} | Kid(s) != null ::
            Kid(s) in repr && Kid(s).repr <= repr && this !in Kid(s).repr && Kid(s).Valid())
      && (forall s, t {:trigger Kid(s), Kid(t)} | Kid(s) != null && Kid(t) != null && s != t ::
            Kid(s).repr !! Kid(t).repr)
    }

    ghost function Tree(): (m: Model)
      requires Valid()
      reads this, repr
      ensures m != Null
      decreases repr, 1
    {
      match kind
      case OfNoType => Void
      case OfPlain => Plain(value)
      case OfList => List(ItemTrees())
      case OfObject => Object(PlainValues(), ListTrees(), ObjectTrees())
    }

    ghost function ItemTrees(): (ms: seq<Model>)
      requires Valid()
      reads this, repr
      ensures |ms| == |items|
      ensures forall i | 0 <= i < |items| ::
        Kid(Item(i)) == items[i] && ms[i] == if items[i] == null then Null else items[i].Tree()
      decreases repr, 0
    {
      assert forall i | 0 <= i < |items| :: Kid(Item(i)) == items[i];
      seq(|items|, i requires 0 <= i < |items| && Valid() && Kid(Item(i)) == items[i] reads this, repr =>
        if items[i] == null then Null else items[i].Tree())
    }

    ghost function PlainValues(): (vs: map<Str, Value>)
      requires Valid()
      reads this, repr
      ensures vs.Keys == plains.Keys
      ensures forall k | k in plains :: Kid(PlainMember(k)) == plains[k] && vs[k] == plains[k].value
    {
      assert forall k | k in plains :: Kid(PlainMember(k)) == plains[k];
      map k | k in plains && Kid(PlainMember(k)) == plains[k] :: plains[k].value
    }

    ghost function ListTrees(): (ls: map<Str, ListMember>)
      requires Valid()
      reads this, repr
      ensures ls.Keys == lists.Keys
      ensures forall k | k in lists :: Kid(ListOfName(k)) == lists[k] && ls[k] == ListMember(lists[k].ItemTrees())
      decreases repr, 0
    {
      assert forall k | k in lists :: Kid(ListOfName(k)) == lists[k];
      map k | k in lists && Kid(ListOfName(k)) == lists[k] :: ListMember(lists[k].ItemTrees())
    }

    ghost function ObjectTrees(): (os: map<Str, Model>)
      requires Valid()
      reads this, repr
      ensures os.Keys == objects.Keys
      ensures forall k | k in objects ::
        Kid(ObjectMember(k)) == objects[k] && os[k] == if objects[k] == null then Null else objects[k].Tree()
      decreases repr, 0
    {
      assert forall k | k in objects :: Kid(ObjectMember(k)) == objects[k];
      map k | k in objects && Kid(ObjectMember(k)) == objects[k] ::
        if objects[k] == null then Null else objects[k].Tree()
    }

    constructor NoType()
      ensures Valid() && repr == {this} && kind == OfNoType && Tree() == Void
    {
      kind, plains, lists, objects := OfNoType, map[], map[], map[];
      value, items, repr := Bool(false), [], {this};
    }

    constructor Leaf(value: Value)
      ensures Valid() && repr == {this} && kind == OfPlain && Tree() == Plain(value)
    {
      kind, plains, lists, objects := OfPlain, map[], map[], map[];
      this.value, items, repr := value, [], {this};
    }

    constructor EmptyList()
      ensures Valid() && repr == {this} && kind == OfList && Tree() == List([])
    {
      kind, plains, lists, objects := OfList, map[], map[], map[];
      value, items, repr := Bool(false), [], {this};
    }

    /** What a list shows for a model put into it: a copy, or null. */
    static ghost function TreeOf(model: Node?): Model
      requires model != null ==> model.Valid()
      reads model, if model == null then {} else model.repr
    {
      if model == null then Null else model.Tree()
    }

    /** `List::clear`: deletes the items, each once. */
    method Clear() returns (ghost freed: set<Node>)
      requires Valid() && kind == OfList
      modifies this
      ensures Valid() && Tree() == List([]) && repr == {this}
      ensures freed <= old(repr) - {this}
      ensures forall i | 0 <= i < |old(items)| && old(items)[i] != null :: old(items[i].repr) <= freed
    {
      freed := {};
      for i := 0 to |items|
        invariant freed <= repr - {this}
        invariant forall k | 0 <= k < i && items[k] != null :: items[k].repr <= freed
        invariant forall k | i <= k < |items| && items[k] != null :: items[k].repr !! freed
      {
        if items[i] != null {
          assert Kid(Item(i)) == items[i];
          forall k | i < k < |items| && items[k] != null
            ensures items[k].repr !! items[i].repr
          {
            assert Kid(Item(k)) == items[k];
          }
          freed := freed + items[i].repr;
        }
      }
      items := [];
      repr := {this};
    }

    /** The tree of an item that stayed, at whatever place, is the same. */
    twostate lemma ItemStays(new i: nat, new j: nat)
      requires old(Valid()) && Valid() && i < |items| && j < |old(items)| && items[i] == old(items)[j]
      requires forall n | n in old(repr) && n != this :: unchanged(n)
      ensures ItemTrees()[i] == old(ItemTrees())[j]
    {
      assert old(Kid(Item(j))) == items[i];
    }

    twostate lemma AppendIsValid(new copy: Node?)
      requires old(Valid()) && kind == OfList && items == old(items) + [copy]
      requires copy != null ==> copy.Valid() && copy.repr !! old(repr)
      requires repr == old(repr) + if copy == null then {} else copy.repr
      requires forall n | n in old(repr) && n != this :: unchanged(n)
      ensures Valid()
    {
      assert Kid(Item(|old(items)|)) == copy;
      assert forall s {:trigger Kid(s)} | s != Item(|old(items)|) :: Kid(s) == old(Kid(s));
    }

    twostate lemma AppendTrees(new copy: Node?)
      requires old(Valid()) && Valid() && items == old(items) + [copy]
      requires copy != null ==> copy.Valid()
      requires forall n | n in old(repr) && n != this :: unchanged(n)
      ensures ItemTrees() == old(ItemTrees()) + [TreeOf(copy)]
    {
      forall i | 0 <= i < |old(items)|
        ensures ItemTrees()[i] == old(ItemTrees())[i]
      {
        ItemStays(i, i);
      }
      hide Valid, Kid;
      var now, last, was := ItemTrees(), TreeOf(copy), old(ItemTrees());
      assert now[|was|] == last;
      assert now == was + [last];
    }

    /** Puts a copy that nobody else owns behind the items. */
    method Append(copy: Node?)
      requires Valid() && kind == OfList
      requires copy != null ==> copy.Valid() && copy.repr !! repr
      modifies this
      ensures Valid() && items == old(items) + [copy] && repr == old(repr) + if copy == null then {} else copy.repr
      ensures Tree() == List(old(ItemTrees() + [TreeOf(copy)]))
    {
      hide Kid, Shaped;
      label before:
      items := items + [copy];
      repr := repr + if copy == null then {} else copy.repr;
      AppendIsValid@before(copy);
      AppendTrees@before(copy);
      assert TreeOf(copy) == old(TreeOf(copy));
      hide Valid, ItemTrees, TreeOf;
    }

    /** The values of these trees can be assigned: both are lists, or plain values of one type. */
    ghost predicate Takes(val: Node)
      reads this, val
    {
      (kind == OfList && val.kind == OfList) || (kind == OfPlain && val.kind == OfPlain && SameKind(value, val.value))
    }

    lemma ItemIsTree(i: nat)
      requires Valid() && kind == OfList && i < |items| && Clonable(Tree())
      ensures items[i] != null && items[i].Valid() && this !in items[i].repr && items[i].repr < repr
      ensures Clonable(items[i].Tree()) && ItemTrees()[i] == items[i].Tree()
    {
      assert Kid(Item(i)) == items[i];
      assert Clonable(ItemTrees()[i]);
    }

    lemma NoItems()
      requires Valid() && items == []
      ensures ItemTrees() == []
    {
    }

    /** The loop of `assign`. */
    method CopyItems(val: Node)
      requires Valid() && kind == OfList && items == [] && repr == {this}
      requires val.Valid() && val.kind == OfList && Clonable(val.Tree()) && this !in val.repr
      modifies this
      ensures Valid() && fresh(repr - {this}) && Tree() == val.Tree()
      decreases val.repr, 0
    {
      hide Valid, Kid, Clonable, ItemTrees;
      ghost var trees := val.ItemTrees();
      NoItems();
      assert |trees| == |val.items|;
      for i := 0 to |val.items|
        invariant Valid() && fresh(repr - {this}) && |items| == i
        invariant val.ItemTrees() == trees && ItemTrees() == trees[..i]
      {
        val.ItemIsTree(i);
        var copy := val.items[i].Clone();
        Append(copy);
        assert trees[..i + 1] == trees[..i] + [trees[i]];
      }
      assert trees[..|trees|] == trees;
    }

    /** `assign`; without effect between different types.  A list assigned to itself is cleared first, and stays empty. */
    method Assign(val: Node) returns (ghost freed: set<Node>)
      requires Valid() && kind != OfObject && (val == this || (val.Valid() && Clonable(val.Tree()) && val.repr !! repr))
      modifies this
      ensures Valid() && fresh(repr - old(repr)) && freed <= old(repr) - {this} && (kind == OfList ==> freed !! repr)
      ensures Tree() == if val == this && kind == OfList then List([])
                        else if old(Takes(val)) then old(val.Tree()) else old(Tree())
      decreases val.repr, 1
    {
      freed := {};
      if kind == OfPlain {
        if val.kind == OfPlain && SameKind(value, val.value) {
          value := val.value;
        }
      } else if kind == OfList && val.kind == OfList {
        freed := Clear();
        if val != this {
          CopyItems(val);
        }
      }
    }

    /** A copy that shares no node with the tree. */
    method Clone() returns (copy: Node)
      requires Valid() && Clonable(Tree())
      ensures copy.Valid() && fresh(copy.repr) && copy.kind == kind && copy.Tree() == Tree()
      decreases repr, 2
    {
      if kind == OfNoType {
        copy := new Node.NoType();
      } else if kind == OfPlain {
        copy := new Node.Leaf(value);
        var _ := copy.Assign(this);
      } else {
        copy := new Node.EmptyList();
        var _ := copy.Assign(this);
      }
    }

    static method CloneOf(model: Node?) returns (copy: Node?)
      requires model != null ==> model.Valid() && Clonable(model.Tree())
      ensures copy == null <==> model == null
      ensures copy != null ==> copy.Valid() && fresh(copy.repr) && copy.Tree() == TreeOf(model)
    {
      copy := null;
      if model != null {
        copy := model.Clone();
      }
    }

    /** `push_back`; the model may be any tree, also one that this list owns. */
    method PushBack(model: Node?)
      requires Valid() && kind == OfList && (model != null ==> model.Valid() && Clonable(model.Tree()))
      modifies this
      ensures Valid() && fresh(repr - old(repr)) && old(repr) <= repr
      ensures Tree() == List(old(ItemTrees() + [TreeOf(model)]))
    {
      hide Valid, Kid, Clonable;
      var copy := CloneOf(model);
      Append(copy);
    }

    method PushFront(model: Node?)
      requires Valid() && kind == OfList && (model != null ==> model.Valid() && Clonable(model.Tree()))
      modifies this
      ensures Valid() && fresh(repr - old(repr)) && old(repr) <= repr
      ensures Tree() == List(old([TreeOf(model)] + ItemTrees()))
    {
      hide Clonable;
      var copy := CloneOf(model);
      Prepend(copy);
    }

    twostate lemma PrependIsValid(new copy: Node?)
      requires old(Valid()) && kind == OfList && items == [copy] + old(items)
      requires copy != null ==> copy.Valid() && copy.repr !! old(repr)
      requires repr == old(repr) + if copy == null then {} else copy.repr
      requires forall n | n in old(repr) && n != this :: unchanged(n)
      ensures Valid()
    {
      assert Kid(Item(0)) == copy;
      assert forall s {:trigger Kid(s)} | s != Item(0) :: Kid(s) == old(Kid(OneBack(s)));
    }

    twostate lemma PrependTrees(new copy: Node?)
      requires old(Valid()) && Valid() && items == [copy] + old(items)
      requires copy != null ==> copy.Valid()
      requires forall n | n in old(repr) && n != this :: unchanged(n)
      ensures ItemTrees() == [TreeOf(copy)] + old(ItemTrees())
    {
      forall i | 1 <= i < |items|
        ensures ItemTrees()[i] == old(ItemTrees())[i - 1]
      {
        ItemStays(i, i - 1);
      }
      hide Valid, Kid;
      var now, first, was := ItemTrees(), TreeOf(copy), old(ItemTrees());
      assert now[0] == first;
      assert now == [first] + was;
    }

    method Prepend(copy: Node?)
      requires Valid() && kind == OfList
      requires copy != null ==> copy.Valid() && copy.repr !! repr
      modifies this
      ensures Valid() && items == [copy] + old(items) && repr == old(repr) + if copy == null then {} else copy.repr
      ensures Tree() == List(old([TreeOf(copy)] + ItemTrees()))
    {
      hide Kid, Shaped;
      label before:
      items := [copy] + items;
      repr := repr + if copy == null then {} else copy.repr;
      PrependIsValid@before(copy);
      PrependTrees@before(copy);
      assert TreeOf(copy) == old(TreeOf(copy));
      hide Valid, ItemTrees, TreeOf;
    }

    twostate lemma PopFrontIsValid(new freed: set<Node>)
      requires old(Valid()) && kind == OfList && old(items) != [] && items == old(items)[1..]
      requires freed == if old(items)[0] == null then {} else old(items[0].repr)
      requires repr == old(repr) - freed
      requires forall n | n in old(repr) && n != this :: unchanged(n)
      ensures Valid()
    {
      assert old(Kid(Item(0))) == old(items)[0];
      assert forall s {:trigger Kid(s)} :: Kid(s) == old(Kid(OneOn(s)));
    }

    /** `pop_front`; the caller must not pop from an empty list. */
    method PopFront() returns (ghost freed: set<Node>)
      requires Valid() && kind == OfList && items != []
      modifies this
      ensures Valid() && repr == old(repr) - freed
      ensures freed == var first := old(items)[0]; if first == null then {} else old(first.repr)
      ensures Tree() == List(old(ItemTrees())[1..])
    {
      hide Kid, Shaped;
      label before:
      freed := if items[0] == null then {} else items[0].repr;
      items := items[1..];
      repr := repr - freed;
      PopFrontIsValid@before(freed);
      hide Valid;
      forall i | 0 <= i < |items|
        ensures ItemTrees()[i] == old(ItemTrees())[i + 1]
      {
        ItemStays@before(i, i + 1);
      }
    }

    twostate lemma PopBackIsValid(new freed: set<Node>)
      requires old(Valid()) && kind == OfList && old(items) != [] && items == old(items)[..|old(items)| - 1]
      requires freed == if old(items)[|items|] == null then {} else old(items[|items| - 1].repr)
      requires repr == old(repr) - freed
      requires forall n | n in old(repr) && n != this :: unchanged(n)
      ensures Valid()
    {
      assert old(Kid(Item(|items| - 1))) == old(items)[|items|];
      assert forall s {:trigger Kid(s)} | s != Item(|items|) :: Kid(s) == old(Kid(s));
    }

    /** `pop_back`; the caller must not pop from an empty list. */
    method PopBack() returns (ghost freed: set<Node>)
      requires Valid() && kind == OfList && items != []
      modifies this
      ensures Valid() && repr == old(repr) - freed
      ensures freed == var last := old(items)[|old(items)| - 1]; if last == null then {} else old(last.repr)
      ensures Tree() == List(old(ItemTrees())[..|old(items)| - 1])
    {
      hide Kid, Shaped;
      label before:
      ghost var last := items[|items| - 1];
      freed := if last == null then {} else last.repr;
      items := items[..|items| - 1];
      repr := repr - freed;
      PopBackIsValid@before(freed);
      hide Valid;
      forall i | 0 <= i < |items|
        ensures ItemTrees()[i] == old(ItemTrees())[i]
      {
        ItemStays@before(i, i);
      }
    }

    /** `at`: null outside the list. */
    method At(idx: nat) returns (item: Node?)
      requires Valid() && kind == OfList
      ensures this in repr && item == if idx < |items| then items[idx] else null
      ensures item != null ==> item.Valid() && item.repr < repr && item.Tree() == ItemTrees()[idx]
    {
      if idx >= |items| {
        return null;
      }
      assert Kid(Item(idx)) == items[idx];
      return items[idx];
    }

    twostate lemma ReplaceIsValid(new idx: nat, new freed: set<Node>, new copy: Node?)
      requires old(Valid()) && kind == OfList && idx < |old(items)| && items == old(items)[idx := copy]
      requires freed == if old(items)[idx] == null then {} else old(items[idx].repr)
      requires copy != null ==> copy.Valid() && copy.repr !! old(repr)
      requires repr == old(repr) - freed + if copy == null then {} else copy.repr
      requires forall n | n in old(repr) && n != this :: unchanged(n)
      ensures Valid()
    {
      assert old(Kid(Item(idx))) == old(items)[idx];
      assert Kid(Item(idx)) == copy;
      assert forall s {:trigger Kid(s)} | s != Item(idx) :: Kid(s) == old(Kid(s));
    }

    twostate lemma ReplaceTrees(new idx: nat, new copy: Node?)
      requires old(Valid()) && Valid() && idx < |old(items)| && items == old(items)[idx := copy]
      requires copy != null ==> copy.Valid()
      requires forall n | n in old(repr) && n != this :: unchanged(n)
      ensures ItemTrees() == old(ItemTrees())[idx := TreeOf(copy)]
    {
      forall i | 0 <= i < |items| && i != idx
        ensures ItemTrees()[i] == old(ItemTrees())[i]
      {
        ItemStays(i, i);
      }
      hide Valid, Kid;
      var now, last, was := ItemTrees(), TreeOf(copy), old(ItemTrees());
      assert now[idx] == last;
      assert now == was[idx := last];
    }

    method Replace(idx: nat, copy: Node?) returns (ghost freed: set<Node>)
      requires Valid() && kind == OfList && idx < |items|
      requires copy != null ==> copy.Valid() && copy.repr !! repr
      modifies this
      ensures Valid() && repr == old(repr) - freed + if copy == null then {} else copy.repr
      ensures freed == (if old(items)[idx] == null then {} else old(items[idx].repr)) && freed <= old(repr) - {this}
      ensures Tree() == List(old(ItemTrees()[idx := TreeOf(copy)]))
    {
      assert Kid(Item(idx)) == items[idx];
      freed := if items[idx] == null then {} else items[idx].repr;
      hide Kid, Shaped;
      label before:
      items := items[idx := copy];
      repr := repr - freed + if copy == null then {} else copy.repr;
      ReplaceIsValid@before(idx, freed, copy);
      ReplaceTrees@before(idx, copy);
      assert TreeOf(copy) == old(TreeOf(copy));
      hide Valid, ItemTrees, TreeOf;
    }

    /**
     `set`: deletes the item, then copies the model, which must not be part of the deleted item;
     without effect outside the list.
     */
    method Set(idx: nat, model: Node?) returns (ghost freed: set<Node>)
      requires Valid() && kind == OfList && (model != null ==> model.Valid() && Clonable(model.Tree()))
      requires idx < |items| && items[idx] != null && model != null ==> model.repr !! items[idx].repr
      modifies this
      ensures Valid() && fresh(repr - old(repr)) && old(repr) - freed <= repr && freed !! repr
      ensures model == null ==> repr <= old(repr)
      ensures freed == if idx < |old(items)| && old(items)[idx] != null then old(items[idx].repr) else {}
      ensures Tree() == List(if idx < |old(items)| then old(ItemTrees()[idx := TreeOf(model)]) else old(ItemTrees()))
    {
      freed := {};
      if idx >= |items| {
        return;
      }
      hide Valid, Kid, Clonable, ItemTrees;
      var copy := CloneOf(model);
      freed := Replace(idx, copy);
    }

    lemma SelfOwned()
      requires Valid()
      ensures this in repr
    {
    }

    lemma KidIsOwned(s: Slot)
      requires Valid() && Kid(s) != null
      ensures Kid(s) in repr && Kid(s).repr < repr && Kid(s).Valid()
      ensures s.PlainMember? ==> Kid(s).kind == OfPlain && Kid(s).value == PlainValues()[s.name]
      ensures s.ListOfName? ==> Kid(s).kind == OfList && ListMember(Kid(s).ItemTrees()) == ListTrees()[s.name]
      ensures s.ObjectMember? ==> Kid(s).Tree() == ObjectTrees()[s.name]
    {
    }

    /** Only what the kid at `s` owned has changed, and it owns no more than before. */
    twostate predicate OnlyKidChanged(new s: Slot)
      reads this, repr
    {
      && repr == old(repr)
      && old(Valid()) && old(Kid(s)) != null && old(Kid(s)) in repr
      && (forall n | n in repr && n !in old(Kid(s).repr) :: unchanged(n))
      && old(Kid(s)).repr <= old(Kid(s).repr) && old(Kid(s)).repr <= repr && old(Kid(s)).Valid()
    }

    /** When that kid is an item, only its tree has changed. */
    twostate lemma ItemChanged(new i: nat)
      requires i < |old(items)| && old(items)[i] != null && OnlyKidChanged(Item(i)) && kind == OfList
      ensures Valid() && items == old(items)
      ensures ItemTrees() == old(ItemTrees())[i := items[i].Tree()]
    {
      KidChanged(Item(i));
      forall k | 0 <= k < |items|
        ensures ItemTrees()[k] == if k == i then items[i].Tree() else old(ItemTrees())[k]
      {
        assert Kid(Item(k)) == items[k];
      }
    }

    twostate lemma KidChanged(new s: Slot)
      requires OnlyKidChanged(s)
      ensures old(Valid()) && unchanged(this) && Valid()
      ensures Kid(s) == old(Kid(s)) && Kid(s) != null && Kid(s).Valid()
      ensures forall t {:trigger Kid(t)} | t != s && Kid(t) != null ::
        old(Kid(t).Valid()) && Kid(t).Tree() == old(Kid(t).Tree()) && Kid(t).ItemTrees() == old(Kid(t).ItemTrees())
        && Kid(t).value == old(Kid(t).value)
    {
      assert forall t :: Kid(t) == old(Kid(t));
      forall t | t != s && Kid(t) != null
        ensures Kid(t).Valid() && Kid(t).repr <= repr && this !in Kid(t).repr && Kid(t).repr == old(Kid(t).repr)
        ensures Kid(t).Tree() == old(Kid(t).Tree()) && Kid(t).ItemTrees() == old(Kid(t).ItemTrees())
        ensures Kid(t).value == old(Kid(t).value)
      {
        assert old(Kid(t).Valid()) && old(Kid(t).repr) !! old(Kid(s).repr);
        assert forall n | n in old(Kid(t).repr) :: n in repr && n !in old(Kid(s).repr) && unchanged(n);
      }
    }

    /** When that kid is a member of an object, only that member has changed. */
    twostate lemma PlainsChanged(new s: Slot)
      requires OnlyKidChanged(s) && !s.Item?
      ensures Valid() && old(Kid(s)) == Kid(s) && Kid(s) != null && Kid(s).Valid()
      ensures PlainValues() == if s.PlainMember? then old(PlainValues())[s.name := Kid(s).value] else old(PlainValues())
    {
      hide Valid, OnlyKidChanged, Shaped;
      KidChanged(s);
      var now, was := PlainValues(), old(PlainValues());
      forall k | k in plains
        ensures PlainMember(k) != s ==> now[k] == was[k]
      {
        assert Kid(PlainMember(k)) == plains[k];
      }
    }

    twostate lemma ListsChanged(new s: Slot)
      requires OnlyKidChanged(s) && !s.Item?
      ensures Valid() && old(Kid(s)) == Kid(s) && Kid(s) != null && Kid(s).Valid()
      ensures ListTrees() ==
        if s.ListOfName? then old(ListTrees())[s.name := ListMember(Kid(s).ItemTrees())] else old(ListTrees())
    {
      hide Valid, OnlyKidChanged, Shaped;
      KidChanged(s);
      var now, was := ListTrees(), old(ListTrees());
      forall k | k in lists
        ensures ListOfName(k) != s ==> now[k] == was[k]
      {
        assert Kid(ListOfName(k)) == lists[k];
      }
    }

    twostate lemma ObjectsChanged(new s: Slot)
      requires OnlyKidChanged(s) && !s.Item?
      ensures Valid() && old(Kid(s)) == Kid(s) && Kid(s) != null && Kid(s).Valid()
      ensures ObjectTrees() ==
        if s.ObjectMember? then old(ObjectTrees())[s.name := Kid(s).Tree()] else old(ObjectTrees())
    {
      hide Valid, OnlyKidChanged, Shaped;
      KidChanged(s);
      var now, was := ObjectTrees(), old(ObjectTrees());
      forall k | k in objects
        ensures ObjectMember(k) != s ==> now[k] == was[k]
      {
        assert Kid(ObjectMember(k)) == objects[k];
      }
    }

    /** The tree of an object after a change below one member. */
    twostate lemma MemberChanged(new s: Slot)
      requires OnlyKidChanged(s) && kind == OfObject && !s.Item?
      ensures old(Valid()) && Valid() && old(Kid(s)) == Kid(s) && Kid(s) != null && Kid(s).Valid()
      ensures match s
              case PlainMember(k) => Tree() == old(Tree()).(plains := old(PlainValues())[k := Kid(s).value])
              case ListOfName(k) =>
                Tree() == old(Tree()).(lists := old(ListTrees())[k := ListMember(Kid(s).ItemTrees())])
              case ObjectMember(k) => Tree() == old(Tree()).(objects := old(ObjectTrees())[k := Kid(s).Tree()])
              case Item(_) => true
    {
      hide Valid, OnlyKidChanged, Shaped, PlainValues, ListTrees, ObjectTrees, Kid;
      KidChanged(s);
      PlainsChanged(s);
      ListsChanged(s);
      ObjectsChanged(s);
    }
  }
}
