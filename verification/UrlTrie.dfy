/**
 The route trie of var_pattern.cpp: nodes on the heap, changed in place by `put` and walked by
 `fetch_vars`.
 */
module UrlTrie {
  import opened Routes
  import opened Splitting
  import opened UrlPattern

  class UrlTrieNode {
    var nexts: map<string, UrlTrieNode>
    var varName: string
    var varNode: UrlTrieNode?
    var end: bool
    var name: string

    constructor ()
      ensures nexts == map[] && varNode == null && !end
    {
      nexts, varName, varNode, end, name := map[], "", null, false, "";
    }

    /** The child one hop further, or null. */
    ghost function Child(hop: Hop): UrlTrieNode?
      reads this
    {
      match hop
      case Lit(s) => if s in nexts then nexts[s] else null
      case Var => varNode
    }
  }

  class UrlTrie {
    const entrys: UrlTrieNode

    /** The node at each position of the trie, and the set of them all. */
    ghost var nodes: map<Shape, UrlTrieNode>
    ghost var repr: set<UrlTrieNode>

    ghost function NodeAt(p: Shape): UrlTrieNode?
      reads this
    {
      if p in nodes then nodes[p] else null
    }

    ghost predicate AllInRepr()
      reads this
    {
      forall p | p in nodes :: nodes[p] in repr
    }

    /** The nodes form a tree: one node for each position, no node twice, linked hop by hop. */
    ghost predicate IsTree()
      reads this, repr
    {
      && [] in nodes && nodes[[]] == entrys
      && AllInRepr()
      && (forall p, q | p in nodes && q in nodes && nodes[p] == nodes[q] :: p == q)
      && (forall p: Shape, h: Hop {:trigger p + [h]} | p + [h] in nodes :: p in nodes)
      && (forall p, h {:trigger nodes[p].Child(h)} | p in nodes :: nodes[p].Child(h) == NodeAt(p + [h]))
    }

    ghost function Names(): map<Shape, string>
      reads this, repr
      requires AllInRepr()
    {
      map p | p in nodes && nodes[p].end :: nodes[p].name
    }

    ghost function VarNames(): map<Shape, string>
      reads this, repr
      requires AllInRepr()
    {
      map p | p in nodes && nodes[p].varNode != null :: nodes[p].varName
    }

    ghost function Table(): Routes.Table
      reads this, repr
      requires AllInRepr()
    {
      Routes.Table(Names(), VarNames())
    }

    /** A tree in which every node lies on the way to a registered route. */
    ghost predicate Valid()
      reads this, repr
    {
      IsTree() && forall p | p in nodes :: Reaches(Names().Keys, p)
    }

    constructor ()
      ensures Valid() && fresh(repr) && Table() == EMPTY
    {
      var root := new UrlTrieNode();
      entrys := root;
      nodes := map[[] := root];
      repr := {root};
    }

    /** Only `q` is one hop from `p` by `hop`. */
    static lemma OneHop(p: Shape, hop: Hop)
      ensures forall a: Shape, h: Hop {:trigger a + [h]} :: a + [h] == p + [hop] ==> a == p && h == hop
    {
      forall a: Shape, h: Hop | a + [h] == p + [hop]
        ensures a == p && h == hop
      {
        assert a == (a + [h])[..|a|] && h == (a + [h])[|a|];
      }
    }

    lemma ChildAt(p: Shape, hop: Hop)
      requires IsTree() && p in nodes
      ensures nodes[p].Child(hop) == NodeAt(p + [hop])
      ensures nodes[p] in repr
      ensures p in VarNames() <==> nodes[p].varNode != null
    {
    }

    /** A new node one hop from the node at `p`: the change that `Step` makes. */
    twostate predicate Grew(node: UrlTrieNode, new p: Shape, new hop: Hop, new next: UrlTrieNode)
      reads this, repr, node, next
    {
      && p in old(nodes) && old(nodes[p]) == node && p + [hop] !in old(nodes)
      && fresh(next) && next.nexts == map[] && next.varNode == null && !next.end
      && nodes == old(nodes)[p + [hop] := next] && repr == old(repr) + {next}
      && (forall n | n in old(repr) && n != node :: unchanged(n))
      && node.end == old(node.end) && node.name == old(node.name)
      && match hop
         case Lit(s) =>
           && node.nexts == old(node.nexts)[s := next]
           && node.varNode == old(node.varNode) && node.varName == old(node.varName)
         case Var => node.nexts == old(node.nexts) && node.varNode == next
    }

    twostate lemma GrewTree(node: UrlTrieNode, new p: Shape, new hop: Hop, new next: UrlTrieNode)
      requires old(IsTree()) && Grew(node, p, hop, next)
      ensures IsTree()
    {
      OneHop(p, hop);
      assert next !in old(repr);
      forall a, h {:trigger nodes[a].Child(h)} | a in nodes
        ensures nodes[a].Child(h) == NodeAt(a + [h])
      {
        if a in old(nodes) {
          assert old(nodes[a].Child(h)) == old(NodeAt(a + [h]));
        } else {
          assert a + [h] !in old(nodes);
        }
      }
    }

    twostate lemma GrewNames(node: UrlTrieNode, new p: Shape, new hop: Hop, new next: UrlTrieNode)
      requires old(IsTree()) && IsTree() && Grew(node, p, hop, next)
      ensures Names() == old(Names())
    {
      forall q
        ensures q in Names() <==> q in old(Names())
        ensures q in Names() ==> Names()[q] == old(Names())[q]
      {
        if q in old(nodes) {
          assert nodes[q] == old(nodes[q]);
        }
      }
    }

    twostate lemma GrewVarNames(node: UrlTrieNode, new p: Shape, new hop: Hop, new next: UrlTrieNode)
      requires old(IsTree()) && IsTree() && Grew(node, p, hop, next)
      ensures VarNames() == if hop == Var then old(VarNames())[p := node.varName] else old(VarNames())
    {
      var expected := if hop == Var then old(VarNames())[p := node.varName] else old(VarNames());
      forall q
        ensures q in VarNames() <==> q in expected
        ensures q in VarNames() ==> VarNames()[q] == expected[q]
      {
        if q in old(nodes) {
          assert nodes[q] == old(nodes[q]);
        }
      }
    }

    /** Follows one section of a pattern from the node at `p`, making a node where there is none. */
    method Step(node: UrlTrieNode, ghost p: Shape, section: string) returns (next: UrlTrieNode)
      requires IsTree() && p in nodes && nodes[p] == node && section != []
      modifies this, node
      ensures IsTree()
      ensures nodes == old(nodes)[p + [HopOf(section)] := next]
      ensures p + [HopOf(section)] in old(nodes) ==> next == old(nodes[p + [HopOf(section)]])
      ensures old(repr) <= repr && fresh(repr - old(repr))
      ensures Names() == old(Names())
      ensures VarNames() == AddVar(old(VarNames()), p, section)
    {
      hide IsTree, Names, VarNames;
      ghost var hop := HopOf(section);
      ChildAt(p, hop);
      if section[0] == '{' && section[|section| - 1] == '}' {
        if node.varNode != null {
          return node.varNode;
        }
        next := new UrlTrieNode();
        node.varName, node.varNode := section[1..|section| - 1], next;
      } else {
        if section in node.nexts {
          return node.nexts[section];
        }
        next := new UrlTrieNode();
        node.nexts := node.nexts[section := next];
      }
      nodes := nodes[p + [hop] := next];
      repr := repr + {next};
      GrewTree(node, p, hop, next);
      GrewNames(node, p, hop, next);
      GrewVarNames(node, p, hop, next);
    }

    /** Every node is on the way to a registered route, or on the way to `p`. */
    ghost predicate Serves(p: Shape)
      reads this, repr
      requires AllInRepr()
    {
      forall q | q in nodes :: Reaches(Names().Keys, q) || q <= p
    }

    lemma ServesAll(p: Shape)
      requires IsTree() && Serves(p)
      ensures AllInRepr()
      ensures forall q | q in nodes :: Reaches(Names().Keys, q) || q <= p
    {
    }

    lemma ServesOn(before: set<Shape>, routes: set<Shape>, p: Shape, hop: Hop)
      requires IsTree() && Names().Keys == routes
      requires forall q | q in before :: Reaches(routes, q) || q <= p
      requires nodes.Keys == before + {p + [hop]}
      ensures Serves(p + [hop])
    {
      hide Names, Reaches;
      forall q | q in nodes
        ensures Reaches(Names().Keys, q) || q <= p + [hop]
      {
        if q <= p {
          assert q <= p + [hop];
        }
      }
    }

    lemma Rooted()
      requires Valid()
      ensures IsTree() && AllInRepr() && [] in nodes && nodes[[]] == entrys && entrys in repr && Serves([])
    {
    }

    lemma InRepr(p: Shape)
      requires IsTree() && p in nodes
      ensures nodes[p] in repr
    {
    }

    /** One turn of the loop of `put`. */
    method Follow(node: UrlTrieNode, ghost p: Shape, section: string) returns (next: UrlTrieNode)
      requires IsTree() && Serves(p) && p in nodes && nodes[p] == node && section != []
      modifies this, node
      ensures IsTree() && AllInRepr() && Serves(p + [HopOf(section)])
      ensures p + [HopOf(section)] in nodes && nodes[p + [HopOf(section)]] == next && next in repr
      ensures old(repr) <= repr && fresh(repr - old(repr))
      ensures Names() == old(Names())
      ensures VarNames() == AddVar(old(VarNames()), p, section)
    {
      hide IsTree, Names, VarNames, Serves, Reaches;
      ServesAll(p);
      ghost var before := nodes.Keys;
      ghost var routes := Names().Keys;
      next := Step(node, p, section);
      ServesOn(before, routes, p, HopOf(section));
      InRepr(p + [HopOf(section)]);
    }

    /** The change that marks the node at `p`: its flag and its name. */
    twostate predicate Mark(node: UrlTrieNode, p: Shape, name: string)
      reads this, repr, node
    {
      && p in old(nodes) && old(nodes[p]) == node
      && nodes == old(nodes) && repr == old(repr)
      && (forall n | n in old(repr) && n != node :: unchanged(n))
      && node.nexts == old(node.nexts) && node.varNode == old(node.varNode) && node.varName == old(node.varName)
      && node.end && node.name == name
    }

    twostate lemma MarkedTree(node: UrlTrieNode, new p: Shape, new name: string)
      requires old(IsTree()) && Mark(node, p, name)
      ensures IsTree()
    {
      forall a, h {:trigger nodes[a].Child(h)} | a in nodes
        ensures nodes[a].Child(h) == NodeAt(a + [h])
      {
        assert old(nodes[a].Child(h)) == old(NodeAt(a + [h]));
      }
    }

    twostate lemma MarkedNames(node: UrlTrieNode, new p: Shape, new name: string)
      requires old(IsTree()) && IsTree() && Mark(node, p, name)
      ensures Names() == old(Names())[p := name] && VarNames() == old(VarNames())
    {
      forall q | q in nodes
        ensures q != p ==> unchanged(nodes[q])
      {
      }
    }

    lemma MarkServes(before: set<Shape>, p: Shape)
      requires IsTree() && Names().Keys == before + {p}
      requires forall q | q in nodes :: Reaches(before, q) || q <= p
      ensures Valid()
    {
      hide Names;
      forall q | q in nodes
        ensures Reaches(Names().Keys, q)
      {
        if q <= p {
          assert p in Names();
        } else {
          assert Reaches(before, q);
        }
      }
    }

    /** The end of `put`: the node at `p` gets the name. */
    method MarkEnd(node: UrlTrieNode, ghost p: Shape, name: string)
      requires IsTree() && Serves(p) && p in nodes && nodes[p] == node
      modifies node
      ensures Valid() && nodes == old(nodes) && repr == old(repr)
      ensures Names() == old(Names())[p := name] && VarNames() == old(VarNames())
    {
      hide IsTree, Names, VarNames, Serves, Reaches;
      InRepr(p);
      ServesAll(p);
      ghost var before := Names().Keys;
      label found:
      node.end := true;
      node.name := name;
      MarkedTree@found(node, p, name);
      MarkedNames@found(node, p, name);
      MarkServes(before, p);
    }

    /** Registers `name` under the shape of `path`; the result says whether the path has sections. */
    method Put(path: string, name: string) returns (ok: bool)
      requires Valid()
      modifies this, repr
      ensures Valid() && old(repr) <= repr && fresh(repr - old(repr))
      ensures Table() == Register(old(Table()), path, name)
      ensures ok <==> UrlSections(path) != []
    {
      hide IsTree, Names, VarNames, Serves, SectionsFrom, AllInRepr, HopOf, ShapeOf;
      var sections := Split(path, [], '/');
      assert sections == UrlSections(path);
      var node := entrys;
      Rooted();
      for k := 0 to |sections|
        invariant IsTree() && AllInRepr() && old(repr) <= repr && fresh(repr - old(repr))
        invariant ShapeOf(sections[..k]) in nodes && nodes[ShapeOf(sections[..k])] == node && node in repr
        invariant Serves(ShapeOf(sections[..k]))
        invariant Names() == old(Names())
        invariant VarNames() == AddVars(old(VarNames()), sections, k)
      {
        ghost var p := ShapeOf(sections[..k]);
        ShapeSnoc(sections, k);
        node := Follow(node, p, sections[k]);
      }
      assert sections[..|sections|] == sections;
      MarkEnd(node, ShapeOf(sections), name);
      return sections != [];
    }

    /** The positions of the tree are closed under taking prefixes. */
    lemma {:induction false} Above(p: Shape, q: Shape)
      requires IsTree() && q in nodes && p <= q
      ensures p in nodes
      decreases |q|
    {
      if |p| < |q| {
        assert q == q[..|q| - 1] + [q[|q| - 1]];
        Above(p, q[..|q| - 1]);
      } else {
        assert p == q;
      }
    }

    /** There is a node exactly where a registered route goes. */
    lemma NodesReach(p: Shape)
      requires Valid()
      ensures AllInRepr() && (p in nodes <==> Reaches(Names().Keys, p))
    {
      if p != [] && Reaches(Names().Keys, p) {
        var r :| r in Names().Keys && p <= r;
        Above(p, r);
      }
    }

    /** What one turn of the lookup sees at the node at `p`. */
    lemma Seen(p: Shape, section: string)
      requires Valid() && p in nodes
      ensures AllInRepr()
      ensures section in nodes[p].nexts <==> Reaches(Names().Keys, p + [Lit(section)])
      ensures section in nodes[p].nexts ==>
        p + [Lit(section)] in nodes && nodes[p].nexts[section] == nodes[p + [Lit(section)]]
      ensures nodes[p].varNode != null <==> Reaches(Names().Keys, p + [Var])
      ensures nodes[p].varNode != null ==>
        && p + [Var] in nodes && nodes[p].varNode == nodes[p + [Var]]
        && p in VarNames() && VarNames()[p] == nodes[p].varName
    {
      hide Reaches;
      NodesReach(p + [Lit(section)]);
      NodesReach(p + [Var]);
      assert nodes[p].Child(Lit(section)) == NodeAt(p + [Lit(section)]);
      assert nodes[p].Child(Var) == NodeAt(p + [Var]);
    }

    lemma NamesHere(p: Shape)
      requires Valid() && p in nodes
      ensures AllInRepr()
      ensures nodes[p].end <==> p in Names()
      ensures nodes[p].end ==> nodes[p].name == Names()[p]
    {
    }

    /**
     Looks a path up. Without a route the name stays as it was, but the values bound on the way
     remain.
     */
    method FetchVars(path: string, name: string, vals: map<string, string>)
        returns (ok: bool, found: string, bound: map<string, string>)
      requires Valid()
      ensures ok <==> Finds(Table().names.Keys, UrlSections(path))
      ensures ok ==> found == Table().names[GreedyPath(Table().names.Keys, UrlSections(path), [])]
      ensures !ok ==> found == name
      ensures bound == BindShape(vals, GreedyPath(Table().names.Keys, UrlSections(path), []), UrlSections(path),
                                 Table().vars)
    {
      hide IsTree, Names, VarNames, SectionsFrom, Reaches;
      Rooted();
      var sections := Split(path, [], '/');
      assert sections == UrlSections(path);
      found, bound := name, vals;
      var node := entrys;
      ghost var routes := Names().Keys;
      ghost var p: Shape := [];
      for k := 0 to |sections|
        invariant |p| == k && p in nodes && nodes[p] == node
        invariant GreedyPath(routes, sections, []) == GreedyPath(routes, sections, p)
        invariant bound == BindShape(vals, p, sections, VarNames())
      {
        Seen(p, sections[k]);
        assert (p + [Lit(sections[k])])[..k] == p && (p + [Var])[..k] == p;
        if sections[k] !in node.nexts {
          if node.varNode == null {
            return false, found, bound;
          }
          bound := Emplace(bound, node.varName, sections[k]);
          node := node.varNode;
          p := p + [Var];
        } else {
          node := node.nexts[sections[k]];
          p := p + [Lit(sections[k])];
        }
      }
      NamesHere(p);
      if node.end {
        return true, node.name, bound;
      }
      return false, found, bound;
    }
  }
}
