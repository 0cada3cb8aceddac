/** The route trie over its whole life: a run of `put`, and the lookups that follow. */
module Routing {
  import opened RouteNames
  import opened Routes
  import opened UrlPattern
  import T = UrlTrie

  /** A trie filled by one `put` after the other holds the table of all of them. */
  method Fill(puts: seq<Put>) returns (trie: T.UrlTrie)
    ensures trie.Valid() && fresh(trie) && fresh(trie.repr) && trie.Table() == RegisterAll(puts)
  {
    hide T.UrlTrie.Table, Register;
    trie := new T.UrlTrie();
    for i := 0 to |puts|
      invariant trie.Valid() && fresh(trie) && fresh(trie.repr) && trie.Table() == RegisterAll(puts[..i])
    {
      assert puts[..i + 1][..i] == puts[..i];
      var _ := trie.Put(puts[i].path, puts[i].name);
    }
    assert puts[..|puts|] == puts;
  }

  /** No later pattern has the shape of the `i`-th. */
  ghost predicate IsNewest(puts: seq<Put>, i: nat) {
    i < |puts| &&
    forall j: nat | i < j < |puts| :: ShapeOf(SectionsOf(puts, j)) != ShapeOf(SectionsOf(puts, i))
  }

  lemma {:induction false} NewestOf(puts: seq<Put>, r: Shape) returns (i: nat)
    requires r in RegisterAll(puts).names
    ensures IsNewest(puts, i) && ShapeOf(SectionsOf(puts, i)) == r && RegisterAll(puts).names[r] == puts[i].name
    decreases |puts|
  {
    hide ShapeOf, UrlSections;
    var n := |puts| - 1;
    if r == ShapeOf(SectionsOf(puts, n)) {
      i := n;
    } else {
      i := NewestOf(puts[..n], r);
      assert forall j: nat | j < n :: SectionsOf(puts[..n], j) == SectionsOf(puts, j);
    }
    NewestWins(puts, i);
  }

  /**
   Registering patterns and looking a path up: the result is the newest pattern of the one shape that
   matches the path and takes a variable only where no pattern has the literal, with the bindings of
   the trie; without such a shape nothing is found.
   */
  method Route(puts: seq<Put>, path: string) returns (ok: bool, name: string, vals: map<string, string>)
    ensures ok <==> exists r ::
      && r in RegisterAll(puts).names && Matches(r, UrlSections(path))
      && SkipsNothing(RegisterAll(puts).names.Keys, r, UrlSections(path))
    ensures ok ==> exists i: nat ::
      && IsNewest(puts, i) && Selects(puts, i, UrlSections(path))
      && name == puts[i].name && vals == TrieBinds(puts, i, UrlSections(path))
  {
    hide T.UrlTrie.Valid, RegisterAll, GreedyPath, BindShape, ShapeOf, UrlSections, SkipsNothing, Fits;
    var trie := Fill(puts);
    ok, name, vals := trie.FetchVars(path, "", map[]);
    ghost var secs, routes := UrlSections(path), RegisterAll(puts).names.Keys;
    ghost var r := GreedyPath(routes, secs, []);
    forall q
      ensures Finds(routes, secs) && r == q <==> q in routes && Matches(q, secs) && SkipsNothing(routes, q, secs)
    {
      LookupExact(routes, secs, q);
    }
    if ok {
      ghost var i := NewestOf(puts, r);
      assert Selects(puts, i, secs);
    }
  }
}
