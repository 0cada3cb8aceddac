/**
 When the route trie binds what the pattern matcher binds: the trie keeps one variable name at each
 position, the first that was registered there.
 */
module RouteNames {
  import opened Routes
  import opened Splitting
  import opened UrlPattern

  /** The names that the trie has along a pattern, by position in the pattern. */
  function NamesAlong(pattern: seq<string>, vars: map<Shape, string>): map<nat, string> {
    var r := ShapeOf(pattern);
    map k: nat | k < |pattern| && r[k] == Var && r[..k] in vars :: vars[r[..k]]
  }

  lemma {:induction false} BindAlong(pattern: seq<string>, secs: seq<string>, vars: map<Shape, string>, n: nat)
    requires n <= |pattern| == |secs|
    ensures BindShape(map[], ShapeOf(pattern)[..n], secs, vars)
            == BindFrom(map[], secs[..n], NamesAlong(pattern, vars), 0)
  {
    var r := ShapeOf(pattern);
    if n == 0 {
    } else {
      BindAlong(pattern, secs, vars, n - 1);
      assert r[..n][..n - 1] == r[..n - 1];
      assert secs[..n] == secs[..n - 1] + [secs[n - 1]];
      BindFromSnoc(map[], secs[..n - 1], secs[n - 1], NamesAlong(pattern, vars), 0);
    }
  }

  /** Every position at which a pattern has a variable has some name. */
  lemma {:induction false} PositionIsNamed(puts: seq<Put>, i: nat, p: Shape)
    requires i < |puts| && NamesAt(puts, i, p)
    ensures p in RegisterAll(puts).vars
    decreases |puts|
  {
    var n := |puts| - 1;
    var init := puts[..n];
    var secs := UrlSections(puts[n].path);
    AddVarsExact(RegisterAll(init).vars, secs, |secs|, p);
    if i < n {
      assert NamesAt(init, i, p);
      PositionIsNamed(init, i, p);
    }
  }

  lemma SamePositions(puts: seq<Put>, i: nat)
    requires i < |puts| && ExplodedPath(puts[i].path).ok
    ensures NamesAlong(SectionsOf(puts, i), RegisterAll(puts).vars).Keys == VarsOf(SectionsOf(puts, i)).Keys
  {
    hide RegisterAll, ExplodedPath, UrlSections;
    var pattern := SectionsOf(puts, i);
    forall k: nat | k < |pattern|
      ensures k in NamesAlong(pattern, RegisterAll(puts).vars) <==> k in VarsOf(pattern)
    {
      AcceptedSection(puts[i].path, k);
      ShapeSnoc(pattern, k);
      if IsTrieVar(pattern[k]) {
        PositionIsNamed(puts, i, ShapeOf(pattern[..k]));
      }
    }
  }

  // ---------------------------------------------------------------------------------------
  // Names and what they bind
  // ---------------------------------------------------------------------------------------

  /** Every name has the same first position in both. */
  ghost predicate SameFirsts(a: map<nat, string>, b: map<nat, string>, hi: nat) {
    forall name, k: nat :: BindsFirst(a, name, 0, hi, k) <==> BindsFirst(b, name, 0, hi, k)
  }

  lemma SameFirstsBind(secs: seq<string>, a: map<nat, string>, b: map<nat, string>)
    requires SameFirsts(a, b, |secs|)
    ensures BindFrom(map[], secs, a, 0) == BindFrom(map[], secs, b, 0)
  {
    hide BindsFirst, BindFrom;
    forall name
      ensures name in BindFrom(map[], secs, a, 0) <==> name in BindFrom(map[], secs, b, 0)
      ensures name in BindFrom(map[], secs, a, 0) ==>
        BindFrom(map[], secs, a, 0)[name] == BindFrom(map[], secs, b, 0)[name]
    {
      BindFromExact(map[], secs, a, 0, name, |secs|);
      BindFromExact(map[], secs, b, 0, name, |secs|);
    }
  }

  /** Distinct values tell first positions apart. */
  lemma OtherFirstBinds(secs: seq<string>, a: map<nat, string>, b: map<nat, string>, name: string, k: nat)
    requires forall i, j | i in a && j in a && i < j < |secs| :: secs[i] != secs[j]
    requires a.Keys == b.Keys && BindsFirst(a, name, 0, |secs|, k) && !BindsFirst(b, name, 0, |secs|, k)
    ensures BindFrom(map[], secs, a, 0) != BindFrom(map[], secs, b, 0)
  {
    hide BindFrom;
    BindFromExact(map[], secs, a, 0, name, |secs|);
    BindFromExact(map[], secs, b, 0, name, |secs|);
    if name in BindFrom(map[], secs, b, 0) {
      var m: nat :| BindsFirst(b, name, 0, |secs|, m);
      assert secs[m] != secs[k];
    }
  }

  lemma OtherFirstsBind(secs: seq<string>, a: map<nat, string>, b: map<nat, string>)
    requires forall i, j | i in a && j in a && i < j < |secs| :: secs[i] != secs[j]
    requires a.Keys == b.Keys && !SameFirsts(a, b, |secs|)
    ensures BindFrom(map[], secs, a, 0) != BindFrom(map[], secs, b, 0)
  {
    var name, k: nat :| BindsFirst(a, name, 0, |secs|, k) != BindsFirst(b, name, 0, |secs|, k);
    if BindsFirst(a, name, 0, |secs|, k) {
      OtherFirstBinds(secs, a, b, name, k);
    } else {
      OtherFirstBinds(secs, b, a, name, k);
    }
  }

  // ---------------------------------------------------------------------------------------
  // A path that arrives at a pattern
  // ---------------------------------------------------------------------------------------

  lemma {:induction false} RouteOrigin(puts: seq<Put>, r: Shape) returns (j: nat)
    requires r in RegisterAll(puts).names
    ensures j < |puts| && r == ShapeOf(SectionsOf(puts, j))
    decreases |puts|
  {
    var n := |puts| - 1;
    if r == ShapeOf(SectionsOf(puts, n)) {
      j := n;
    } else {
      j := RouteOrigin(puts[..n], r);
      assert SectionsOf(puts, j) == SectionsOf(puts[..n], j);
    }
  }

  lemma {:induction false} RouteRegistered(puts: seq<Put>, i: nat)
    requires i < |puts|
    ensures ShapeOf(SectionsOf(puts, i)) in RegisterAll(puts).names
    decreases |puts|
  {
    var n := |puts| - 1;
    if i < n {
      RouteRegistered(puts[..n], i);
      assert SectionsOf(puts, i) == SectionsOf(puts[..n], i);
    }
  }

  /** No path that is registered is longer. */
  function Longest(puts: seq<Put>): (n: nat)
    ensures forall j | 0 <= j < |puts| :: |puts[j].path| <= n
  {
    if puts == [] then 0
    else
      var rest := Longest(puts[1..]);
      assert forall j | 1 <= j < |puts| :: puts[j] == puts[1..][j - 1];
      if |puts[0].path| > rest then |puts[0].path| else rest
  }

  lemma {:induction false} ShortSections(cur: string, rest: string)
    ensures forall sec | sec in SectionsFrom(cur, rest, '/') :: |sec| <= |cur| + |rest|
    decreases rest
  {
    if rest == [] {
    } else if rest[0] != '/' {
      ShortSections(cur + [rest[0]], rest[1..]);
    } else {
      ShortSections([], rest[1..]);
    }
  }

  /** The pattern's literals, and for its variables values longer than every literal, each of its own length. */
  function LongValues(pattern: seq<string>, n: nat): (secs: seq<string>)
    ensures |secs| == |pattern|
    ensures forall k | 0 <= k < |pattern| ::
      if IsTrieVar(pattern[k]) then secs[k] == Repeat('a', n + k + 1) && |secs[k]| == n + k + 1 else secs[k] == pattern[k]
  {
    seq(|pattern|, k requires 0 <= k < |pattern| =>
      if IsTrieVar(pattern[k]) then Repeat('a', n + k + 1) else pattern[k])
  }

  /** No registered route has a literal longer than every registered path. */
  lemma NoLongLiteral(puts: seq<Put>, p: Shape, text: string)
    requires |text| > Longest(puts)
    ensures !Reaches(RegisterAll(puts).names.Keys, p + [Lit(text)])
  {
    hide RegisterAll;
    forall r | r in RegisterAll(puts).names
      ensures !(p + [Lit(text)] <= r)
    {
      var j := RouteOrigin(puts, r);
      var secs := SectionsOf(puts, j);
      ShortSections([], puts[j].path);
      if |p| < |r| {
        assert secs[|p|] in secs;
        assert r[|p|] != Lit(text);
        assert (p + [Lit(text)])[|p|] == Lit(text);
      }
    }
  }

  /** The lookup of the path `secs` returns the `i`-th pattern's route. */
  ghost predicate Selects(puts: seq<Put>, i: nat, secs: seq<string>)
    requires i < |puts|
  {
    var routes := RegisterAll(puts).names.Keys;
    Finds(routes, secs) && GreedyPath(routes, secs, []) == ShapeOf(SectionsOf(puts, i))
  }

  lemma LongValuesSelect(puts: seq<Put>, i: nat)
    requires i < |puts|
    ensures Selects(puts, i, LongValues(SectionsOf(puts, i), Longest(puts)))
  {
    hide RegisterAll, GreedyPath, UrlSections, Reaches;
    var pattern := SectionsOf(puts, i);
    var secs := LongValues(pattern, Longest(puts));
    var routes, r := RegisterAll(puts).names.Keys, ShapeOf(pattern);
    RouteRegistered(puts, i);
    forall k | 0 <= k < |r| && r[k] == Var
      ensures !Reaches(routes, r[..k] + [Lit(secs[k])])
    {
      NoLongLiteral(puts, r[..k], secs[k]);
    }
    LookupExact(routes, secs, r);
  }

  lemma RepeatFree(n: nat)
    requires n > 0
    ensures IsSection(Repeat('a', n), '/')
  {
    if n > 1 {
      RepeatFree(n - 1);
    }
  }

  /** Every list of sections is the sections of a path. */
  lemma PathOf(secs: seq<string>) returns (path: string)
    requires AreSections(secs)
    ensures UrlSections(path) == secs && !StartsBare(path)
  {
    var gaps := seq(|secs| + 1, k => 1);
    path := Spread(secs, gaps, '/');
    SectionsOfSpread(secs, gaps, '/');
  }

  /** What the trie binds for the path `secs` that arrives at the `i`-th pattern. */
  ghost function TrieBinds(puts: seq<Put>, i: nat, secs: seq<string>): map<string, string>
    requires i < |puts| && Selects(puts, i, secs)
  {
    BindShape(map[], ShapeOf(SectionsOf(puts, i)), secs, RegisterAll(puts).vars)
  }

  lemma TrieBindsAlong(puts: seq<Put>, i: nat, secs: seq<string>)
    requires i < |puts| && Selects(puts, i, secs)
    ensures |secs| == |SectionsOf(puts, i)|
    ensures TrieBinds(puts, i, secs) == BindFrom(map[], secs, NamesAlong(SectionsOf(puts, i), RegisterAll(puts).vars), 0)
  {
    hide RegisterAll, UrlSections;
    var pattern := SectionsOf(puts, i);
    BindAlong(pattern, secs, RegisterAll(puts).vars, |pattern|);
    assert ShapeOf(pattern)[..|pattern|] == ShapeOf(pattern) && secs[..|secs|] == secs;
  }

  /**
   What a lookup binds along any registered pattern, also one the pattern automaton rejects: every
   position in braces has the name of the first pattern with a variable there, only nothing among
   them, and a name is bound to the section at its first position.
   */
  lemma TrieBindsExact(puts: seq<Put>, i: nat, secs: seq<string>, name: string)
    requires i < |puts| && Selects(puts, i, secs)
    ensures var names := NamesAlong(SectionsOf(puts, i), RegisterAll(puts).vars);
      && |secs| == |SectionsOf(puts, i)|
      && (forall k: nat :: k in names <==> k < |secs| && IsTrieVar(SectionsOf(puts, i)[k]))
      && (name in TrieBinds(puts, i, secs) <==> exists k: nat :: BindsFirst(names, name, 0, |secs|, k))
      && forall k: nat | BindsFirst(names, name, 0, |secs|, k) :: TrieBinds(puts, i, secs)[name] == secs[k]
  {
    hide RegisterAll, UrlSections, TrieBinds, Selects, BindFrom;
    var pattern := SectionsOf(puts, i);
    var names := NamesAlong(pattern, RegisterAll(puts).vars);
    TrieBindsAlong(puts, i, secs);
    forall k: nat | k < |pattern|
      ensures k in names <==> IsTrieVar(pattern[k])
    {
      ShapeSnoc(pattern, k);
      if IsTrieVar(pattern[k]) {
        PositionIsNamed(puts, i, ShapeOf(pattern[..k]));
      }
    }
    BindFromExact(map[], secs, names, 0, name, |secs|);
  }

  /**
   The trie binds what the matcher binds, for every path that arrives at an accepted pattern, exactly
   when every name has the same first position in the pattern and along it in the trie.
   */
  lemma AgreementExact(puts: seq<Put>, i: nat)
    requires i < |puts| && ExplodedPath(puts[i].path).ok
    ensures (forall path | Selects(puts, i, UrlSections(path)) ::
               TrieBinds(puts, i, UrlSections(path)) == FetchedPath(path, ExplodedPath(puts[i].path).vars))
            <==> SameFirsts(NamesAlong(SectionsOf(puts, i), RegisterAll(puts).vars), ExplodedPath(puts[i].path).vars,
                            |SectionsOf(puts, i)|)
  {
    hide RegisterAll, UrlSections, TrieBinds, Selects, SameFirsts, NamesAlong, BindFrom;
    var pattern := SectionsOf(puts, i);
    var trie, own := NamesAlong(pattern, RegisterAll(puts).vars), ExplodedPath(puts[i].path).vars;
    SamePositions(puts, i);
    if SameFirsts(trie, own, |pattern|) {
      forall path | Selects(puts, i, UrlSections(path))
        ensures TrieBinds(puts, i, UrlSections(path)) == FetchedPath(path, own)
      {
        TrieBindsAlong(puts, i, UrlSections(path));
        SameFirstsBind(UrlSections(path), trie, own);
      }
    } else {
      var path := TellingPath(puts, i);
      TrieBindsAlong(puts, i, UrlSections(path));
      OtherFirstsBind(UrlSections(path), trie, own);
      assert TrieBinds(puts, i, UrlSections(path)) != FetchedPath(path, own);
    }
  }

  /** A path that arrives at the pattern with a value of its own at each variable. */
  lemma TellingPath(puts: seq<Put>, i: nat) returns (path: string)
    requires i < |puts| && ExplodedPath(puts[i].path).ok
    ensures Selects(puts, i, UrlSections(path)) && |UrlSections(path)| == |SectionsOf(puts, i)|
    ensures var vars, secs := ExplodedPath(puts[i].path).vars, UrlSections(path);
      forall j, k | j in vars && k in vars && j < k < |secs| :: secs[j] != secs[k]
  {
    hide RegisterAll, Selects, UrlSections;
    var pattern := SectionsOf(puts, i);
    var secs := LongValues(pattern, Longest(puts));
    LongValuesSelect(puts, i);
    forall k | 0 <= k < |secs|
      ensures IsSection(secs[k], '/')
    {
      RepeatFree(Longest(puts) + k + 1);
    }
    path := PathOf(secs);
    PatternAccepted(puts[i].path);
    forall k | 0 <= k < |pattern|
      ensures IsTrieVar(pattern[k]) <==> IsVariable(pattern[k])
    {
      AcceptedSection(puts[i].path, k);
    }
  }

  /** The patterns `/{a}/x` and `/{b}/y`, by their sections. */
  ghost predicate AreDifferentNames(puts: seq<Put>) {
    |puts| == 2 && SectionsOf(puts, 0) == ["{a}", "x"] && SectionsOf(puts, 1) == ["{b}", "y"] && !StartsBare(puts[1].path)
  }

  lemma TwoPuts(puts: seq<Put>)
    requires |puts| == 2
    ensures RegisterAll(puts) == Register(Register(EMPTY, puts[0].path, puts[0].name), puts[1].path, puts[1].name)
  {
    hide Register;
    assert puts[..1][..0] == [] && puts[..1][0] == puts[0];
    assert RegisterAll(puts[..1]) == Register(RegisterAll([]), puts[0].path, puts[0].name);
  }

  lemma TwoShapes()
    ensures ShapeOf(["{a}", "x"]) == [Var, Lit("x")] && ShapeOf(["{b}", "y"]) == [Var, Lit("y")]
  {
  }

  lemma TwoRoutes(puts: seq<Put>)
    requires AreDifferentNames(puts)
    ensures RegisterAll(puts).names.Keys == {[Var, Lit("x")], [Var, Lit("y")]}
    ensures [] in RegisterAll(puts).vars && RegisterAll(puts).vars[[]] == "a"
  {
    hide RegisterAll, AddVars, UrlSections, ShapeOf;
    TwoPuts(puts);
    TwoShapes();
    var first := UrlSections(puts[0].path);
    var second := UrlSections(puts[1].path);
    AddVarsExact(map[], first, 2, []);
    AddVarsExact(AddVars(map[], first, 2), second, 2, []);
    assert first[..0] == [] && ShapeOf([]) == [];
  }

  lemma TwoRoutesLookup(routes: set<Shape>)
    requires routes == {[Var, Lit("x")], [Var, Lit("y")]}
    ensures Finds(routes, ["1", "y"]) && GreedyPath(routes, ["1", "y"], []) == [Var, Lit("y")]
  {
    hide GreedyPath;
    var r, secs := [Var, Lit("y")], ["1", "y"];
    assert r in routes && Matches(r, secs);
    forall q | q in routes
      ensures !([Lit("1")] <= q)
    {
      assert q[0] == Var;
    }
    assert r[..0] + [Lit("1")] == [Lit("1")];
    assert SkipsNothing(routes, r, secs);
    LookupExact(routes, secs, r);
  }

  lemma TwoBindings(vars: map<Shape, string>)
    requires [] in vars && vars[[]] == "a"
    ensures BindShape(map[], [Var, Lit("y")], ["1", "y"], vars) == map["a" := "1"]
    ensures BindFrom(map[], ["1", "y"], map[0 := "b"], 0) == map["b" := "1"]
  {
    var r: Shape, secs := [Var, Lit("y")], ["1", "y"];
    assert r[..1] == [Var] && [Var][..0] == [];
    assert BindShape(map[], [Var], secs, vars) == map["a" := "1"] by {
      assert BindShape(map[], [], secs, vars) == map[];
    }
    assert secs[1..] == ["y"] && ["y"][1..] == [];
    assert BindFrom(map["b" := "1"], ["y"], map[0 := "b"], 1) == BindFrom(map["b" := "1"], [], map[0 := "b"], 2);
  }

  lemma SecondNames(path: string)
    requires UrlSections(path) == ["{b}", "y"] && !StartsBare(path)
    ensures ExplodedPath(path).ok && ExplodedPath(path).vars == map[0 := "b"]
  {
    hide UrlSections;
    PatternAccepted(path);
    assert IsVariable("{b}") && VariableName("{b}") == "b" && !IsVariable("y") && IsBraceFree("y");
    hide IsVariable, IsBraceFree, SectionErr;
    assert ExplodedPath(path).vars.Keys == {0};
  }

  /** Two patterns: `/1/y` arrives at `/{b}/y`, but gets the name `a` from the trie and `b` from its own pattern. */
  lemma DifferentNames() returns (puts: seq<Put>)
    ensures AreDifferentNames(puts) && Selects(puts, 1, ["1", "y"]) && ExplodedPath(puts[1].path).ok
    ensures TrieBinds(puts, 1, ["1", "y"]) == map["a" := "1"]
    ensures BindFrom(map[], ["1", "y"], ExplodedPath(puts[1].path).vars, 0) == map["b" := "1"]
  {
    hide RegisterAll, UrlSections, GreedyPath, BindShape, BindFrom, ShapeOf, ExplodedPath, StartsBare;
    var first := PathOf(["{a}", "x"]);
    var second := PathOf(["{b}", "y"]);
    puts := [Put(first, "first"), Put(second, "second")];
    TwoRoutes(puts);
    TwoShapes();
    TwoRoutesLookup(RegisterAll(puts).names.Keys);
    TwoBindings(RegisterAll(puts).vars);
    SecondNames(second);
  }
}
