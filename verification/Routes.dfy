/**
 Routing as a relation between registered routes and paths: what the trie of var_pattern.cpp is
 meant to compute, without the trie.
 */
module Routes {
  import opened Splitting
  import opened UrlPattern

  /** One level of a route: a literal section, or a variable. */
  datatype Hop = Lit(text: string) | Var

  type Shape = seq<Hop>

  /** A section the trie takes for a variable: it begins and ends with the braces. */
  predicate IsTrieVar(sec: string) {
    |sec| >= 2 && sec[0] == '{' && sec[|sec| - 1] == '}'
  }

  function HopOf(sec: string): Hop {
    if IsTrieVar(sec) then Var else Lit(sec)
  }

  /** A section in braces is a variable named by what is between them, if only nothing; any other is a literal. */
  lemma HopExact(sec: string, name: string)
    ensures sec == "{" + name + "}" ==> HopOf(sec) == Var && VariableName(sec) == name
    ensures HopOf(sec) == Var ==> |sec| >= 2 && sec == "{" + VariableName(sec) + "}"
    ensures HopOf(sec) != Var ==> HopOf(sec) == Lit(sec)
  {
    assert sec == "{" + name + "}" ==> VariableName(sec) == name;
  }

  function ShapeOf(secs: seq<string>): (p: Shape)
    ensures |p| == |secs|
    ensures forall i | 0 <= i < |secs| :: p[i] == HopOf(secs[i])
  {
    seq(|secs|, i requires 0 <= i < |secs| => HopOf(secs[i]))
  }

  lemma ShapeSnoc(secs: seq<string>, k: nat)
    requires k < |secs|
    ensures ShapeOf(secs[..k + 1]) == ShapeOf(secs[..k]) + [HopOf(secs[k])]
    ensures ShapeOf(secs)[..k] == ShapeOf(secs[..k])
  {
  }

  // ---------------------------------------------------------------------------------------
  // Registering
  // ---------------------------------------------------------------------------------------

  /** The registered names by shape, and the variable names by the position they stand at. */
  datatype Table = Table(names: map<Shape, string>, vars: map<Shape, string>)

  const EMPTY := Table(map[], map[])

  /** A section that is a variable names its position, unless the position has a name. */
  function AddVar(vars: map<Shape, string>, p: Shape, sec: string): map<Shape, string> {
    if IsTrieVar(sec) then Emplace(vars, p, VariableName(sec)) else vars
  }

  /** The names that the first `k` sections give. */
  function AddVars(vars: map<Shape, string>, secs: seq<string>, k: nat): map<Shape, string>
    requires k <= |secs|
  {
    if k == 0 then vars else AddVar(AddVars(vars, secs, k - 1), ShapeOf(secs[..k - 1]), secs[k - 1])
  }

  function Register(t: Table, path: string, name: string): Table {
    var secs := UrlSections(path);
    Table(t.names[ShapeOf(secs) := name], AddVars(t.vars, secs, |secs|))
  }

  datatype Put = Put(path: string, name: string)

  function RegisterAll(puts: seq<Put>): Table {
    if puts == [] then EMPTY
    else
      var last := puts[|puts| - 1];
      Register(RegisterAll(puts[..|puts| - 1]), last.path, last.name)
  }

  // ---------------------------------------------------------------------------------------
  // Looking up
  // ---------------------------------------------------------------------------------------

  /** Some registered route goes through `p`. */
  ghost predicate Reaches(routes: set<Shape>, p: Shape) {
    p == [] || exists r :: r in routes && p <= r
  }

  /** How far the lookup gets from `p`: it takes a literal branch whenever there is one. */
  ghost function GreedyPath(routes: set<Shape>, secs: seq<string>, p: Shape): (g: Shape)
    requires |p| <= |secs|
    ensures p <= g && |g| <= |secs|
    decreases |secs| - |p|
  {
    if |p| == |secs| then p
    else if Reaches(routes, p + [Lit(secs[|p|])]) then GreedyPath(routes, secs, p + [Lit(secs[|p|])])
    else if Reaches(routes, p + [Var]) then GreedyPath(routes, secs, p + [Var])
    else p
  }

  /** The lookup succeeds: it gets to the end, at a registered route. */
  ghost predicate Finds(routes: set<Shape>, secs: seq<string>) {
    |GreedyPath(routes, secs, [])| == |secs| && GreedyPath(routes, secs, []) in routes
  }

  /** The values bound along `p`; the first binding of a name stays. */
  function BindShape(vals: map<string, string>, p: Shape, secs: seq<string>,
                     vars: map<Shape, string>): map<string, string>
    requires |p| <= |secs|
  {
    if p == [] then vals
    else
      var n := |p| - 1;
      var before := BindShape(vals, p[..n], secs, vars);
      if p[n].Var? && p[..n] in vars then Emplace(before, vars[p[..n]], secs[n]) else before
  }

  // ---------------------------------------------------------------------------------------
  // What a successful lookup returns
  // ---------------------------------------------------------------------------------------

  /** The path takes the route's literals literally, section by section. */
  predicate Fits(p: Shape, secs: seq<string>) {
    |p| <= |secs| && forall i | 0 <= i < |p| :: p[i] == Var || p[i] == Lit(secs[i])
  }

  predicate Matches(r: Shape, secs: seq<string>) {
    |r| == |secs| && Fits(r, secs)
  }

  /** A variable of `p` is taken only where no registered route has the literal. */
  ghost predicate SkipsNothing(routes: set<Shape>, p: Shape, secs: seq<string>)
    requires |p| <= |secs|
  {
    forall i | 0 <= i < |p| && p[i] == Var :: !Reaches(routes, p[..i] + [Lit(secs[i])])
  }

  /** `r` comes before `q`: at the first place where they differ, `r` has the literal. */
  ghost predicate Before(r: Shape, q: Shape) {
    r == q || exists k: nat :: k < |r| && k < |q| && r[..k] == q[..k] && r[k].Lit? && q[k].Var?
  }

  lemma ReachesPrefix(routes: set<Shape>, p: Shape, q: Shape)
    requires p <= q && Reaches(routes, q)
    ensures Reaches(routes, p)
  {
    if q != [] {
      var r :| r in routes && q <= r;
      assert p <= r;
    }
  }

  lemma {:induction false} GreedyIsHonest(routes: set<Shape>, secs: seq<string>, p: Shape)
    requires Fits(p, secs) && SkipsNothing(routes, p, secs)
    ensures var g := GreedyPath(routes, secs, p); Fits(g, secs) && SkipsNothing(routes, g, secs)
    decreases |secs| - |p|
  {
    if |p| < |secs| {
      var lit := p + [Lit(secs[|p|])];
      if Reaches(routes, lit) {
        assert forall i | 0 <= i < |p| :: lit[..i] == p[..i];
        GreedyIsHonest(routes, secs, lit);
      } else if Reaches(routes, p + [Var]) {
        var next := p + [Var];
        assert forall i | 0 <= i < |p| :: next[..i] == p[..i];
        assert next[..|p|] == p;
        GreedyIsHonest(routes, secs, next);
      }
    }
  }

  lemma GreedyStep(routes: set<Shape>, secs: seq<string>, p: Shape, hop: Hop)
    requires |p| < |secs| && Reaches(routes, p + [hop])
    requires hop == Lit(secs[|p|]) || (hop == Var && !Reaches(routes, p + [Lit(secs[|p|])]))
    ensures GreedyPath(routes, secs, p) == GreedyPath(routes, secs, p + [hop])
  {
  }

  /** The lookup follows every route that skips nothing. */
  lemma {:induction false} GreedyFollows(routes: set<Shape>, secs: seq<string>, p: Shape, q: Shape)
    requires p <= q && Fits(q, secs) && Reaches(routes, q) && SkipsNothing(routes, q, secs)
    ensures q <= GreedyPath(routes, secs, p)
    decreases |q| - |p|
  {
    hide GreedyPath, Reaches;
    if |p| < |q| {
      var n := |p|;
      var next := p + [q[n]];
      assert q[..n] == p && q[..n + 1] == next;
      ReachesPrefix(routes, next, q);
      GreedyFollows(routes, secs, next, q);
      GreedyStep(routes, secs, p, q[n]);
    }
  }

  /**
   Exactly when the lookup returns a route: the route is registered, matches the path, and never
   takes a variable where some registered route goes on with the literal.
   */
  lemma LookupExact(routes: set<Shape>, secs: seq<string>, r: Shape)
    ensures Finds(routes, secs) && GreedyPath(routes, secs, []) == r
            <==> r in routes && Matches(r, secs) && SkipsNothing(routes, r, secs)
  {
    GreedyIsHonest(routes, secs, []);
    if r in routes && Matches(r, secs) && SkipsNothing(routes, r, secs) {
      assert r <= r;
      GreedyFollows(routes, secs, [], r);
      assert GreedyPath(routes, secs, []) == r;
    }
  }

  lemma FirstDifference(r: Shape, q: Shape) returns (k: nat)
    requires |r| == |q| && r != q
    ensures k < |r| && r[..k] == q[..k] && r[k] != q[k]
  {
    k := 0;
    while r[k] == q[k]
      invariant k < |r| && r[..k] == q[..k]
      decreases |r| - k
    {
      assert k + 1 == |r| ==> r == q;
      k := k + 1;
    }
  }

  /** The route returned is the least of all that match: a literal comes before a variable. */
  lemma LookupLeast(routes: set<Shape>, secs: seq<string>, q: Shape)
    requires Finds(routes, secs)
    requires q in routes && Matches(q, secs)
    ensures Before(GreedyPath(routes, secs, []), q)
  {
    hide GreedyPath;
    var r := GreedyPath(routes, secs, []);
    LookupExact(routes, secs, r);
    if r != q {
      var k := FirstDifference(r, q);
      var through := q[..k] + [q[k]];
      assert through == q[..k + 1] && through <= q;
      assert Reaches(routes, through);
    }
  }

  // ---------------------------------------------------------------------------------------
  // Why a lookup can fail
  // ---------------------------------------------------------------------------------------

  ghost predicate SomeMatch(routes: set<Shape>, secs: seq<string>, p: Shape) {
    exists r :: r in routes && p <= r && Matches(r, secs)
  }

  /**
   At `p` the lookup is misled: some route goes on with the literal, but every matching route
   through `p` needs the variable.
   */
  ghost predicate Misleads(routes: set<Shape>, secs: seq<string>, p: Shape) {
    && |p| < |secs|
    && Fits(p, secs) && SkipsNothing(routes, p, secs)
    && SomeMatch(routes, secs, p)
    && Reaches(routes, p + [Lit(secs[|p|])])
    && !SomeMatch(routes, secs, p + [Lit(secs[|p|])])
  }

  lemma SomeMatchReaches(routes: set<Shape>, secs: seq<string>, p: Shape)
    requires SomeMatch(routes, secs, p)
    ensures Reaches(routes, p)
  {
  }

  lemma Onward(routes: set<Shape>, secs: seq<string>, p: Shape, hop: Hop)
    requires Fits(p, secs) && SkipsNothing(routes, p, secs) && |p| < |secs|
    requires hop == Lit(secs[|p|]) || (hop == Var && !Reaches(routes, p + [Lit(secs[|p|])]))
    ensures Fits(p + [hop], secs) && SkipsNothing(routes, p + [hop], secs)
  {
    var next := p + [hop];
    assert forall i | 0 <= i < |p| :: next[..i] == p[..i];
    assert next[..|p|] == p;
  }

  lemma {:induction false} FindMisleading(routes: set<Shape>, secs: seq<string>, p: Shape) returns (q: Shape)
    requires Fits(p, secs) && SkipsNothing(routes, p, secs) && SomeMatch(routes, secs, p)
    requires !(|GreedyPath(routes, secs, p)| == |secs| && GreedyPath(routes, secs, p) in routes)
    ensures Misleads(routes, secs, q)
    decreases |secs| - |p|
  {
    var m :| m in routes && p <= m && Matches(m, secs);
    assert |p| < |secs| by {
      assert |p| == |secs| ==> m == p;
    }
    var n := |p|;
    var lit, other := p + [Lit(secs[n])], p + [Var];
    assert m[..n + 1] == p + [m[n]];
    if Reaches(routes, lit) {
      Onward(routes, secs, p, Lit(secs[n]));
      if SomeMatch(routes, secs, lit) {
        q := FindMisleading(routes, secs, lit);
      } else {
        q := p;
      }
    } else {
      assert m[..n + 1] <= m;
      assert m[..n + 1] == other;
      Onward(routes, secs, p, Var);
      q := FindMisleading(routes, secs, other);
    }
  }

  /** When some registered route matches, the lookup fails exactly when it is misled somewhere. */
  lemma LookupFails(routes: set<Shape>, secs: seq<string>)
    requires SomeMatch(routes, secs, [])
    ensures !Finds(routes, secs) <==> exists p :: Misleads(routes, secs, p)
  {
    if !Finds(routes, secs) {
      var p := FindMisleading(routes, secs, []);
    }
    if exists p :: Misleads(routes, secs, p) {
      var p :| Misleads(routes, secs, p);
      var lit := p + [Lit(secs[|p|])];
      SomeMatchReaches(routes, secs, p);
      GreedyFollows(routes, secs, [], p);
      GreedyThrough(routes, secs, [], p);
      GreedyIsHonest(routes, secs, []);
      assert lit <= GreedyPath(routes, secs, []);
    }
  }

  lemma GreedyNext(routes: set<Shape>, secs: seq<string>, p: Shape)
    requires |p| < |secs| && |p| < |GreedyPath(routes, secs, p)|
    ensures var g := GreedyPath(routes, secs, p); GreedyPath(routes, secs, g[..|p| + 1]) == g
  {
    var g := GreedyPath(routes, secs, p);
    if Reaches(routes, p + [Lit(secs[|p|])]) {
      assert p + [Lit(secs[|p|])] == g[..|p| + 1];
    } else {
      assert p + [Var] == g[..|p| + 1];
    }
  }

  /** The lookup goes on from a place it passes as if it had started there. */
  lemma {:induction false} GreedyThrough(routes: set<Shape>, secs: seq<string>, p: Shape, q: Shape)
    requires |p| <= |q| <= |secs|
    requires p <= q <= GreedyPath(routes, secs, p)
    ensures GreedyPath(routes, secs, p) == GreedyPath(routes, secs, q)
    decreases |q| - |p|
  {
    if |p| < |q| {
      var g := GreedyPath(routes, secs, p);
      var next := g[..|p| + 1];
      assert g[..|p|] == p;
      GreedyNext(routes, secs, p);
      assert next == q[..|p| + 1];
      GreedyThrough(routes, secs, next, q);
    } else {
      assert p == q;
    }
  }

  lemma ThreeSections(a: string, b: string, c: string)
    requires IsSection(a, '/') && IsSection(b, '/') && IsSection(c, '/')
    ensures UrlSections("/" + (a + ("/" + (b + ("/" + c))))) == [a, b, c]
  {
    var path := "/" + (a + ("/" + (b + ("/" + c))));
    var secs, gaps := [a, b, c], [1, 1, 1, 0];
    SectionsOfSpread(secs, gaps, '/');
    assert secs[1..] == [b, c] && [b, c][1..] == [c] && [c][1..] == [];
    assert gaps[1..] == [1, 1, 0] && [1, 1, 0][1..] == [1, 0] && [1, 0][1..] == [0];
    assert Repeat('/', 0) == "" && Repeat('/', 1) == "/";
    assert Spread([], [0], '/') == "";
    assert Spread([c], [1, 0], '/') == "/" + c;
    assert Spread([b, c], [1, 1, 0], '/') == "/" + (b + ("/" + c));
    assert Spread(secs, gaps, '/') == path;
  }

  /** The comment's own example: `/aa/bb/cc` against `/aa/{}/dd` and `/{}/bb/cc`. */
  const MISLEADING: seq<Put> := [Put("/aa/{}/dd", "dd"), Put("/{}/bb/cc", "cc")]

  lemma MisleadingRoutes()
    ensures RegisterAll(MISLEADING).names.Keys == {[Lit("aa"), Var, Lit("dd")], [Var, Lit("bb"), Lit("cc")]}
    ensures UrlSections("/aa/bb/cc") == ["aa", "bb", "cc"]
  {
    hide UrlSections, AddVars;
    ThreeSections("aa", "{}", "dd");
    ThreeSections("{}", "bb", "cc");
    ThreeSections("aa", "bb", "cc");
    assert "/" + ("aa" + ("/" + ("{}" + ("/" + "dd")))) == "/aa/{}/dd";
    assert "/" + ("{}" + ("/" + ("bb" + ("/" + "cc")))) == "/{}/bb/cc";
    assert "/" + ("aa" + ("/" + ("bb" + ("/" + "cc")))) == "/aa/bb/cc";
    assert ShapeOf(["aa", "{}", "dd"]) == [Lit("aa"), Var, Lit("dd")];
    assert ShapeOf(["{}", "bb", "cc"]) == [Var, Lit("bb"), Lit("cc")];
    assert MISLEADING[..1] == [MISLEADING[0]] && MISLEADING[..1][..0] == [];
    assert RegisterAll([MISLEADING[0]]).names.Keys == {[Lit("aa"), Var, Lit("dd")]};
  }

  lemma MisledExample()
    ensures var routes, secs := RegisterAll(MISLEADING).names.Keys, UrlSections("/aa/bb/cc");
            SomeMatch(routes, secs, []) && !Finds(routes, secs)
  {
    hide UrlSections, RegisterAll;
    MisleadingRoutes();
    var secs := ["aa", "bb", "cc"];
    var dd, cc: Shape := [Lit("aa"), Var, Lit("dd")], [Var, Lit("bb"), Lit("cc")];
    var routes := {dd, cc};
    var p: Shape := [];
    assert [Lit("aa")] == dd[..1];
    assert p + [Lit("aa")] == [Lit("aa")];
    assert Reaches(routes, p + [Lit("aa")]) by {
      assert dd in routes && [Lit("aa")] <= dd;
    }
    assert p <= cc && Matches(cc, secs);
    assert SomeMatch(routes, secs, p);
    assert !SomeMatch(routes, secs, p + [Lit("aa")]) by {
      assert !Matches(dd, secs) by {
        assert dd[2] != Lit(secs[2]);
      }
      assert cc[0] != Lit("aa");
    }
    assert Misleads(routes, secs, p);
    LookupFails(routes, secs);
  }

  // ---------------------------------------------------------------------------------------
  // Agreement with the pattern matcher
  // ---------------------------------------------------------------------------------------

  function SectionsOf(puts: seq<Put>, i: nat): seq<string>
    requires i < |puts|
  {
    UrlSections(puts[i].path)
  }

  /** The `i`-th pattern has a variable at position `p`. */
  predicate NamesAt(puts: seq<Put>, i: nat, p: Shape)
    requires i < |puts|
  {
    var secs := SectionsOf(puts, i);
    |p| < |secs| && IsTrieVar(secs[|p|]) && ShapeOf(secs[..|p|]) == p
  }

  function NameAt(puts: seq<Put>, i: nat, p: Shape): string
    requires i < |puts| && NamesAt(puts, i, p)
  {
    VariableName(SectionsOf(puts, i)[|p|])
  }

  /** Patterns that have a variable at the same position give it the same name. */
  ghost predicate ShareNames(puts: seq<Put>) {
    forall i: nat, j: nat, p | i < |puts| && j < |puts| && NamesAt(puts, i, p) && NamesAt(puts, j, p) ::
      NameAt(puts, i, p) == NameAt(puts, j, p)
  }

  lemma {:induction false} AddVarsExact(vars: map<Shape, string>, secs: seq<string>, k: nat, p: Shape)
    requires k <= |secs|
    ensures var result := AddVars(vars, secs, k);
            var named := |p| < k && IsTrieVar(secs[|p|]) && ShapeOf(secs[..|p|]) == p;
            && (p in result <==> p in vars || named)
            && (p in vars ==> result[p] == vars[p])
            && (p !in vars && named ==> result[p] == VariableName(secs[|p|]))
  {
    if k == 0 {
    } else {
      AddVarsExact(vars, secs, k - 1, p);
    }
  }

  /** Every name in the table comes from a pattern. */
  lemma {:induction false} NameOrigin(puts: seq<Put>, p: Shape) returns (i: nat)
    requires p in RegisterAll(puts).vars
    ensures i < |puts| && NamesAt(puts, i, p) && NameAt(puts, i, p) == RegisterAll(puts).vars[p]
    decreases |puts|
  {
    var n := |puts| - 1;
    var init := puts[..n];
    var secs := UrlSections(puts[n].path);
    AddVarsExact(RegisterAll(init).vars, secs, |secs|, p);
    if p in RegisterAll(init).vars {
      i := NameOrigin(init, p);
      assert SectionsOf(puts, i) == SectionsOf(init, i);
    } else {
      i := n;
    }
  }

  /** With shared names, the table names every position as each pattern does. */
  lemma {:induction false} TableNames(puts: seq<Put>, i: nat, p: Shape)
    requires ShareNames(puts) && i < |puts| && NamesAt(puts, i, p)
    ensures p in RegisterAll(puts).vars && RegisterAll(puts).vars[p] == NameAt(puts, i, p)
    decreases |puts|
  {
    var n := |puts| - 1;
    var init := puts[..n];
    var secs := UrlSections(puts[n].path);
    AddVarsExact(RegisterAll(init).vars, secs, |secs|, p);
    if i < n {
      assert ShareNames(init) by {
        forall i: nat, j: nat, q | i < |init| && j < |init| && NamesAt(init, i, q) && NamesAt(init, j, q)
          ensures NameAt(init, i, q) == NameAt(init, j, q)
        {
          assert NamesAt(puts, i, q) && NamesAt(puts, j, q);
        }
      }
      assert NamesAt(init, i, p);
      TableNames(init, i, p);
    }
    var j := NameOrigin(puts, p);
  }

  /** A position keeps the name of the first pattern that has a variable there. */
  lemma {:induction false} FirstNames(puts: seq<Put>, i: nat, p: Shape)
    requires i < |puts| && NamesAt(puts, i, p) && forall j: nat | j < i :: !NamesAt(puts, j, p)
    ensures p in RegisterAll(puts).vars && RegisterAll(puts).vars[p] == NameAt(puts, i, p)
    decreases |puts|
  {
    hide ShapeOf, UrlSections;
    var n := |puts| - 1;
    var init := puts[..n];
    var secs := UrlSections(puts[n].path);
    AddVarsExact(RegisterAll(init).vars, secs, |secs|, p);
    forall j: nat | j < n
      ensures NamesAt(init, j, p) == NamesAt(puts, j, p)
    {
    }
    if i < n {
      FirstNames(init, i, p);
    } else if p in RegisterAll(init).vars {
      var j := NameOrigin(init, p);
    }
  }

  /** Of the patterns with one shape, the newest gives the name. */
  lemma {:induction false} NewestWins(puts: seq<Put>, i: nat)
    requires i < |puts|
    requires forall j: nat | i < j < |puts| :: ShapeOf(SectionsOf(puts, j)) != ShapeOf(SectionsOf(puts, i))
    ensures var r := ShapeOf(SectionsOf(puts, i));
            r in RegisterAll(puts).names && RegisterAll(puts).names[r] == puts[i].name
    decreases |puts|
  {
    var n := |puts| - 1;
    if i < n {
      var init := puts[..n];
      assert forall j: nat | j < n :: SectionsOf(init, j) == SectionsOf(puts, j);
      NewestWins(init, i);
      assert ShapeOf(SectionsOf(puts, n)) != ShapeOf(SectionsOf(puts, i));
    }
  }

  lemma {:induction false} BindFromSnoc(vals: map<string, string>, secs: seq<string>, last: string,
                                        vars: map<nat, string>, idx: nat)
    ensures BindFrom(vals, secs + [last], vars, idx)
            == BindOne(BindFrom(vals, secs, vars, idx), last, vars, idx + |secs|)
    decreases secs
  {
    if secs == [] {
      assert ([] + [last])[1..] == [];
    } else {
      assert (secs + [last])[1..] == secs[1..] + [last];
      BindFromSnoc(BindOne(vals, secs[0], vars, idx), secs[1..], last, vars, idx + 1);
    }
  }

  /** The trie names the variables of a pattern as the pattern does. */
  ghost predicate Agree(pattern: seq<string>, vars: map<Shape, string>) {
    forall k | 0 <= k < |pattern| ::
      && (IsTrieVar(pattern[k]) <==> IsVariable(pattern[k]))
      && (IsTrieVar(pattern[k]) ==>
          ShapeOf(pattern)[..k] in vars && vars[ShapeOf(pattern)[..k]] == VariableName(pattern[k]))
  }

  lemma {:induction false} BindAgrees(pattern: seq<string>, secs: seq<string>, vars: map<Shape, string>, n: nat)
    requires n <= |pattern| == |secs| && Agree(pattern, vars)
    ensures BindShape(map[], ShapeOf(pattern)[..n], secs, vars) == BindFrom(map[], secs[..n], VarsOf(pattern), 0)
  {
    var r := ShapeOf(pattern);
    if n == 0 {
    } else {
      BindAgrees(pattern, secs, vars, n - 1);
      assert r[..n][..n - 1] == r[..n - 1];
      assert secs[..n] == secs[..n - 1] + [secs[n - 1]];
      BindFromSnoc(map[], secs[..n - 1], secs[n - 1], VarsOf(pattern), 0);
    }
  }

  lemma AcceptedSection(path: string, k: nat)
    requires ExplodedPath(path).ok && k < |UrlSections(path)|
    ensures IsTrieVar(UrlSections(path)[k]) <==> IsVariable(UrlSections(path)[k])
  {
    PatternAccepted(path);
  }

  lemma AcceptedAgrees(puts: seq<Put>, i: nat)
    requires ShareNames(puts) && i < |puts| && ExplodedPath(puts[i].path).ok
    ensures Agree(SectionsOf(puts, i), RegisterAll(puts).vars)
  {
    hide RegisterAll, ShareNames, ExplodedPath, UrlSections;
    var pattern := SectionsOf(puts, i);
    forall k | 0 <= k < |pattern|
      ensures IsTrieVar(pattern[k]) <==> IsVariable(pattern[k])
      ensures IsTrieVar(pattern[k]) ==>
                var p := ShapeOf(pattern)[..k];
                p in RegisterAll(puts).vars && RegisterAll(puts).vars[p] == VariableName(pattern[k])
    {
      AcceptedSection(puts[i].path, k);
      ShapeSnoc(pattern, k);
      if IsTrieVar(pattern[k]) {
        TableNames(puts, i, ShapeOf(pattern[..k]));
      }
    }
  }

  /**
   The trie and the matcher agree.  For patterns that the pattern automaton accepts and that share
   variable names, a lookup that arrives at the shape of the `i`-th pattern binds exactly what
   matching the path against that pattern binds.
   */
  lemma TrieAgreesWithMatcher(puts: seq<Put>, i: nat, path: string)
    requires ShareNames(puts) && i < |puts| && ExplodedPath(puts[i].path).ok
    requires GreedyPath(RegisterAll(puts).names.Keys, UrlSections(path), []) == ShapeOf(SectionsOf(puts, i))
    requires Finds(RegisterAll(puts).names.Keys, UrlSections(path))
    ensures BindShape(map[], ShapeOf(SectionsOf(puts, i)), UrlSections(path), RegisterAll(puts).vars)
            == FetchedPath(path, ExplodedPath(puts[i].path).vars)
  {
    hide RegisterAll, ShareNames, UrlSections, Agree, GreedyPath;
    var pattern := SectionsOf(puts, i);
    var secs := UrlSections(path);
    AcceptedAgrees(puts, i);
    BindAgrees(pattern, secs, RegisterAll(puts).vars, |pattern|);
    assert ShapeOf(pattern)[..|pattern|] == ShapeOf(pattern);
    assert secs[..|secs|] == secs;
  }
}
