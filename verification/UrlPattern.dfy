/**
 URL patterns such as `/user/{id}/posts`: the two automata of var_pattern.cpp that read a pattern
 and match a path against it.
 */
module UrlPattern {
  import opened PatternErrors
  import opened Splitting

  // ---------------------------------------------------------------------------------------
  // Sections of a pattern
  // ---------------------------------------------------------------------------------------

  predicate IsBrace(c: char) {
    c == '{' || c == '}'
  }

  /** The position of the first brace, or the length. */
  function BraceAt(s: string): (n: nat)
    ensures n <= |s| && (forall i | 0 <= i < n :: !IsBrace(s[i])) && (n < |s| ==> IsBrace(s[n]))
  {
    if s == [] || IsBrace(s[0]) then 0 else 1 + BraceAt(s[1..])
  }

  predicate IsBraceFree(s: string) {
    forall i | 0 <= i < |s| :: !IsBrace(s[i])
  }

  /** `{name}` with a name that is not empty and holds no brace. */
  predicate IsVariable(sec: string) {
    |sec| >= 3 && sec[0] == '{' && sec[|sec| - 1] == '}' && IsBraceFree(sec[1..|sec| - 1])
  }

  function VariableName(sec: string): string
    requires |sec| >= 2
  {
    sec[1..|sec| - 1]
  }

  /**
   What is wrong with one section.  A `bare` section, the first one of a pattern that does not
   begin with a slash, cannot be a variable.
   */
  function SectionErr(sec: string, bare: bool): PatternErr
    requires sec != []
  {
    if bare then if IsBraceFree(sec) then OK else ILL_TOKEN
    else if sec[0] == '}' then ILL_BEGIN
    else if sec[0] == '{' then
      var j := 1 + BraceAt(sec[1..]);
      if j == |sec| || sec[j] == '{' then ILL_END
      else if j == 1 then NONE_FIELD
      else if j + 1 < |sec| then ILL_TOKEN
      else OK
    else if IsBraceFree(sec) then OK else ILL_TOKEN
  }

  predicate AreSections(secs: seq<string>) {
    forall i | 0 <= i < |secs| :: IsSection(secs[i], '/')
  }

  /** The error of the first section that has one. */
  function FirstErr(secs: seq<string>, bare: bool): PatternErr
    requires AreSections(secs)
  {
    if secs == [] then OK
    else if SectionErr(secs[0], bare) != OK then SectionErr(secs[0], bare)
    else FirstErr(secs[1..], false)
  }

  /** The variables of a list of sections, by position. */
  function VarsOf(secs: seq<string>): map<nat, string> {
    map i: nat | i < |secs| && IsVariable(secs[i]) :: VariableName(secs[i])
  }

  predicate StartsBare(path: string) {
    path != [] && path[0] != '/'
  }

  /** What reading a pattern yields. */
  datatype Reading = Reading(ok: bool, vars: map<nat, string>, err: PatternErr)

  function ExplodedSections(secs: seq<string>, bare: bool): Reading
    requires AreSections(secs)
  {
    var err := FirstErr(secs, bare);
    if err == OK then Reading(true, VarsOf(secs), OK) else Reading(false, map[], err)
  }

  function UrlSections(path: string): (secs: seq<string>)
    ensures AreSections(secs)
  {
    SectionsAreSections([], path, '/');
    Sections(path, '/')
  }

  function ExplodedPath(path: string): Reading {
    ExplodedSections(UrlSections(path), StartsBare(path))
  }

  /** A section is accepted exactly when it is free of braces or, unless it is bare, a variable. */
  lemma SectionOk(sec: string, bare: bool)
    requires sec != []
    ensures SectionErr(sec, bare) == OK <==> IsBraceFree(sec) || (!bare && IsVariable(sec))
  {
    if !bare && sec[0] == '{' {
      var j := 1 + BraceAt(sec[1..]);
      assert forall i | 1 <= i < j :: !IsBrace(sec[i]) by {
        assert forall i | 1 <= i < j :: sec[i] == sec[1..][i - 1];
      }
      if j + 1 == |sec| {
        assert forall i | 0 <= i < |sec[1..j]| :: sec[1..j][i] == sec[i + 1];
      }
      if IsVariable(sec) {
        var n := |sec| - 1;
        assert forall i | 1 <= i < n :: sec[i] == sec[1..n][i - 1];
        assert sec[j] == sec[1..][j - 1];
        assert j == n;
      }
    }
  }

  lemma {:induction false} FirstErrOk(secs: seq<string>, bare: bool)
    requires AreSections(secs)
    ensures FirstErr(secs, bare) == OK <==>
            forall i | 0 <= i < |secs| :: IsBraceFree(secs[i]) || (!(bare && i == 0) && IsVariable(secs[i]))
  {
    if secs == [] {
    } else {
      var rest := secs[1..];
      SectionOk(secs[0], bare);
      FirstErrOk(rest, false);
      assert forall i | 0 < i < |secs| :: secs[i] == rest[i - 1];
      assert forall i | 0 <= i < |rest| :: rest[i] == secs[i + 1];
    }
  }

  /**
   The accepted patterns: every section is free of braces or a variable, and a first section
   without a slash before it is free of braces.  The result maps the position of each variable
   to its name.
   */
  lemma PatternAccepted(path: string)
    ensures var secs := UrlSections(path);
            && (ExplodedPath(path).ok <==>
                forall i | 0 <= i < |secs| ::
                  IsBraceFree(secs[i]) || (!(StartsBare(path) && i == 0) && IsVariable(secs[i])))
            && (ExplodedPath(path).ok ==>
                forall i: nat :: i in ExplodedPath(path).vars <==> i < |secs| && IsVariable(secs[i]))
  {
    FirstErrOk(UrlSections(path), StartsBare(path));
  }

  /** The name of a variable is what stands between its braces. */
  lemma PatternNames(path: string, i: nat)
    requires i in ExplodedPath(path).vars
    ensures i < |UrlSections(path)| && UrlSections(path)[i] == "{" + ExplodedPath(path).vars[i] + "}"
  {
    hide UrlSections;
    PatternAccepted(path);
  }

  /** What an error says about the section it is reported for, in a place where variables may stand or not. */
  ghost predicate IsAbout(err: PatternErr, sec: string, bare: bool) {
    match err
    case OK => IsBraceFree(sec) || (!bare && IsVariable(sec))
    case ILL_TOKEN =>
      || (!IsBraceFree(sec) && (bare || (sec[0] != '{' && sec[0] != '}')))
      || (!bare && exists n :: 1 < n < |sec| - 1 && sec[0] == '{' && IsBraceFree(sec[1..n]) && sec[n] == '}')
    case ILL_BEGIN => !bare && "}" <= sec
    case ILL_END =>
      !bare && "{" <= sec &&
      exists n :: 1 <= n <= |sec| && IsBraceFree(sec[1..n]) && (n < |sec| ==> sec[n] == '{')
    case NONE_FIELD => !bare && "{}" <= sec
    case _ => false
  }

  lemma FirstBrace(sec: string, n: nat)
    requires 1 <= n <= |sec| && IsBraceFree(sec[1..n]) && (n < |sec| ==> IsBrace(sec[n]))
    ensures 1 + BraceAt(sec[1..]) == n
  {
    assert forall i | 1 <= i < n :: !IsBrace(sec[i]) by {
      assert forall i | 1 <= i < n :: sec[i] == sec[1..n][i - 1];
    }
    assert forall i | 1 <= i < |sec| :: sec[i] == sec[1..][i - 1];
  }

  /** Every section has exactly the error that is about it. */
  lemma SectionErrExact(sec: string, bare: bool, err: PatternErr)
    requires sec != []
    ensures SectionErr(sec, bare) == err <==> IsAbout(err, sec, bare)
  {
    SectionOk(sec, bare);
    if !bare && sec[0] == '{' {
      var j := 1 + BraceAt(sec[1..]);
      assert IsBraceFree(sec[1..j]) by {
        assert forall i | 0 <= i < j - 1 :: sec[1..j][i] == sec[1..][i];
      }
      forall n | 1 <= n <= |sec| && IsBraceFree(sec[1..n]) && (n < |sec| ==> IsBrace(sec[n]))
        ensures n == j
      {
        FirstBrace(sec, n);
      }
      if sec[..|sec|] == sec && |sec| > 1 && sec[1] == '}' {
        assert IsBraceFree(sec[1..1]);
        FirstBrace(sec, 1);
      }
    }
  }

  /** A pattern is rejected with the error about its first section that is not accepted. */
  lemma PatternRejected(path: string, err: PatternErr)
    requires err != OK
    ensures ExplodedPath(path) == Reading(false, map[], err) <==>
      var secs := UrlSections(path);
      exists i: nat :: i < |secs| && IsAbout(err, secs[i], StartsBare(path) && i == 0) &&
        forall k: nat | k < i :: IsAbout(OK, secs[k], StartsBare(path) && k == 0)
  {
    hide IsAbout, SectionErr;
    FirstErrAbout(UrlSections(path), StartsBare(path), err);
  }

  lemma {:induction false} FirstErrAbout(secs: seq<string>, bare: bool, err: PatternErr)
    requires AreSections(secs) && err != OK
    ensures FirstErr(secs, bare) == err <==>
      exists i: nat :: i < |secs| && IsAbout(err, secs[i], bare && i == 0) &&
        forall k: nat | k < i :: IsAbout(OK, secs[k], bare && k == 0)
    decreases secs
  {
    hide IsAbout, SectionErr;
    if secs == [] {
    } else {
      var rest := secs[1..];
      SectionErrExact(secs[0], bare, err);
      SectionErrExact(secs[0], bare, OK);
      FirstErrAbout(rest, false, err);
      if i: nat :| i < |rest| && IsAbout(err, rest[i], false && i == 0)
                   && forall k: nat | k < i :: IsAbout(OK, rest[k], false && k == 0) {
        if SectionErr(secs[0], bare) == OK {
          forall k: nat | k < i + 1
            ensures IsAbout(OK, secs[k], bare && k == 0)
          {
            assert k > 0 ==> secs[k] == rest[k - 1];
          }
          assert IsAbout(err, secs[i + 1], bare && i + 1 == 0);
        }
      }
      if i: nat :| i < |secs| && IsAbout(err, secs[i], bare && i == 0)
                   && forall k: nat | k < i :: IsAbout(OK, secs[k], bare && k == 0) {
        if i > 0 {
          assert IsAbout(OK, secs[0], bare && 0 == 0);
          forall k: nat | k < i - 1
            ensures IsAbout(OK, rest[k], false && k == 0)
          {
            assert rest[k] == secs[k + 1];
            assert IsAbout(OK, secs[k + 1], bare && k + 1 == 0);
          }
          assert IsAbout(err, rest[i - 1], false && i - 1 == 0);
        }
      }
    }
  }

  // ---------------------------------------------------------------------------------------
  // Partial sections
  // ---------------------------------------------------------------------------------------

  /** A variable that is not closed yet. */
  predicate IsUnfinished(p: string) {
    p != [] && p[0] == '{' && IsBraceFree(p[1..])
  }

  lemma BraceAtExact(s: string, n: nat)
    requires n < |s| && IsBrace(s[n]) && forall i | 0 <= i < n :: !IsBrace(s[i])
    ensures BraceAt(s) == n
  {
  }

  /** An error that is not an unfinished variable stays, whatever follows in the section. */
  lemma ErrorStays(p: string, sec: string, bare: bool)
    requires p != [] && p <= sec
    requires SectionErr(p, bare) != OK && (bare || !IsUnfinished(p))
    ensures SectionErr(sec, bare) == SectionErr(p, bare)
  {
    if !bare && p[0] == '{' {
      var j := BraceAt(p[1..]);
      assert forall i | 0 <= i < |p[1..]| :: p[1..][i] == sec[1..][i];
      assert j < |p[1..]|;
      BraceAtExact(sec[1..], j);
    } else {
      assert forall i | 0 <= i < |p| :: p[i] == sec[i];
    }
  }

  lemma {:induction false} FromPrefix(cur: string, rest: string)
    requires cur != []
    ensures SectionsFrom(cur, rest, '/') != [] && cur <= SectionsFrom(cur, rest, '/')[0]
    decreases rest
  {
    if rest != [] && rest[0] != '/' {
      FromPrefix(cur + [rest[0]], rest[1..]);
    }
  }

  lemma {:induction false} FirstErrConcat(done: seq<string>, more: seq<string>, bare: bool)
    requires AreSections(done + more) && AreSections(done) && AreSections(more)
    requires FirstErr(done, bare) == OK
    ensures FirstErr(done + more, bare) == FirstErr(more, bare && done == [])
    decreases done
  {
    if done == [] {
      assert done + more == more;
    } else {
      assert (done + more)[1..] == done[1..] + more;
      FirstErrConcat(done[1..], more, false);
    }
  }

  lemma VarsOfSnoc(done: seq<string>, cur: string)
    ensures VarsOf(done + [cur]) ==
            if IsVariable(cur) then VarsOf(done)[|done| := VariableName(cur)] else VarsOf(done)
  {
    var all := done + [cur];
    assert forall i: nat | i < |done| :: all[i] == done[i];
  }

  // ---------------------------------------------------------------------------------------
  // explode_path_vars
  // ---------------------------------------------------------------------------------------

  datatype PatternState = STATE_INIT | STATE_NORMAL | STATE_MATCH_TOKEN | STATE_FETCH | STATE_END_FETCH

  /**
   What the automaton knows after reading the sections `done` and the part `cur` of the next one.
   In the initial state a section has just ended, or the first section is being read without a
   slash before it, or nothing has been read.
   */
  ghost predicate Knows(state: PatternState, started: bool, bare: bool, done: seq<string>, cur: string,
                        idx: nat, section: string, vars: map<nat, string>) {
    && AreSections(done) && Free(cur, '/')
    && FirstErr(done, bare) == OK
    && idx == |done|
    && (state != STATE_FETCH ==> section == [])
    && var here := bare && done == [];
       match state
       case STATE_INIT =>
         && (started <==> cur != [])
         && (!started ==> done == [] && vars == map[])
         && (started ==> SectionErr(cur, here) == OK && vars == VarsOf(done + [cur]))
       case STATE_MATCH_TOKEN => started && cur == [] && !here && vars == VarsOf(done)
       case STATE_NORMAL =>
         started && cur != [] && !here && IsBraceFree(cur) && vars == VarsOf(done)
       case STATE_FETCH =>
         started && cur == ['{'] + section && !here && IsBraceFree(section) && vars == VarsOf(done)
       case STATE_END_FETCH =>
         started && cur != [] && !here && IsVariable(cur) && vars == VarsOf(done + [cur])
  }

  /** The rest of the input goes on from the part of the section already read. */
  ghost predicate Remains(path: string, i: nat, done: seq<string>, cur: string) {
    i <= |path| && UrlSections(path) == done + SectionsFrom(cur, path[i..], '/')
  }

  lemma RemainsText(path: string, i: nat, done: seq<string>, cur: string)
    requires i < |path| && Remains(path, i, done, cur) && path[i] != '/'
    ensures Remains(path, i + 1, done, cur + [path[i]])
  {
    assert path[i..][1..] == path[i + 1..];
  }

  lemma RemainsSlash(path: string, i: nat, done: seq<string>, cur: string)
    requires i < |path| && Remains(path, i, done, cur) && path[i] == '/'
    ensures Remains(path, i + 1, if cur == [] then done else done + [cur], [])
  {
    assert path[i..][1..] == path[i + 1..];
    assert done + ([cur] + SectionsFrom([], path[i + 1..], '/')) == done + [cur] + SectionsFrom([], path[i + 1..], '/');
  }

  lemma FirstErrSnoc(done: seq<string>, cur: string, bare: bool)
    requires AreSections(done) && IsSection(cur, '/')
    requires FirstErr(done, bare) == OK && SectionErr(cur, bare && done == []) == OK
    ensures AreSections(done + [cur]) && FirstErr(done + [cur], bare) == OK
  {
    FirstErrConcat(done, [cur], bare);
    assert [cur][1..] == [];
  }

  /** An error in the part read so far is the error of the pattern. */
  lemma Fails(path: string, i: nat, bare: bool, done: seq<string>, cur: string)
    requires Remains(path, i, done, cur)
    requires AreSections(done) && FirstErr(done, bare) == OK && cur != []
    requires SectionErr(cur, bare && done == []) != OK
    requires (bare && done == []) || !IsUnfinished(cur) || i == |path| || path[i] == '/'
    ensures FirstErr(UrlSections(path), bare) == SectionErr(cur, bare && done == [])
  {
    var more := SectionsFrom(cur, path[i..], '/');
    FromPrefix(cur, path[i..]);
    AreSectionsTail(done, more);
    FirstErrConcat(done, more, bare);
    if i < |path| && path[i] != '/' {
      ErrorStays(cur, more[0], bare && done == []);
    } else {
      assert more[0] == cur;
    }
  }

  lemma AreSectionsTail(done: seq<string>, more: seq<string>)
    requires AreSections(done + more)
    ensures AreSections(more)
  {
    assert forall i | 0 <= i < |more| :: more[i] == (done + more)[|done| + i];
  }

  lemma Beginning()
    ensures FirstErr([], true) == OK && FirstErr([], false) == OK && VarsOf([]) == map[]
  {
  }

  lemma BareText(cur: string, c: char, done: seq<string>)
    requires !IsBrace(c) && (cur != [] ==> SectionErr(cur, true) == OK)
    ensures SectionErr(cur + [c], true) == OK
    ensures VarsOf(done + [cur + [c]]) == VarsOf(done)
    ensures cur != [] ==> VarsOf(done + [cur]) == VarsOf(done)
  {
    VarsOfSnoc(done, cur + [c]);
    VarsOfSnoc(done, cur);
  }

  lemma BareBrace(cur: string, c: char)
    requires IsBrace(c)
    ensures SectionErr(cur + [c], true) == ILL_TOKEN
  {
    assert (cur + [c])[|cur|] == c;
  }

  lemma Opening(c: char)
    requires c == '}'
    ensures SectionErr([] + [c], false) == ILL_BEGIN
    ensures !IsUnfinished([] + [c])
  {
  }

  lemma NormalBrace(cur: string, c: char)
    requires cur != [] && IsBraceFree(cur) && IsBrace(c)
    ensures SectionErr(cur + [c], false) == ILL_TOKEN && !IsUnfinished(cur + [c])
  {
    assert (cur + [c])[|cur|] == c;
  }

  lemma NormalEnd(cur: string, done: seq<string>)
    requires cur != [] && IsBraceFree(cur)
    ensures SectionErr(cur, false) == OK && VarsOf(done + [cur]) == VarsOf(done)
  {
    VarsOfSnoc(done, cur);
  }

  lemma Closing(section: string)
    requires IsBraceFree(section)
    ensures var sec := ['{'] + section + ['}'];
            && !IsUnfinished(sec)
            && SectionErr(sec, false) == (if section == [] then NONE_FIELD else OK)
            && (section != [] ==> IsVariable(sec) && VariableName(sec) == section)
  {
    var sec := ['{'] + section + ['}'];
    var tail := sec[1..];
    assert tail == section + ['}'];
    assert tail[|section|] == '}';
    BraceAtExact(tail, |section|);
    assert sec[1..|sec| - 1] == section;
  }

  lemma VariableEnds(done: seq<string>, section: string)
    requires IsBraceFree(section) && section != []
    ensures |done| !in VarsOf(done)
    ensures VarsOf(done + [['{'] + section + ['}']]) == VarsOf(done)[|done| := section]
  {
    Closing(section);
    VarsOfSnoc(done, ['{'] + section + ['}']);
  }

  lemma OpenEnds(section: string)
    requires IsBraceFree(section)
    ensures SectionErr(['{'] + section, false) == ILL_END
  {
    assert (['{'] + section)[1..] == section;
  }

  lemma OpenTwice(section: string)
    requires IsBraceFree(section)
    ensures SectionErr(['{'] + section + ['{'], false) == ILL_END
    ensures !IsUnfinished(['{'] + section + ['{'])
  {
    var tail := (['{'] + section + ['{'])[1..];
    assert tail == section + ['{'];
    assert tail[|section|] == '{';
    BraceAtExact(tail, |section|);
  }

  lemma AfterVariable(cur: string, c: char)
    requires IsVariable(cur)
    ensures SectionErr(cur + [c], false) == ILL_TOKEN
    ensures !IsUnfinished(cur + [c])
  {
    var n := |cur| - 2;
    var tail := (cur + [c])[1..];
    assert tail == cur[1..|cur| - 1] + [cur[|cur| - 1], c];
    assert tail[n] == '}';
    BraceAtExact(tail, n);
  }

  lemma VariableOk(cur: string)
    requires IsVariable(cur)
    ensures SectionErr(cur, false) == OK
  {
    SectionOk(cur, false);
  }

  /** What is known at the end of the input decides the result. */
  lemma Ending(path: string, state: PatternState, started: bool, bare: bool, done: seq<string>, cur: string,
               idx: nat, section: string, vars: map<nat, string>)
    requires Remains(path, |path|, done, cur) && bare == StartsBare(path)
    requires Knows(state, started, bare, done, cur, idx, section, vars)
    ensures ExplodedPath(path) == if state.STATE_FETCH? then Reading(false, map[], ILL_END) else Reading(true, vars, OK)
  {
    hide FirstErr, SectionErr, VarsOf, IsVariable;
    assert path[|path|..] == [];
    if cur == [] {
      assert UrlSections(path) == done;
      NothingRead(done);
    } else {
      assert UrlSections(path) == done + [cur];
      if state.STATE_FETCH? {
        OpenEnds(section);
        Fails(path, |path|, bare, done, cur);
      } else {
        if state.STATE_NORMAL? {
          NormalEnd(cur, done);
        } else if state.STATE_END_FETCH? {
          VariableOk(cur);
        }
        FirstErrSnoc(done, cur, bare);
      }
    }
  }

  lemma NothingRead(done: seq<string>)
    ensures done == [] ==> VarsOf(done) == map[]
  {
  }

  // One lemma for each move of the automaton.

  lemma FromInit(path: string, i: nat, started: bool, bare: bool, done: seq<string>, cur: string, idx: nat,
                 vars: map<nat, string>)
    requires i < |path| && Remains(path, i, done, cur)
    requires Knows(STATE_INIT, started, bare, done, cur, idx, [], vars)
    requires bare == StartsBare(path) && (!started ==> i == 0)
    requires started ==> (bare && done == []) || path[i] == '/'
    ensures path[i] == '/' ==>
              && Remains(path, i + 1, if started then done + [cur] else done, [])
              && Knows(STATE_MATCH_TOKEN, true, bare, if started then done + [cur] else done, [],
                       if started then idx + 1 else idx, [], vars)
    ensures path[i] != '/' && !IsBrace(path[i]) ==>
              && Remains(path, i + 1, done, cur + [path[i]])
              && Knows(STATE_INIT, true, bare, done, cur + [path[i]], idx, [], vars)
              && bare && done == []
    ensures IsBrace(path[i]) ==> ExplodedPath(path) == Reading(false, map[], ILL_TOKEN)
  {
    hide SectionErr, FirstErr, VarsOf, IsVariable, SectionsFrom;
    var c := path[i];
    if c == '/' {
      RemainsSlash(path, i, done, cur);
      if started {
        FirstErrSnoc(done, cur, bare);
      } else {
        Beginning();
      }
    } else {
      RemainsText(path, i, done, cur);
      if IsBrace(c) {
        BareBrace(cur, c);
        Fails(path, i + 1, bare, done, cur + [c]);
      } else {
        Beginning();
        BareText(cur, c, done);
      }
    }
  }

  lemma FromMatch(path: string, i: nat, bare: bool, done: seq<string>, idx: nat, vars: map<nat, string>)
    requires i < |path| && Remains(path, i, done, [])
    requires Knows(STATE_MATCH_TOKEN, true, bare, done, [], idx, [], vars)
    requires bare == StartsBare(path)
    ensures path[i] == '/' ==> Remains(path, i + 1, done, [])
    ensures path[i] != '/' ==> Remains(path, i + 1, done, [path[i]])
    ensures path[i] == '{' ==> Knows(STATE_FETCH, true, bare, done, [path[i]], idx, [], vars)
    ensures path[i] == '}' ==> ExplodedPath(path) == Reading(false, map[], ILL_BEGIN)
    ensures path[i] != '/' && !IsBrace(path[i]) ==> Knows(STATE_NORMAL, true, bare, done, [path[i]], idx, [], vars)
  {
    hide SectionErr, FirstErr, VarsOf, IsVariable, SectionsFrom;
    var c := path[i];
    assert [] + [c] == [c];
    if c == '/' {
      RemainsSlash(path, i, done, []);
    } else {
      RemainsText(path, i, done, []);
      if c == '}' {
        Opening(c);
        Fails(path, i + 1, bare, done, [c]);
      }
    }
  }

  lemma FromNormal(path: string, i: nat, bare: bool, done: seq<string>, cur: string, idx: nat, vars: map<nat, string>)
    requires i < |path| && Remains(path, i, done, cur)
    requires Knows(STATE_NORMAL, true, bare, done, cur, idx, [], vars)
    requires bare == StartsBare(path)
    ensures path[i] == '/' ==> Knows(STATE_INIT, true, bare, done, cur, idx, [], vars)
    ensures path[i] != '/' && !IsBrace(path[i]) ==>
              && Remains(path, i + 1, done, cur + [path[i]])
              && Knows(STATE_NORMAL, true, bare, done, cur + [path[i]], idx, [], vars)
    ensures IsBrace(path[i]) ==> ExplodedPath(path) == Reading(false, map[], ILL_TOKEN)
  {
    hide SectionErr, FirstErr, VarsOf, IsVariable, SectionsFrom;
    var c := path[i];
    if c == '/' {
      NormalEnd(cur, done);
    } else {
      RemainsText(path, i, done, cur);
      if IsBrace(c) {
        NormalBrace(cur, c);
        Fails(path, i + 1, bare, done, cur + [c]);
      }
    }
  }

  lemma FromFetch(path: string, i: nat, bare: bool, done: seq<string>, cur: string, idx: nat, section: string,
                  vars: map<nat, string>)
    requires i < |path| && Remains(path, i, done, cur)
    requires Knows(STATE_FETCH, true, bare, done, cur, idx, section, vars)
    requires bare == StartsBare(path)
    ensures path[i] == '}' && section != [] ==>
              && Remains(path, i + 1, done, cur + [path[i]])
              && idx !in vars
              && Knows(STATE_END_FETCH, true, bare, done, cur + [path[i]], idx, [], vars[idx := section])
    ensures path[i] == '}' && section == [] ==> ExplodedPath(path) == Reading(false, map[], NONE_FIELD)
    ensures path[i] == '/' || path[i] == '{' ==> ExplodedPath(path) == Reading(false, map[], ILL_END)
    ensures path[i] != '/' && !IsBrace(path[i]) ==>
              && Remains(path, i + 1, done, cur + [path[i]])
              && Knows(STATE_FETCH, true, bare, done, cur + [path[i]], idx, section + [path[i]], vars)
  {
    hide SectionErr, FirstErr, VarsOf, IsVariable, SectionsFrom;
    var c := path[i];
    if c == '/' {
      OpenEnds(section);
      Fails(path, i, bare, done, cur);
    } else {
      RemainsText(path, i, done, cur);
      if c == '{' {
        OpenTwice(section);
        Fails(path, i + 1, bare, done, cur + [c]);
      } else if c == '}' {
        Closing(section);
        if section == [] {
          Fails(path, i + 1, bare, done, cur + [c]);
        } else {
          VariableEnds(done, section);
        }
      } else {
        assert ['{'] + section + [c] == ['{'] + (section + [c]);
      }
    }
  }

  lemma FromEndFetch(path: string, i: nat, bare: bool, done: seq<string>, cur: string, idx: nat, vars: map<nat, string>)
    requires i < |path| && Remains(path, i, done, cur)
    requires Knows(STATE_END_FETCH, true, bare, done, cur, idx, [], vars)
    requires bare == StartsBare(path)
    ensures path[i] == '/' ==> Knows(STATE_INIT, true, bare, done, cur, idx, [], vars)
    ensures path[i] != '/' ==> ExplodedPath(path) == Reading(false, map[], ILL_TOKEN)
  {
    hide SectionErr, FirstErr, VarsOf, IsVariable, SectionsFrom;
    var c := path[i];
    if c == '/' {
      VariableOk(cur);
    } else {
      RemainsText(path, i, done, cur);
      AfterVariable(cur, c);
      Fails(path, i + 1, bare, done, cur + [c]);
    }
  }

  lemma Initially(path: string)
    ensures Remains(path, 0, [], [])
    ensures Knows(STATE_INIT, false, StartsBare(path), [], [], 0, [], map[])
  {
    assert path[0..] == path;
    assert [] + UrlSections(path) == UrlSections(path);
  }

  lemma KnowsShape(state: PatternState, started: bool, bare: bool, done: seq<string>, cur: string,
                   idx: nat, section: string, vars: map<nat, string>)
    requires Knows(state, started, bare, done, cur, idx, section, vars)
    ensures state != STATE_FETCH ==> section == []
    ensures state != STATE_INIT ==> started
    ensures state == STATE_MATCH_TOKEN ==> cur == []
  {
  }

  method ExplodePathVars(path: string) returns (ok: bool, vars: map<nat, string>, err: PatternErr)
    ensures Reading(ok, vars, err) == ExplodedPath(path)
  {
    hide Knows, Remains, ExplodedPath, StartsBare, UrlSections;
    var startFlag := false;
    var idx := 0;
    var section := "";
    var state := STATE_INIT;
    vars := map[];
    ghost var bare := StartsBare(path);
    ghost var done: seq<string> := [];
    ghost var cur: string := "";
    var i := 0;
    Initially(path);
    while i < |path|
      invariant 0 <= i <= |path| && Remains(path, i, done, cur)
      invariant Knows(state, startFlag, bare, done, cur, idx, section, vars)
      invariant !startFlag ==> i == 0
      invariant state == STATE_INIT && startFlag ==> (bare && done == []) || (i < |path| && path[i] == '/')
      decreases |path| - i, state == STATE_NORMAL || state == STATE_END_FETCH
    {
      var c := path[i];
      KnowsShape(state, startFlag, bare, done, cur, idx, section, vars);
      if state == STATE_INIT {
        FromInit(path, i, startFlag, bare, done, cur, idx, vars);
        if c == '/' || c == '{' || c == '}' {
          if c == '/' {
            done, cur := if startFlag then done + [cur] else done, "";
            if startFlag {
              idx := idx + 1;
            }
            state := STATE_MATCH_TOKEN;
          } else {
            return false, map[], ILL_TOKEN;
          }
        } else {
          cur := cur + [c];
        }
        startFlag := true;
        i := i + 1;
        continue;
      }

      if state == STATE_MATCH_TOKEN {
        FromMatch(path, i, bare, done, idx, vars);
        if c == '/' || c == '{' || c == '}' {
          if c == '/' {
            i := i + 1;
            continue;
          }
          if c != '{' {
            return false, map[], ILL_BEGIN;
          }
          state := STATE_FETCH;
        } else {
          state := STATE_NORMAL;
        }
        cur := [c];
        i := i + 1;
        continue;
      }

      if state == STATE_NORMAL {
        FromNormal(path, i, bare, done, cur, idx, vars);
        if c == '{' || c == '}' {
          return false, map[], ILL_TOKEN;
        }
        if c == '/' {
          state := STATE_INIT;
          continue;
        }
        cur := cur + [c];
        i := i + 1;
        continue;
      }

      if state == STATE_FETCH {
        FromFetch(path, i, bare, done, cur, idx, section, vars);
        if c == '/' || c == '{' || c == '}' {
          if c == '}' {
            if section == [] {
              return false, map[], NONE_FIELD;
            }
            vars := if idx in vars then vars else vars[idx := section];
            section := "";
            state := STATE_END_FETCH;
          } else {
            return false, map[], ILL_END;
          }
        } else {
          section := section + [c];
        }
        cur := cur + [c];
        i := i + 1;
        continue;
      }

      FromEndFetch(path, i, bare, done, cur, idx, vars);
      if c != '/' {
        return false, map[], ILL_TOKEN;
      }
      state := STATE_INIT;
    }
    KnowsShape(state, startFlag, bare, done, cur, idx, section, vars);
    Ending(path, state, startFlag, bare, done, cur, idx, section, vars);
    match state {
      case STATE_INIT | STATE_NORMAL | STATE_END_FETCH =>
        if section != [] {
          vars := if idx in vars then vars else vars[idx := section];
        }
        return true, vars, OK;
      case STATE_MATCH_TOKEN =>
        return true, vars, OK;
      case STATE_FETCH =>
        return false, map[], ILL_END;
    }
  }

  // ---------------------------------------------------------------------------------------
  // fetch_path_vars
  // ---------------------------------------------------------------------------------------

  /** `std::map::emplace`: a key that is present keeps its value. */
  function Emplace<K, V>(m: map<K, V>, key: K, value: V): map<K, V> {
    if key in m then m else m[key := value]
  }

  /** Adds one section's binding when its position is a variable. */
  function BindOne(vals: map<string, string>, sec: string, vars: map<nat, string>, idx: nat): map<string, string> {
    if idx in vars then Emplace(vals, vars[idx], sec) else vals
  }

  /** Binds the sections in turn, the first of them at position `idx`. */
  function BindFrom(vals: map<string, string>, secs: seq<string>, vars: map<nat, string>, idx: nat): map<string, string>
    decreases secs
  {
    if secs == [] then vals else BindFrom(BindOne(vals, secs[0], vars, idx), secs[1..], vars, idx + 1)
  }

  function FetchedPath(path: string, vars: map<nat, string>): map<string, string> {
    BindFrom(map[], UrlSections(path), vars, 0)
  }

  predicate Binds(vars: map<nat, string>, i: nat, name: string) {
    i in vars && vars[i] == name
  }

  /** Of the positions from `lo` up to `hi`, `i` is the first that is named `name`. */
  ghost predicate BindsFirst(vars: map<nat, string>, name: string, lo: nat, hi: nat, i: nat) {
    lo <= i < hi && Binds(vars, i, name) && forall j: nat | lo <= j < i :: !Binds(vars, j, name)
  }

  lemma {:induction false} BindFromExact(vals: map<string, string>, secs: seq<string>, vars: map<nat, string>, idx: nat,
                                         name: string, hi: nat)
    requires hi == idx + |secs|
    ensures var result := BindFrom(vals, secs, vars, idx);
            if name in vals then name in result && result[name] == vals[name]
            else
              && (name in result <==> exists i: nat :: BindsFirst(vars, name, idx, hi, i))
              && forall i: nat | BindsFirst(vars, name, idx, hi, i) :: result[name] == secs[i - idx]
    decreases secs
  {
    if secs == [] {
    } else {
      var lo: nat := idx + 1;
      BindFromExact(BindOne(vals, secs[0], vars, idx), secs[1..], vars, lo, name, hi);
      if name !in vals {
        if Binds(vars, idx, name) {
          assert BindsFirst(vars, name, idx, hi, idx);
        } else {
          forall i: nat
            ensures BindsFirst(vars, name, lo, hi, i) <==> BindsFirst(vars, name, idx, hi, i)
          {
          }
        }
      }
    }
  }

  /** A name is bound exactly when it names a position of the path, and to the first such section. */
  lemma FetchedExact(path: string, vars: map<nat, string>, name: string)
    ensures var result := FetchedPath(path, vars);
            var secs := UrlSections(path);
            && (name in result <==> exists i: nat :: BindsFirst(vars, name, 0, |secs|, i))
            && forall i: nat | BindsFirst(vars, name, 0, |secs|, i) :: result[name] == secs[i]
  {
    BindFromExact(map[], UrlSections(path), vars, 0, name, |UrlSections(path)|);
  }

  datatype FetchState = FETCH_INIT | FETCH_MATCH_TOKEN

  lemma BindSlash(path: string, i: nat, section: string, vals: map<string, string>, vars: map<nat, string>, idx: nat)
    requires i < |path| && path[i] == '/'
    ensures BindFrom(vals, SectionsFrom(section, path[i..], '/'), vars, idx) ==
            if section == [] then BindFrom(vals, SectionsFrom([], path[i + 1..], '/'), vars, idx)
            else BindFrom(BindOne(vals, section, vars, idx), SectionsFrom([], path[i + 1..], '/'), vars, idx + 1)
  {
    assert path[i..][1..] == path[i + 1..];
    var rest := SectionsFrom([], path[i + 1..], '/');
    assert ([section] + rest)[1..] == rest;
  }

  lemma BindText(path: string, i: nat, section: string, vals: map<string, string>, vars: map<nat, string>, idx: nat)
    requires i < |path| && path[i] != '/'
    ensures SectionsFrom(section, path[i..], '/') == SectionsFrom(section + [path[i]], path[i + 1..], '/')
  {
    assert path[i..][1..] == path[i + 1..];
  }

  method FetchPathVars(path: string, vars: map<nat, string>) returns (ok: bool, vals: map<string, string>)
    ensures ok && vals == FetchedPath(path, vars)
  {
    vals := map[];
    var startFlag := false;
    var idx := 0;
    var section := "";
    var state := FETCH_INIT;
    assert path[0..] == path;
    var i := 0;
    while i < |path|
      invariant 0 <= i <= |path|
      invariant BindFrom(vals, SectionsFrom(section, path[i..], '/'), vars, idx) == FetchedPath(path, vars)
      invariant state == FETCH_MATCH_TOKEN || section != [] ==> startFlag
      invariant state == FETCH_INIT && section != [] ==> i < |path| && path[i] == '/'
      decreases |path| - i, i < |path| && (state == FETCH_INIT) == (path[i] != '/')
    {
      var c := path[i];
      if state == FETCH_INIT {
        if c == '/' {
          BindSlash(path, i, section, vals, vars, idx);
          if section != [] {
            if idx in vars {
              vals := Emplace(vals, vars[idx], section);
            }
            section := "";
            if startFlag {
              idx := idx + 1;
            }
          }
          i := i + 1;
        } else {
          state := FETCH_MATCH_TOKEN;
        }
        startFlag := true;
        continue;
      }

      if c == '/' {
        state := FETCH_INIT;
        continue;
      }
      BindText(path, i, section, vals, vars, idx);
      section := section + [c];
      i := i + 1;
    }
    assert path[|path|..] == [];
    if idx in vars && section != [] {
      vals := Emplace(vals, vars[idx], section);
    }
    return true, vals;
  }

  // ---------------------------------------------------------------------------------------
  // Round trip
  // ---------------------------------------------------------------------------------------

  /** The sections of a pattern with a value in the place of each variable. */
  function FillIn(secs: seq<string>, values: map<nat, string>): (filled: seq<string>)
    ensures |filled| == |secs|
  {
    seq(|secs|, i requires 0 <= i < |secs| => if i in values then values[i] else secs[i])
  }

  /** Variables of one name are filled with one value. */
  predicate AreConsistent(vars: map<nat, string>, values: map<nat, string>)
    requires values.Keys == vars.Keys
  {
    forall i, j | i in vars && j in vars && vars[i] == vars[j] :: values[i] == values[j]
  }

  /** The first position with the name of position `i`. */
  lemma FirstPosition(vars: map<nat, string>, i: nat, hi: nat) returns (first: nat)
    requires i in vars && i < hi
    ensures first <= i && BindsFirst(vars, vars[i], 0, hi, first)
  {
    first := 0;
    while !Binds(vars, first, vars[i])
      invariant first <= i && forall j: nat | j < first :: !Binds(vars, j, vars[i])
      decreases i - first
    {
      first := first + 1;
    }
  }

  /** The pattern with its variables filled in, and runs of slashes between and around the sections. */
  function FilledPath(pattern: string, values: map<nat, string>, gaps: seq<nat>): string
    requires AreGaps(gaps, |UrlSections(pattern)|)
  {
    Spread(FillIn(UrlSections(pattern), values), gaps, '/')
  }

  lemma FilledSections(pattern: string, values: map<nat, string>, gaps: seq<nat>)
    requires AreGaps(gaps, |UrlSections(pattern)|)
    requires forall i | i in values :: IsSection(values[i], '/')
    ensures UrlSections(FilledPath(pattern, values, gaps)) == FillIn(UrlSections(pattern), values)
  {
    var filled := FillIn(UrlSections(pattern), values);
    assert forall i | 0 <= i < |filled| :: IsSection(filled[i], '/');
    SectionsOfSpread(filled, gaps, '/');
  }

  /** Every name is bound to the value at its first position. */
  ghost predicate BindsFirstValues(result: map<string, string>, vars: map<nat, string>, values: map<nat, string>, hi: nat)
    requires values.Keys == vars.Keys
  {
    && result.Keys == vars.Values
    && forall i: nat | i in vars && BindsFirst(vars, vars[i], 0, hi, i) :: result[vars[i]] == values[i]
  }

  lemma FilledBinds(path: string, secs: seq<string>, vars: map<nat, string>, values: map<nat, string>)
    requires values.Keys == vars.Keys && UrlSections(path) == FillIn(secs, values)
    requires forall i | i in vars :: i < |secs|
    ensures BindsFirstValues(FetchedPath(path, vars), vars, values, |secs|)
  {
    hide FetchedPath, BindsFirst;
    var result := FetchedPath(path, vars);
    forall name
      ensures name in result <==> name in vars.Values
    {
      FetchedExact(path, vars, name);
      if name in vars.Values {
        var i: nat :| i in vars && vars[i] == name;
        var first := FirstPosition(vars, i, |secs|);
      }
      if i: nat :| BindsFirst(vars, name, 0, |secs|, i) {
        FirstBinds(vars, name, |secs|, i);
      }
    }
    forall i: nat | i in vars && BindsFirst(vars, vars[i], 0, |secs|, i)
      ensures result[vars[i]] == values[i]
    {
      FetchedExact(path, vars, vars[i]);
    }
  }

  lemma FirstBinds(vars: map<nat, string>, name: string, hi: nat, i: nat)
    requires BindsFirst(vars, name, 0, hi, i)
    ensures i in vars && vars[i] == name
  {
  }

  lemma FirstValuesExact(result: map<string, string>, vars: map<nat, string>, values: map<nat, string>, hi: nat)
    requires values.Keys == vars.Keys && BindsFirstValues(result, vars, values, hi)
    requires forall i | i in vars :: i < hi
    ensures (forall i: nat | i in vars :: result[vars[i]] == values[i]) <==> AreConsistent(vars, values)
  {
    hide BindsFirst;
    if AreConsistent(vars, values) {
      forall i: nat | i in vars
        ensures result[vars[i]] == values[i]
      {
        var first := FirstPosition(vars, i, hi);
        FirstBinds(vars, vars[i], hi, first);
      }
    }
  }

  /**
   Filling the positions of an accepted pattern's variables in, with any slashes, and matching the path
   binds every name to the value at its first position; every value comes back exactly when equal
   names carry equal values.
   */
  lemma UrlRoundTrip(pattern: string, values: map<nat, string>, gaps: seq<nat>)
    requires ExplodedPath(pattern).ok && values.Keys == ExplodedPath(pattern).vars.Keys
    requires forall i | i in values :: IsSection(values[i], '/')
    requires AreGaps(gaps, |UrlSections(pattern)|)
    ensures var vars := ExplodedPath(pattern).vars;
      var result := FetchedPath(FilledPath(pattern, values, gaps), vars);
      && BindsFirstValues(result, vars, values, |UrlSections(pattern)|)
      && ((forall i: nat | i in vars :: result[vars[i]] == values[i]) <==> AreConsistent(vars, values))
  {
    hide ExplodedPath, FetchedPath, FilledPath, BindsFirst, AreConsistent;
    var secs, vars := UrlSections(pattern), ExplodedPath(pattern).vars;
    var path := FilledPath(pattern, values, gaps);
    PatternAccepted(pattern);
    FilledSections(pattern, values, gaps);
    FilledBinds(path, secs, vars, values);
    FirstValuesExact(FetchedPath(path, vars), vars, values, |secs|);
  }

  /** The values of the positions when the names are assigned values. */
  function Assigned(vars: map<nat, string>, asg: map<string, string>): map<nat, string>
    requires asg.Keys == vars.Values
  {
    map i | i in vars :: asg[vars[i]]
  }

  /** An assignment to the names, whether they are distinct or not, comes back. */
  lemma AssignmentRoundTrip(pattern: string, asg: map<string, string>, gaps: seq<nat>)
    requires ExplodedPath(pattern).ok && asg.Keys == ExplodedPath(pattern).vars.Values
    requires forall name | name in asg :: IsSection(asg[name], '/')
    requires AreGaps(gaps, |UrlSections(pattern)|)
    ensures var vars := ExplodedPath(pattern).vars;
      FetchedPath(FilledPath(pattern, Assigned(vars, asg), gaps), vars) == asg
  {
    hide ExplodedPath, FetchedPath, FilledPath, BindsFirst;
    var vars := ExplodedPath(pattern).vars;
    var values := Assigned(vars, asg);
    UrlRoundTrip(pattern, values, gaps);
    var result := FetchedPath(FilledPath(pattern, values, gaps), vars);
    assert AreConsistent(vars, values);
    forall name | name in asg
      ensures result[name] == asg[name]
    {
      var i: nat :| i in vars && vars[i] == name;
    }
    assert result == asg;
  }
}
