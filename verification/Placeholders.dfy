/**
 What a placeholder stands for: which argument it reads and what direct descent reaches there, apart
 from the table of models and the walk that the builder uses.
 */
module Placeholders {
  import opened AccessPath
  import opened Bytes
  import opened Charset
  import opened EscapeLoop
  import opened Models
  import opened Options
  import opened SqlBuilder
  import opened SqlPattern
  import opened Splitting

  /** The `i`-th argument is the first with the tag. */
  ghost predicate IsFirstTagged(args: seq<Arg>, tag: Str, i: nat) {
    i < |args| && args[i].tag == tag && forall j | 0 <= j < i :: args[j].tag != tag
  }

  /**
   Where a path starts.  In an only argument, the whole path; among several, in the first one that has
   the first section for its tag, the rest of the path.
   */
  ghost predicate StartsAt(args: seq<Arg>, sections: seq<Str>, model: Model, rest: seq<Str>) {
    && sections != []
    && (|args| == 1 ==> model == args[0].model && rest == sections)
    && (|args| != 1 ==>
        rest == sections[1..] && exists i: nat :: IsFirstTagged(args, sections[0], i) && model == args[i].model)
  }

  lemma {:induction false} FirstTagged(args: seq<Arg>, tag: Str) returns (i: nat)
    requires exists k :: 0 <= k < |args| && args[k].tag == tag
    ensures IsFirstTagged(args, tag, i)
  {
    i := 0;
    while args[i].tag != tag
      invariant i < |args| && forall j | 0 <= j < i :: args[j].tag != tag
      invariant exists k :: i <= k < |args| && args[k].tag == tag
      decreases |args| - i
    {
      i := i + 1;
    }
  }

  /** The builder starts a path where it should, and nowhere exactly when no argument has the tag. */
  lemma SourceExact(args: seq<Arg>, sections: seq<Str>)
    ensures forall model, rest ::
      Source(args, sections) == Some((model, rest)) <==> StartsAt(args, sections, model, rest)
    ensures Source(args, sections) == None
            <==> sections == [] || (|args| != 1 && forall i | 0 <= i < |args| :: args[i].tag != sections[0])
  {
    if sections != [] && |args| > 1 {
      CollectExact(args, sections[0]);
      if sections[0] in Collect(args) {
        var i := FirstTagged(args, sections[0]);
      }
    }
  }

  /** What a placeholder finds. */
  datatype Found = FoundValue(v: Value) | FoundList(vals: seq<Str>) | Nothing

  function Lookup(stub: Stub, args: seq<Arg>): Found {
    match Source(args, PathSections(stub.value))
    case None => Nothing
    case Some((model, sections)) =>
      if stub.kind == FIELD then
        match PlainVal(model, sections) { case Leaf(v) => FoundValue(v) case _ => Nothing }
      else
        match ListVal(model, sections) { case Texts(vals) => FoundList(vals) case _ => Nothing }
  }

  /** What a placeholder should find: where its path starts, the value or list that descent reaches. */
  ghost predicate StandsFor(stub: Stub, args: seq<Arg>, found: Found) {
    match found
    case FoundValue(v) =>
      stub.kind == FIELD && exists model, rest ::
        StartsAt(args, PathSections(stub.value), model, rest) && ReachesValue(model, rest, v)
    case FoundList(vals) =>
      stub.kind == LIST && exists model, rest, items ::
        StartsAt(args, PathSections(stub.value), model, rest) && ReachesList(model, rest, items)
        && PlainTexts(items) == Texts(vals)
    case Nothing => false
  }

  /** The list that direct descent reaches, from an object by names, from a list by indices. */
  ghost predicate ReachesList(m: Model, sections: seq<Str>, items: seq<Model>) {
    && sections != []
    && if m.Object? then Descend(m, Fields(sections)) == Some(List(items))
       else
         && m.List? && (forall i | 0 <= i < |sections| :: IsBracketed(sections[i]))
         && Descend(m, Indices(sections)) == Some(List(items))
  }

  lemma FirstUnbracketed(sections: seq<Str>) returns (k: nat)
    ensures k <= |sections| && forall i | 0 <= i < k :: IsBracketed(sections[i])
    ensures k < |sections| ==> !IsBracketed(sections[k])
  {
    k := 0;
    while k < |sections| && IsBracketed(sections[k])
      invariant k <= |sections| && forall i | 0 <= i < k :: IsBracketed(sections[i])
    {
      k := k + 1;
    }
  }

  /** A list placeholder has texts exactly when descent reaches a list that has them. */
  lemma ListTexts(m: Model, sections: seq<Str>, vals: seq<Str>)
    ensures ListVal(m, sections) == Texts(vals)
            <==> exists items :: ReachesList(m, sections, items) && PlainTexts(items) == Texts(vals)
  {
    hide ListVal, Descend, PlainTexts, IsBracketed, Fields, Indices;
    var k := FirstUnbracketed(sections);
    ListValExact(m, sections, k);
    if ListVal(m, sections) == Texts(vals) {
      assert k == |sections| ==> sections[..k] == sections;
      var end := if m.Object? then Descend(m, Fields(sections)) else Descend(m, Indices(sections));
      assert ReachesList(m, sections, end.value.items);
    }
  }

  /** The builder finds for a placeholder exactly what it should find. */
  lemma LookupExact(stub: Stub, args: seq<Arg>, found: Found)
    requires stub.kind != LITERAL && found != Nothing
    ensures Lookup(stub, args) == found <==> StandsFor(stub, args, found)
  {
    hide PathSections, PlainVal, ListVal, ReachesValue, MeetsNull, ReachesList, StartsAt, Source, PlainTexts;
    var sections := PathSections(stub.value);
    SourceExact(args, sections);
    match Source(args, sections)
    case None =>
    case Some((model, rest)) =>
      PlainValExact(model, rest);
      if found.FoundList? {
        ListTexts(model, rest, found.vals);
      }
  }

  /** `tag.path` reads what descent along the path reaches in the model of the first argument with the tag. */
  lemma TaggedReads(args: seq<Arg>, tag: Str, i: nat, path: seq<PathStep>, gaps: seq<nat>, v: Value)
    requires |args| > 1 && IsFirstTagged(args, tag, i) && args[i].model.Object?
    requires AreGaps(gaps, |path| + 1) && IsPrintable([Field(tag)] + path)
    requires Descend(args[i].model, path) == Some(Plain(v))
    ensures Lookup(Stub(FIELD, PrintPath([Field(tag)] + path, gaps)), args) == FoundValue(v)
  {
    hide PathSections, PlainVal, Descend, Source, PrintPath;
    var all := [Field(tag)] + path;
    PrintedSections(all, gaps);
    var sections := PrintSteps(all);
    assert sections[0] == tag && sections[1..] == PrintSteps(path);
    SourceExact(args, sections);
    assert StartsAt(args, sections, args[i].model, PrintSteps(path));
    PrintsSpelled(path);
    PlainValExact(args[i].model, PrintSteps(path));
    assert ReachesValue(args[i].model, PrintSteps(path), v);
  }

  /** With one argument the whole path is walked in it, whatever its tag. */
  lemma OnlyReads(arg: Arg, path: seq<PathStep>, gaps: seq<nat>, v: Value)
    requires arg.model.Object? && path != []
    requires AreGaps(gaps, |path|) && IsPrintable(path)
    requires Descend(arg.model, path) == Some(Plain(v))
    ensures Lookup(Stub(FIELD, PrintPath(path, gaps)), [arg]) == FoundValue(v)
  {
    hide PathSections, PlainVal, Descend, Source, PrintPath;
    PrintedSections(path, gaps);
    SourceExact([arg], PrintSteps(path));
    assert StartsAt([arg], PrintSteps(path), arg.model, PrintSteps(path));
    AccessRoundTrip(arg.model, path, gaps, v);
  }

  // ---------------------------------------------------------------------------------------
  // Refusals
  // ---------------------------------------------------------------------------------------

  /** The path starts somewhere but its placeholder finds nothing there, without meeting a null pointer. */
  ghost predicate ComesToNothing(kind: StubType, model: Model, rest: seq<Str>) {
    if kind == FIELD then !MeetsNull(model, rest) && forall v :: !ReachesValue(model, rest, v)
    else ListVal(model, rest) == NoList
  }

  ghost predicate StartsNowhere(args: seq<Arg>, sections: seq<Str>) {
    sections == [] || (|args| != 1 && forall i | 0 <= i < |args| :: args[i].tag != sections[0])
  }

  /** A placeholder is refused exactly when its path starts nowhere or comes to nothing; nothing is written then. */
  lemma RefusedExact(cs: Charset, sql: Str, stub: Stub, args: seq<Arg>)
    requires stub.kind != LITERAL
    ensures Append(cs, sql, stub, args).Refused? <==>
      || StartsNowhere(args, PathSections(stub.value))
      || exists model, rest ::
        StartsAt(args, PathSections(stub.value), model, rest) && ComesToNothing(stub.kind, model, rest)
    ensures Append(cs, sql, stub, args).Refused? ==> Append(cs, sql, stub, args).sql == sql
  {
    hide PathSections, PlainVal, ListVal, ReachesValue, MeetsNull, StartsAt, Source, FitsBuffer, ListText, FieldText;
    var sections := PathSections(stub.value);
    SourceExact(args, sections);
    match Source(args, sections)
    case None =>
    case Some((model, rest)) =>
      PlainValExact(model, rest);
      if PlainVal(model, rest).Leaf? {
        assert ReachesValue(model, rest, PlainVal(model, rest).value);
      }
      assert Append(cs, sql, stub, args).Refused? <==> ComesToNothing(stub.kind, model, rest);
  }

  /** The source has no defined result for a placeholder in these cases only. */
  lemma UndefinedExact(cs: Charset, sql: Str, stub: Stub, args: seq<Arg>)
    requires stub.kind != LITERAL
    ensures Append(cs, sql, stub, args).Undefined? <==>
      exists model, rest :: StartsAt(args, PathSections(stub.value), model, rest) &&
        if stub.kind == FIELD then
          || MeetsNull(model, rest)
          || exists v :: ReachesValue(model, rest, v) && (v.Char? || v.String?) && !FitsBuffer(cs, Text(v))
        else
          || ListVal(model, rest) == Unchecked
          || exists vals :: ListVal(model, rest) == Texts(vals) &&
               ((exists i :: 0 <= i < |vals| && !FitsBuffer(cs, vals[i])) || (vals == [] && sql == []))
  {
    hide PathSections, PlainVal, ListVal, ReachesValue, MeetsNull, StartsAt, Source, FitsBuffer, FieldText, Text;
    var sections := PathSections(stub.value);
    SourceExact(args, sections);
    match Source(args, sections)
    case None =>
    case Some((model, rest)) =>
      PlainValExact(model, rest);
      if stub.kind == FIELD {
        if v :| ReachesValue(model, rest, v) {
          assert PlainVal(model, rest) == Leaf(v);
        }
      } else if ListVal(model, rest).Texts? {
        var vals := ListVal(model, rest).vals;
        ListTextEmpty(cs, vals);
      }
  }

  lemma ListTextEmpty(cs: Charset, vals: seq<Str>)
    ensures ListText(cs, vals) == [] <==> vals == []
  {
  }

  /** A statement is refused exactly at its first placeholder that is, with the text of the pieces before it. */
  lemma {:induction false} RefusedFirst(cs: Charset, sql: Str, stubs: seq<Stub>, args: seq<Arg>, text: Str)
    ensures AppendAll(cs, sql, stubs, args) == Refused(text) <==>
      exists i :: 0 <= i < |stubs| && AppendAll(cs, sql, stubs[..i], args) == Done(text)
        && Append(cs, text, stubs[i], args).Refused?
    decreases stubs
  {
    hide Append;
    if stubs == [] {
    } else {
      var first, rest := Append(cs, sql, stubs[0], args), stubs[1..];
      forall i | 0 <= i <= |stubs|
        ensures AppendAll(cs, sql, stubs[..i], args) ==
          if i == 0 then Done(sql) else if first.Done? then AppendAll(cs, first.sql, rest[..i - 1], args) else first
      {
        assert i > 0 ==> stubs[..i][0] == stubs[0] && stubs[..i][1..] == rest[..i - 1];
      }
      RefusedHere(cs, sql, stubs[0], args);
      if first.Done? {
        RefusedFirst(cs, first.sql, rest, args, text);
        if i :| 0 <= i < |rest| && AppendAll(cs, first.sql, rest[..i], args) == Done(text)
                && Append(cs, text, rest[i], args).Refused? {
          assert stubs[i + 1] == rest[i];
          assert AppendAll(cs, sql, stubs[..i + 1], args) == Done(text);
        }
        if i :| 0 <= i < |stubs| && AppendAll(cs, sql, stubs[..i], args) == Done(text)
                && Append(cs, text, stubs[i], args).Refused? {
          assert i > 0 ==> stubs[i] == rest[i - 1] && AppendAll(cs, first.sql, rest[..i - 1], args) == Done(text);
        }
      }
    }
  }

  lemma RefusedHere(cs: Charset, sql: Str, stub: Stub, args: seq<Arg>)
    ensures Append(cs, sql, stub, args).Refused? ==> Append(cs, sql, stub, args) == Refused(sql)
  {
    hide PathSections, PlainVal, ListVal, Source, FitsBuffer, FieldText, ListText;
  }
}
