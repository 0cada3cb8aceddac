/**
 Access paths: how the name inside a placeholder, such as `user.tags.<2>`, reaches a value of a
 model tree (sql_builder.cpp).
 */
module AccessPath {
  import opened Bytes
  import opened Decimal
  import opened Models
  import opened Options
  import opened Splitting

  // ---------------------------------------------------------------------------------------
  // split_section
  // ---------------------------------------------------------------------------------------

  /** The position of the first zero byte, where C string functions stop, or the length. */
  function CLength(s: Str): (n: nat)
    ensures n <= |s| && Free(s[..n], NUL) && (n < |s| ==> s[n] == NUL)
  {
    if s == [] || s[0] == NUL then 0
    else
      var n := 1 + CLength(s[1..]);
      assert s[..n] == [s[0]] + s[1..][..n - 1];
      n
  }

  /** The pieces of the text from position `begin` on, when reading stops at the zero byte at `end`. */
  function SectionsUpTo(s: Str, begin: nat, end: nat): seq<Str>
    requires begin <= end <= |s|
  {
    if begin == end then []
    else
      var secs := Sections(s[begin..end], DOT);
      if secs == [] || s[end - 1] == DOT then secs
      else secs[..|secs| - 1] + [secs[|secs| - 1] + s[end..]]
  }

  /**
   What `split_section` yields: the pieces between the dots, except that a zero byte ends the
   search for dots and everything from the last piece on is taken whole.
   */
  function PathSections(s: Str): seq<Str> {
    if s == [] then []
    else if CLength(s) == 0 then [s]
    else SectionsUpTo(s, 0, CLength(s))
  }

  /** Without a zero byte it is the same as `split`. */
  lemma PathSectionsSplit(s: Str)
    requires Free(s, NUL)
    ensures PathSections(s) == Sections(s, DOT)
  {
    if s != [] {
      assert CLength(s) == |s|;
      assert s[0..|s|] == s && s[|s|..] == [];
      var secs := Sections(s, DOT);
      if secs != [] {
        assert secs[|secs| - 1] + [] == secs[|secs| - 1];
        assert secs[..|secs| - 1] + [secs[|secs| - 1]] == secs;
      }
    }
  }

  /** The first zero byte hides the dots behind it, and goes with the piece it stands in if there is one. */
  lemma PathSectionsZero(a: Str, b: Str)
    requires Free(a, 0x00)
    ensures var s, secs := a + ([0x00] + b), Sections(a, 0x2E);
      PathSections(s) ==
      if a == [] then [s]
      else if secs == [] || a[|a| - 1] == 0x2E then secs
      else secs[..|secs| - 1] + [secs[|secs| - 1] + ([0x00] + b)]
  {
    var s := a + ([0x00] + b);
    CLengthAt(a, b);
    assert s[0..|a|] == a && s[|a|..] == [0x00] + b;
  }

  lemma {:induction false} CLengthAt(a: Str, b: Str)
    requires Free(a, 0x00)
    ensures CLength(a + ([0x00] + b)) == |a|
    decreases a
  {
    if a == [] {
    } else {
      assert (a + ([0x00] + b))[1..] == a[1..] + ([0x00] + b);
      CLengthAt(a[1..], b);
    }
  }

  lemma SectionsUpToCut(s: Str, begin: nat, pos: nat, end: nat)
    requires begin <= pos < end <= |s|
    requires Free(s[begin..pos], DOT) && s[pos] == DOT
    ensures SectionsUpTo(s, begin, end) ==
            (if begin < pos then [s[begin..pos]] else []) + SectionsUpTo(s, pos + 1, end)
  {
    var text, rest := s[begin..pos], s[pos + 1..end];
    assert s[begin..end] == text + ([DOT] + rest);
    SectionsCut(text, rest, DOT);
    var head := if begin < pos then [text] else [];
    var tail := Sections(rest, DOT);
    assert Sections(s[begin..end], DOT) == head + tail;
    if pos + 1 < end && s[end - 1] != DOT {
      NoDotAtEnd(rest);
      assert (head + tail)[..|head + tail| - 1] == head + tail[..|tail| - 1];
    }
  }

  lemma NoDotAtEnd(s: Str)
    requires s != [] && s[|s| - 1] != DOT
    ensures Sections(s, DOT) != []
  {
    var gaps := SpreadOfSections([], s, DOT);
    assert [] + s == s;
    var n := gaps[0];
    RepeatAll(DOT, n);
    assert Sections(s, DOT) == [] ==> s == Repeat(DOT, n);
  }

  lemma RepeatAll<T>(d: T, n: nat)
    ensures forall i | 0 <= i < n :: Repeat(d, n)[i] == d
  {
  }

  method SplitSection(sectionStr: Str) returns (sections: seq<Str>)
    ensures sections == PathSections(sectionStr)
  {
    sections := [];
    if sectionStr == [] {
      return;
    }
    var begin, end := 0, CLength(sectionStr);
    var more := true;
    while more
      invariant begin <= end
      invariant more || begin == end
      invariant begin == end && more ==> end == 0 && sections == []
      invariant end > 0 ==> SectionsUpTo(sectionStr, 0, end) == sections + SectionsUpTo(sectionStr, begin, end)
      invariant end == 0 && !more ==> sections == [sectionStr]
      decreases end - begin, more
    {
      var pos := Find(sectionStr, DOT, begin, end);
      if pos < end {
        SectionsUpToCut(sectionStr, begin, pos, end);
        if pos == begin {
          begin := pos + 1;
        } else {
          sections := sections + [sectionStr[begin..pos]];
          begin := pos + 1;
        }
        more := begin != end;
      } else {
        LastSection(sectionStr, begin, end);
        assert sectionStr[0..] == sectionStr;
        sections := sections + [sectionStr[begin..]];
        begin := end;
        more := false;
      }
    }
  }

  lemma LastSection(s: Str, begin: nat, end: nat)
    requires begin <= end <= |s| && Free(s[begin..end], DOT)
    ensures begin < end ==> SectionsUpTo(s, begin, end) == [s[begin..]]
  {
    if begin < end {
      SectionsCut(s[begin..end], [], DOT);
      assert s[end - 1] == s[begin..end][end - 1 - begin];
      assert s[begin..end] + s[end..] == s[begin..];
    }
  }

  // ---------------------------------------------------------------------------------------
  // get_plain_val
  // ---------------------------------------------------------------------------------------

  /** A list index written as `<i>`. */
  predicate IsIndex(section: Str) {
    section != [] && section[0] == LESS && section[|section| - 1] == GREATER
  }

  function IndexOf(section: Str): nat
    requires section != []
  {
    Strtoul(section[1..])
  }

  /** `Dereferenced` stands for following a null pointer, which the source does not guard against. */
  datatype Access = Leaf(value: Value) | NotFound | Dereferenced

  function Travel(travel: Model, sections: seq<Str>): Access
    decreases sections
  {
    if travel.Null? then Dereferenced
    else if travel.Plain? then Leaf(travel.value)
    else if sections == [] then NotFound
    else match travel {
      case Object(_, _, _) =>
        match Member(travel, sections[0]) {
          case None => NotFound
          case Some(m) => Travel(m, sections[1..])
        }
      case List(items) =>
        if !IsIndex(sections[0]) then NotFound else Travel(At(items, IndexOf(sections[0])), sections[1..])
      case Void => Travel(travel, sections[1..])
    }
  }

  function PlainVal(model: Model, sections: seq<Str>): Access {
    if model.Null? then NotFound
    else if model.Plain? then Leaf(model.value)
    else if sections == [] || !model.Object? then NotFound
    else Travel(model, sections)
  }

  /** The result is None when the path reaches no value. */
  method GetPlainVal(model: Model, sections: seq<Str>) returns (val: Option<Value>)
    requires PlainVal(model, sections) != Dereferenced
    requires forall i | 0 <= i < |sections| :: sections[i] != []
    ensures val == match PlainVal(model, sections) { case Leaf(v) => Some(v) case _ => None }
  {
    if model.Null? {
      return None;
    }
    if model.Plain? {
      return Some(model.value);
    }
    if sections == [] || !model.Object? {
      return None;
    }
    var travel := model;
    assert sections[0..] == sections;
    for i := 0 to |sections|
      invariant Travel(travel, sections[i..]) == Travel(model, sections)
    {
      var section := sections[i];
      assert sections[i..][0] == section && sections[i..][1..] == sections[i + 1..];
      match travel {
        case Plain(v) => return Some(v);
        case Object(_, _, _) =>
          match Member(travel, section) {
            case None => return None;
            case Some(m) => travel := m;
          }
        case List(items) =>
          if section[0] != LESS || section[|section| - 1] != GREATER {
            return None;
          }
          travel := At(items, Strtoul(section[1..]));
        case Void =>
      }
    }
    if travel.Plain? {
      return Some(travel.value);
    }
    return None;
  }

  // ---------------------------------------------------------------------------------------
  // Printed paths
  // ---------------------------------------------------------------------------------------

  datatype PathStep = Field(name: Str) | Index(i: uint64)

  /**
   Direct descent: a field of an object, looked for among its plain members, its lists and its
   objects; an item of a list, a null pointer behind its end.  None where there is nothing to go to.
   */
  function Descend(m: Model, path: seq<PathStep>): Option<Model>
    decreases path
  {
    if path == [] then Some(m)
    else match (m, path[0]) {
      case (Object(plains, lists, objects), Field(name)) =>
        if name in plains then Descend(Plain(plains[name]), path[1..])
        else if name in lists then Descend(List(lists[name].items), path[1..])
        else if name in objects then Descend(objects[name], path[1..])
        else None
      case (List(items), Index(i)) => Descend(if i < |items| then items[i] else Null, path[1..])
      case _ => None
    }
  }

  function PrintStep(step: PathStep): Str {
    match step
    case Field(name) => name
    case Index(i) => [LESS] + OfNat(i) + [GREATER]
  }

  function PrintSteps(path: seq<PathStep>): seq<Str> {
    seq(|path|, i requires 0 <= i < |path| => PrintStep(path[i]))
  }

  /** The path written with `gaps[i]` dots before its `i`-th step. */
  function PrintPath(path: seq<PathStep>, gaps: seq<nat>): Str
    requires |gaps| == |path| + 1
  {
    Spread(PrintSteps(path), gaps, DOT)
  }

  /** Field names that a template can carry: not empty, no dot, no zero byte. */
  predicate IsPrintable(path: seq<PathStep>) {
    forall i | 0 <= i < |path| && path[i].Field? ::
      IsSection(path[i].name, DOT) && Free(path[i].name, NUL)
  }

  lemma StepPrints(step: PathStep)
    requires step.Field? ==> IsSection(step.name, DOT) && Free(step.name, NUL)
    ensures IsSection(PrintStep(step), DOT) && Free(PrintStep(step), NUL)
  {
  }

  lemma {:induction false} SpreadFree(secs: seq<Str>, gaps: seq<nat>)
    requires |gaps| == |secs| + 1
    requires forall i | 0 <= i < |secs| :: Free(secs[i], NUL)
    ensures Free(Spread(secs, gaps, DOT), NUL)
  {
    RepeatAll(DOT, gaps[0]);
    if secs == [] {
    } else {
      SpreadFree(secs[1..], gaps[1..]);
    }
  }

  lemma PrintedSections(path: seq<PathStep>, gaps: seq<nat>)
    requires AreGaps(gaps, |path|) && IsPrintable(path)
    ensures PathSections(PrintPath(path, gaps)) == PrintSteps(path)
  {
    var secs := PrintSteps(path);
    forall i | 0 <= i < |secs|
      ensures IsSection(secs[i], DOT) && Free(secs[i], NUL)
    {
      StepPrints(path[i]);
    }
    SpreadFree(secs, gaps);
    SectionsOfSpread(secs, gaps, DOT);
    PathSectionsSplit(PrintPath(path, gaps));
  }

  lemma IndexPrints(i: uint64)
    ensures IsIndex(PrintStep(Index(i))) && IndexOf(PrintStep(Index(i))) == i
  {
    var s := PrintStep(Index(i));
    assert s[1..] == OfNat(i) + [GREATER];
    StrtoulOfNat(i, [GREATER]);
  }

  // ---------------------------------------------------------------------------------------
  // What a walk finds
  // ---------------------------------------------------------------------------------------

  /** A name stands for the field, `<` a number `>` for the item with the index that `strtoul` reads. */
  predicate IsSpelled(section: Str, step: PathStep) {
    match step
    case Field(name) => section == name
    case Index(i) => section != [] && section[0] == 0x3C && section[|section| - 1] == 0x3E && Strtoul(section[1..]) == i
  }

  /** The first sections spell the path. */
  predicate AreSpelled(sections: seq<Str>, path: seq<PathStep>) {
    |path| <= |sections| && forall i | 0 <= i < |path| :: IsSpelled(sections[i], path[i])
  }

  lemma SpelledTail(sections: seq<Str>, path: seq<PathStep>)
    requires path != [] && |path| <= |sections|
    ensures AreSpelled(sections, path) <==> IsSpelled(sections[0], path[0]) && AreSpelled(sections[1..], path[1..])
  {
    hide IsSpelled;
    if IsSpelled(sections[0], path[0]) && AreSpelled(sections[1..], path[1..]) {
      forall i | 0 <= i < |path|
        ensures IsSpelled(sections[i], path[i])
      {
        if i > 0 {
          assert sections[i] == sections[1..][i - 1] && path[i] == path[1..][i - 1];
        }
      }
    }
  }

  /** A walk ends at the first plain value on its way, and fails at the first null pointer. */
  lemma {:induction false} TravelReaches(m: Model, sections: seq<Str>, path: seq<PathStep>)
    requires AreSpelled(sections, path) && Descend(m, path).Some?
    ensures var end := Descend(m, path).value;
      && (end.Plain? ==> Travel(m, sections) == Leaf(end.value))
      && (end.Null? ==> Travel(m, sections) == Dereferenced)
    decreases path
  {
    hide Strtoul;
    if path == [] {
    } else {
      SpelledTail(sections, path);
      match (m, path[0]) {
        case (Object(_, _, _), Field(name)) =>
          TravelReaches(Member(m, name).value, sections[1..], path[1..]);
        case (List(items), Index(i)) =>
          TravelReaches(At(items, i), sections[1..], path[1..]);
      }
    }
  }

  /** A walk that finds a value or a null pointer has descended to it. */
  lemma {:induction false} TravelSound(m: Model, sections: seq<Str>) returns (path: seq<PathStep>)
    requires !Travel(m, sections).NotFound?
    ensures AreSpelled(sections, path)
    ensures Descend(m, path) == Some(if Travel(m, sections).Leaf? then Plain(Travel(m, sections).value) else Null)
    decreases sections
  {
    hide Strtoul;
    path := [];
    match m {
      case Null =>
      case Plain(_) =>
      case Object(_, _, _) =>
        var tail := TravelSound(Member(m, sections[0]).value, sections[1..]);
        path := [Field(sections[0])] + tail;
        assert path[1..] == tail;
        SpelledTail(sections, path);
      case List(items) =>
        var tail := TravelSound(At(items, IndexOf(sections[0])), sections[1..]);
        path := [Index(IndexOf(sections[0]))] + tail;
        assert path[1..] == tail;
        SpelledTail(sections, path);
      case Void =>
        VoidTravel(sections);
    }
  }

  /** Direct descent along some of the first sections ends at the plain value; sections behind it do not matter. */
  ghost predicate ReachesValue(m: Model, sections: seq<Str>, v: Value) {
    m == Plain(v) ||
    (m.Object? && exists path :: AreSpelled(sections, path) && Descend(m, path) == Some(Plain(v)))
  }

  ghost predicate MeetsNull(m: Model, sections: seq<Str>) {
    m.Object? && exists path :: AreSpelled(sections, path) && Descend(m, path) == Some(Null)
  }

  /** The walk finds exactly what direct descent reaches, and follows a null pointer exactly where descent meets one. */
  lemma PlainValExact(m: Model, sections: seq<Str>)
    ensures forall v :: PlainVal(m, sections) == Leaf(v) <==> ReachesValue(m, sections, v)
    ensures PlainVal(m, sections) == Dereferenced <==> MeetsNull(m, sections)
  {
    hide AreSpelled;
    if m.Object? {
      if sections != [] && !Travel(m, sections).NotFound? {
        var path := TravelSound(m, sections);
      }
      forall path | AreSpelled(sections, path) && Descend(m, path).Some?
        ensures var end := Descend(m, path).value;
          && (end.Plain? ==> PlainVal(m, sections) == Leaf(end.value))
          && (end.Null? ==> PlainVal(m, sections) == Dereferenced)
      {
        TravelReaches(m, sections, path);
        NothingSpelled(sections, path);
      }
    }
  }

  lemma NothingSpelled(sections: seq<Str>, path: seq<PathStep>)
    requires AreSpelled(sections, path)
    ensures sections == [] ==> path == []
  {
  }

  lemma PrintsSpelled(path: seq<PathStep>)
    ensures AreSpelled(PrintSteps(path), path)
  {
    forall i | 0 <= i < |path|
      ensures IsSpelled(PrintSteps(path)[i], path[i])
    {
      if path[i].Index? {
        IndexPrints(path[i].i);
      }
    }
  }

  /** A printed path reaches the value that direct descent reaches. */
  lemma AccessRoundTrip(m: Model, path: seq<PathStep>, gaps: seq<nat>, v: Value)
    requires m.Object? && AreGaps(gaps, |path|) && IsPrintable(path)
    requires Descend(m, path) == Some(Plain(v))
    ensures PlainVal(m, PathSections(PrintPath(path, gaps))) == Leaf(v)
  {
    hide PathSections, Descend, PrintSteps, PlainVal;
    PrintedSections(path, gaps);
    PrintsSpelled(path);
    PlainValExact(m, PrintSteps(path));
    assert ReachesValue(m, PrintSteps(path), v);
  }

  lemma {:induction false} VoidTravel(sections: seq<Str>)
    ensures Travel(Void, sections) == NotFound
  {
    if sections == [] {
    } else {
      VoidTravel(sections[1..]);
    }
  }

  // ---------------------------------------------------------------------------------------
  // get_list_val
  // ---------------------------------------------------------------------------------------

  /**
   `Unchecked` stands for what the source leaves to its caller: a null pointer on the path or in
   the list, a name that is no member, or a step through a node of the wrong kind.
   */
  datatype ListAccess = Texts(vals: seq<Str>) | NoList | Unchecked

  /** The texts of the plain items of a list; other items are passed over. */
  function PlainTexts(items: seq<Model>): (r: ListAccess)
    ensures !r.NoList?
  {
    if items == [] then Texts([])
    else match items[0] {
      case Null => Unchecked
      case Plain(v) =>
        var rest := PlainTexts(items[1..]);
        if rest.Texts? then Texts([Text(v)] + rest.vals) else Unchecked
      case _ => PlainTexts(items[1..])
    }
  }

  /** One step of the walk: its kind is that of the model it started from, not of the node it is at. */
  function ListStep(model: Model, travel: Model, section: Str): (Option<Model>, ListAccess) {
    match model
    case Object(_, _, _) =>
      if !travel.Object? then (None, Unchecked)
      else match Member(travel, section) {
        case None => (None, Unchecked)
        case Some(m) => (Some(m), NoList)
      }
    case List(_) =>
      if !IsIndex(section) then (None, NoList)
      else if !travel.List? then (None, Unchecked)
      else (Some(At(travel.items, IndexOf(section))), NoList)
    case _ => (Some(travel), NoList)
  }

  function ListTravel(model: Model, travel: Model, sections: seq<Str>): ListAccess
    decreases sections
  {
    if sections == [] then
      match travel {
        case Null => Unchecked
        case List(items) => PlainTexts(items)
        case _ => NoList
      }
    else
      var (next, stop) := ListStep(model, travel, sections[0]);
      if next.None? then stop else ListTravel(model, next.value, sections[1..])
  }

  function ListVal(model: Model, sections: seq<Str>): ListAccess {
    if sections == [] || model.Null? then NoList
    else if |sections| == 1 && model.Plain? then NoList
    else ListTravel(model, model, sections)
  }

  /** The loop over a list: collects the texts of its plain items. */
  method CollectTexts(items: seq<Model>) returns (texts: seq<Str>)
    requires PlainTexts(items) != Unchecked
    ensures PlainTexts(items) == Texts(texts)
  {
    texts := [];
    assert items[0..] == items;
    for i := 0 to |items|
      invariant PlainTexts(items[i..]).Texts?
      invariant PlainTexts(items) == Texts(texts + PlainTexts(items[i..]).vals)
    {
      assert items[i..][0] == items[i] && items[i..][1..] == items[i + 1..];
      if items[i].Plain? {
        texts := texts + [Text(items[i].value)];
      }
    }
  }

  /** The result is None when the path reaches no list. */
  method GetListVal(model: Model, sections: seq<Str>) returns (vals: Option<seq<Str>>)
    requires ListVal(model, sections) != Unchecked
    requires forall i | 0 <= i < |sections| :: sections[i] != []
    ensures vals == match ListVal(model, sections) { case Texts(ts) => Some(ts) case _ => None }
  {
    if sections == [] || model.Null? {
      return None;
    }
    var travel := model;
    assert sections[0..] == sections;
    for i := 0 to |sections|
      invariant |sections| == 1 && model.Plain? ==> i == 0
      invariant (|sections| == 1 && model.Plain?)
                || ListTravel(model, travel, sections[i..]) == ListVal(model, sections)
    {
      var section := sections[i];
      assert sections[i..][0] == section && sections[i..][1..] == sections[i + 1..];
      if |sections| == 1 && model.Plain? {
        return None;
      }
      if model.Object? {
        travel := Member(travel, section).value;
      } else if model.List? {
        if section[0] != LESS || section[|section| - 1] != GREATER {
          return None;
        }
        travel := At(travel.items, Strtoul(section[1..]));
      }
    }
    if travel.List? {
      var texts := CollectTexts(travel.items);
      return Some(texts);
    }
    return None;
  }

  /** A list without a null pointer yields texts. */
  lemma {:induction false} PlainTextsDefined(items: seq<Model>)
    ensures PlainTexts(items).Texts? <==> Null !in items
  {
    hide Text;
    if items == [] {
    } else {
      assert items == [items[0]] + items[1..];
      PlainTextsDefined(items[1..]);
    }
  }

  /** The texts of plain items, in order. */
  lemma {:induction false} PlainTextsExact(items: seq<Model>)
    requires forall i | 0 <= i < |items| :: items[i].Plain?
    ensures var texts := PlainTexts(items);
      texts.Texts? && |texts.vals| == |items| &&
      forall i | 0 <= i < |items| :: texts.vals[i] == Text(items[i].value)
  {
    hide Text;
    if items == [] {
    } else {
      var rest := items[1..];
      assert forall i | 0 <= i < |rest| :: rest[i] == items[i + 1];
      PlainTextsExact(rest);
    }
  }

  /** Any item adds its text if it is plain, and nothing if it is not, in its place. */
  lemma {:induction false} PlainTextsOf(a: seq<Model>, m: Model, b: seq<Model>)
    requires PlainTexts(a).Texts? && !m.Null? && PlainTexts(b).Texts?
    ensures PlainTexts([]) == Texts([])
    ensures PlainTexts(a + ([m] + b))
            == Texts(PlainTexts(a).vals + (if m.Plain? then [Text(m.value)] else []) + PlainTexts(b).vals)
    decreases a
  {
    hide Text;
    var all := a + ([m] + b);
    if a == [] {
      assert all == [m] + b && all[1..] == b;
    } else {
      assert all[0] == a[0] && all[1..] == a[1..] + ([m] + b);
      PlainTextsOf(a[1..], m, b);
    }
  }

  /** Every section taken as a field, or as an index. */
  function Fields(sections: seq<Str>): seq<PathStep> {
    seq(|sections|, i requires 0 <= i < |sections| => Field(sections[i]))
  }

  /** `<`, anything, `>`. */
  predicate IsBracketed(section: Str) {
    section != [] && section[0] == 0x3C && section[|section| - 1] == 0x3E
  }

  function Indices(sections: seq<Str>): seq<PathStep>
    requires forall i | 0 <= i < |sections| :: IsBracketed(sections[i])
  {
    seq(|sections|, i requires 0 <= i < |sections| && IsBracketed(sections[i]) => Index(Strtoul(sections[i][1..])))
  }

  /** What the walk yields when descent ends here: only a list has texts. */
  function ListEnd(end: Option<Model>): ListAccess {
    match end
    case Some(List(items)) => PlainTexts(items)
    case Some(Null) => Unchecked
    case Some(_) => NoList
    case None => Unchecked
  }

  /** From an object, the sections are names all the way, whatever they look like. */
  lemma {:induction false} FieldWalk(model: Model, m: Model, sections: seq<Str>)
    requires model.Object?
    ensures ListTravel(model, m, sections) == ListEnd(Descend(m, Fields(sections)))
    decreases sections
  {
    hide PlainTexts;
    if sections == [] {
    } else {
      assert Fields(sections)[1..] == Fields(sections[1..]);
      if m.Object? && Member(m, sections[0]).Some? {
        FieldWalk(model, Member(m, sections[0]).value, sections[1..]);
      }
    }
  }

  /** From a list, the sections are indices up to the first that is not bracketed. */
  lemma {:induction false} IndexWalk(model: Model, m: Model, sections: seq<Str>, k: nat)
    requires model.List? && k <= |sections| && forall i | 0 <= i < k :: IsBracketed(sections[i])
    requires k < |sections| ==> !IsBracketed(sections[k])
    ensures var end := Descend(m, Indices(sections[..k]));
      ListTravel(model, m, sections)
      == if k == |sections| then ListEnd(end) else if end.Some? then NoList else Unchecked
    decreases k
  {
    hide PlainTexts, Strtoul;
    if k == 0 {
      assert Indices(sections[..0]) == [];
    } else {
      var rest := sections[1..];
      assert forall i | 0 <= i < k - 1 :: rest[i] == sections[i + 1];
      assert Indices(sections[..k])[1..] == Indices(rest[..k - 1]);
      if m.List? {
        var i := Strtoul(sections[0][1..]);
        IndexWalk(model, At(m.items, i), rest, k - 1);
      }
    }
  }

  /**
   What a list placeholder finds: from an object, the list that direct descent by the names reaches;
   from a list, the one that descent by the indices reaches; anything else is no list.
   */
  lemma ListValExact(m: Model, sections: seq<Str>, k: nat)
    requires k <= |sections| && forall i | 0 <= i < k :: IsBracketed(sections[i])
    requires k < |sections| ==> !IsBracketed(sections[k])
    ensures ListVal(m, sections) ==
      if sections == [] then NoList
      else if m.Object? then ListEnd(Descend(m, Fields(sections)))
      else if m.List? && k == |sections| then ListEnd(Descend(m, Indices(sections)))
      else if m.List? && Descend(m, Indices(sections[..k])).None? then Unchecked
      else NoList
  {
    hide PlainTexts, Strtoul, Descend;
    if m.Object? {
      FieldWalk(m, m, sections);
    } else if m.List? {
      assert sections[..|sections|] == sections;
      IndexWalk(m, m, sections, k);
    } else if !m.Null? {
      StandingWalk(m, sections);
    }
  }

  lemma {:induction false} StandingWalk(m: Model, sections: seq<Str>)
    requires m.Plain? || m.Void?
    ensures ListTravel(m, m, sections) == NoList
    decreases sections
  {
    if sections == [] {
    } else {
      StandingWalk(m, sections[1..]);
    }
  }

  /** A printed path of field names reaches the list that direct descent reaches. */
  lemma ListAccessRoundTrip(m: Model, path: seq<PathStep>, gaps: seq<nat>, items: seq<Model>)
    requires m.Object? && AreGaps(gaps, |path|) && IsPrintable(path)
    requires forall i | 0 <= i < |path| :: path[i].Field?
    requires Descend(m, path) == Some(List(items))
    ensures ListVal(m, PathSections(PrintPath(path, gaps))) == PlainTexts(items)
  {
    hide PathSections, PlainTexts;
    PrintedSections(path, gaps);
    assert path != [];
    FieldWalk(m, m, PrintSteps(path));
    assert Fields(PrintSteps(path)) == path;
  }
}
