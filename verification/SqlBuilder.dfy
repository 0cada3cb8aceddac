/**
 The statement builder of sql_builder.h: registered templates, and the loop that fills a template
 from model trees.
 */
module SqlBuilder {
  import opened AccessPath
  import opened Bytes
  import opened Charset
  import opened EscapeLoop
  import opened EscapeSpec
  import opened Models
  import opened Options
  import opened Splitting
  import opened SqlPattern

  /** An argument of a statement: a model and the tag it is known by. */
  datatype Arg = Arg(tag: Str, model: Model)

  /**
   A finished statement, a refusal with what was written by then, or a case the source leaves
   undefined: a null pointer on a path, a value too long for the escape buffer, a list path it
   asserts against, or the last character of an empty statement.
   */
  datatype Outcome = Done(sql: Str) | Refused(sql: Str) | Undefined

  /** The models by tag: the first of a tag stays. */
  function Collect(args: seq<Arg>): map<Str, Model> {
    if args == [] then map[]
    else
      var init := Collect(args[..|args| - 1]);
      var arg := args[|args| - 1];
      if arg.tag in init then init else init[arg.tag := arg.model]
  }

  /** A tag stands for the first argument that has it. */
  lemma {:induction false} CollectExact(args: seq<Arg>, tag: Str)
    ensures tag in Collect(args) <==> exists i :: 0 <= i < |args| && args[i].tag == tag
    ensures forall i | 0 <= i < |args| && args[i].tag == tag && (forall j | 0 <= j < i :: args[j].tag != tag) ::
              tag in Collect(args) && Collect(args)[tag] == args[i].model
  {
    if args == [] {
    } else {
      var n := |args| - 1;
      CollectExact(args[..n], tag);
      if tag in Collect(args[..n]) {
        var i :| 0 <= i < n && args[..n][i].tag == tag;
        assert args[i].tag == tag;
      }
      assert forall i | 0 <= i < n :: args[..n][i] == args[i];
    }
  }

  /** Which model a placeholder starts from, and the rest of its path. */
  function Source(args: seq<Arg>, sections: seq<Str>): Option<(Model, seq<Str>)> {
    if sections == [] || args == [] then None
    else if |args| == 1 then Some((args[0].model, sections))
    else if sections[0] in Collect(args) then Some((Collect(args)[sections[0]], sections[1..]))
    else None
  }

  function QuoteText(cs: Charset, val: Str): Str {
    [QUOTE] + Escape(cs, Backslashes, val) + [QUOTE]
  }

  function FieldText(cs: Charset, v: Value): Str {
    if NeedsQuote(v) then QuoteText(cs, Text(v)) else Text(v)
  }

  /** The values of a list, each quoted and followed by a comma. */
  function ListText(cs: Charset, vals: seq<Str>): Str {
    if vals == [] then [] else ListText(cs, vals[..|vals| - 1]) + QuoteText(cs, vals[|vals| - 1]) + [COMMA]
  }

  function DropComma(sql: Str): Str {
    if sql != [] && sql[|sql| - 1] == COMMA then sql[..|sql| - 1] else sql
  }

  function Append(cs: Charset, sql: Str, stub: Stub, args: seq<Arg>): Outcome {
    if stub.kind == LITERAL then Done(sql + stub.value)
    else match Source(args, PathSections(stub.value)) {
      case None => Refused(sql)
      case Some((model, sections)) =>
        if stub.kind == FIELD then
          match PlainVal(model, sections) {
            case NotFound => Refused(sql)
            case Dereferenced => Undefined
            case Leaf(v) =>
              if NeedsQuote(v) && !FitsBuffer(cs, Text(v)) then Undefined
              else Done(sql + FieldText(cs, v))
          }
        else
          match ListVal(model, sections) {
            case NoList => Refused(sql)
            case Unchecked => Undefined
            case Texts(vals) =>
              if exists i | 0 <= i < |vals| :: !FitsBuffer(cs, vals[i]) then Undefined
              else if sql + ListText(cs, vals) == [] then Undefined
              else Done(DropComma(sql + ListText(cs, vals)))
          }
    }
  }

  function AppendAll(cs: Charset, sql: Str, stubs: seq<Stub>, args: seq<Arg>): Outcome
    decreases stubs
  {
    if stubs == [] then Done(sql)
    else
      var first := Append(cs, sql, stubs[0], args);
      if first.Done? then AppendAll(cs, first.sql, stubs[1..], args) else first
  }

  // ---------------------------------------------------------------------------------------
  // The builder
  // ---------------------------------------------------------------------------------------

  /** `collect_models` over the arguments in turn. */
  method CollectModels(args: seq<Arg>) returns (models: map<Str, Model>)
    ensures models == Collect(args)
  {
    models := map[];
    for i := 0 to |args|
      invariant models == Collect(args[..i])
    {
      assert args[..i + 1][..i] == args[..i];
      if args[i].tag !in models {
        models := models[args[i].tag := args[i].model];
      }
    }
    assert args[..|args|] == args;
  }

  class SqlBuilder {
    const charset: Charset
    var patterns: map<Str, Str>
    var pices: map<Str, seq<Stub>>

    /** Every method has its pattern, and the pieces of that pattern. */
    ghost predicate Valid()
      reads this
    {
      && patterns.Keys == pices.Keys
      && forall name | name in pices :: IsNormal(pices[name]) && Print(pices[name]) == patterns[name]
    }

    constructor (charset: Charset)
      ensures Valid() && pices == map[] && this.charset == charset
    {
      this.charset := charset;
      patterns, pices := map[], map[];
    }

    /** `Reg`: registers a method's template.  The source ends the program where this returns false. */
    method Register(name: Str, pattern: Str) returns (ok: bool)
      requires Valid() && IsAscii(pattern)
      modifies this
      ensures Valid()
      ensures ok <==> IsTemplate(pattern)
      ensures !ok ==> patterns == old(patterns) && pices == old(pices)
      ensures ok ==> patterns == old(if name in patterns then patterns else patterns[name := pattern])
      ensures ok ==> pices == old(if name in pices then pices else pices[name := Exploded(pattern).pieces])
    {
      var exploded, stubs, err := Explode(pattern);
      if !exploded {
        return false;
      }
      if name !in patterns {
        patterns := patterns[name := pattern];
      }
      if name !in pices {
        pices := pices[name := stubs];
      }
      return true;
    }

    /** `append_sql`. */
    method AppendSql(sql: Str, val: Str, needQuote: bool, needEscape: bool) returns (ok: bool, out: Str)
      requires needEscape ==> FitsBuffer(charset, val)
      ensures ok
      ensures var text := if needEscape then Escape(charset, Backslashes, val) else val;
              out == sql + if needQuote then [QUOTE] + text + [QUOTE] else text
    {
      out := sql;
      if needQuote {
        out := out + [QUOTE];
      }
      if needEscape {
        var escaped, escapeVal := EscapeField(charset, val);
        if !escaped {
          return false, out;
        }
        out := out + escapeVal;
      } else {
        out := out + val;
      }
      if needQuote {
        out := out + [QUOTE];
      }
      return true, out;
    }

    /** The loop over the values of a list placeholder. */
    method AppendList(sql: Str, vals: seq<Str>) returns (out: Str)
      requires forall i | 0 <= i < |vals| :: FitsBuffer(charset, vals[i])
      requires sql + ListText(charset, vals) != []
      ensures out == DropComma(sql + ListText(charset, vals))
    {
      hide EscapeSpec.Escape, FitsBuffer;
      out := sql;
      assert sql + ListText(charset, []) == sql;
      for i := 0 to |vals|
        invariant out == sql + ListText(charset, vals[..i])
      {
        assert vals[..i + 1][..i] == vals[..i];
        var ok;
        ok, out := AppendSql(out, vals[i], true, true);
        out := out + [COMMA];
      }
      assert vals[..|vals|] == vals;
      if out[|out| - 1] == COMMA {
        out := out[..|out| - 1];
      }
    }

    /** One placeholder of `prepare_statement`. */
    method AppendPlaceholder(sql: Str, stub: Stub, args: seq<Arg>, models: map<Str, Model>)
      returns (ok: bool, out: Str)
      requires stub.kind != LITERAL && models == Collect(args)
      requires Append(charset, sql, stub, args) != Undefined
      ensures Append(charset, sql, stub, args) == if ok then Done(out) else Refused(out)
    {
      hide Escape, ListText, FitsBuffer, ListVal, PlainVal, PathSections;
      var sections := SplitSection(stub.value);
      PathSectionsNotEmpty(stub.value);
      if sections == [] {
        return false, sql;
      }
      if args == [] {
        return false, sql;
      }
      var model: Model;
      if |args| == 1 {
        OneModel(args);
        model := args[0].model;
      } else {
        if sections[0] !in models {
          return false, sql;
        }
        model := models[sections[0]];
        sections := sections[1..];
      }
      if stub.kind == FIELD {
        var val := GetPlainVal(model, sections);
        if val.None? {
          return false, sql;
        }
        ok, out := AppendSql(sql, Text(val.value), NeedsQuote(val.value), NeedsQuote(val.value));
      } else {
        var vals := GetListVal(model, sections);
        if vals.None? {
          return false, sql;
        }
        out := AppendList(sql, vals.value);
        ok := true;
      }
    }

    method PrepareStatement(name: Str, args: seq<Arg>) returns (ok: bool, sql: Str)
      requires name in pices ==> AppendAll(charset, [], pices[name], args) != Undefined
      ensures ok ==> name in pices && AppendAll(charset, [], pices[name], args) == Done(sql)
      ensures !ok && name in pices ==> AppendAll(charset, [], pices[name], args) == Refused(sql)
      ensures name !in pices ==> !ok && sql == []
    {
      hide Append;
      sql := [];
      var models := CollectModels(args);
      if name !in pices {
        return false, sql;
      }
      var stubs := pices[name];
      assert stubs[0..] == stubs;
      for i := 0 to |stubs|
        invariant AppendAll(charset, sql, stubs[i..], args) == AppendAll(charset, [], stubs, args)
      {
        var stub := stubs[i];
        assert stubs[i..][0] == stub && stubs[i..][1..] == stubs[i + 1..];
        if stub.kind == LITERAL {
          LiteralAppends(charset, sql, stub, args);
          sql := sql + stub.value;
        } else {
          ok, sql := AppendPlaceholder(sql, stub, args, models);
          if !ok {
            return false, sql;
          }
        }
      }
      return true, sql;
    }
  }

  lemma LiteralAppends(cs: Charset, sql: Str, stub: Stub, args: seq<Arg>)
    requires stub.kind == LITERAL
    ensures Append(cs, sql, stub, args) == Done(sql + stub.value)
  {
  }

  /** With one argument, the smallest tag is its tag. */
  lemma OneModel(args: seq<Arg>)
    requires |args| == 1
    ensures Collect(args) == map[args[0].tag := args[0].model]
  {
    assert args[..0] == [];
  }

  lemma PathSectionsNotEmpty(s: Str)
    ensures forall i | 0 <= i < |PathSections(s)| :: PathSections(s)[i] != []
  {
    SplitPiecesNotEmpty(s, CLength(s));
  }

  lemma SplitPiecesNotEmpty(s: Str, end: nat)
    requires end <= |s|
    ensures forall i | 0 <= i < |SectionsUpTo(s, 0, end)| :: SectionsUpTo(s, 0, end)[i] != []
  {
    AllSections(s[0..end]);
  }

  lemma AllSections(s: Str)
    ensures forall i | 0 <= i < |Sections(s, DOT)| :: Sections(s, DOT)[i] != []
  {
    SectionsAreSections([], s, DOT);
  }
}
