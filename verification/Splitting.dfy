/**
 Cutting a string at a delimiter and dropping the empty pieces: `split` of str.hpp, the common
 ground of the SQL builder's access paths and of URL routing.
 */
module Splitting {

  /** The pieces of `cur + rest`, where `cur` is the part of the current piece already seen. */
  function SectionsFrom<T(==)>(cur: seq<T>, rest: seq<T>, d: T): seq<seq<T>>
    decreases rest
  {
    if rest == [] then if cur == [] then [] else [cur]
    else if rest[0] != d then SectionsFrom(cur + [rest[0]], rest[1..], d)
    else if cur == [] then SectionsFrom([], rest[1..], d)
    else [cur] + SectionsFrom([], rest[1..], d)
  }

  /** The maximal delimiter-free pieces of `s`, in order. */
  function Sections<T(==)>(s: seq<T>, d: T): seq<seq<T>> {
    SectionsFrom([], s, d)
  }

  predicate Free<T(==)>(s: seq<T>, d: T) {
    forall i | 0 <= i < |s| :: s[i] != d
  }

  predicate IsSection<T(==)>(s: seq<T>, d: T) {
    s != [] && Free(s, d)
  }

  function Repeat<T>(d: T, n: nat): (s: seq<T>)
    ensures |s| == n
  {
    if n == 0 then [] else [d] + Repeat(d, n - 1)
  }

  /** One gap before each piece and one at the end; between two pieces a gap is not empty. */
  predicate AreGaps(gaps: seq<nat>, n: nat) {
    |gaps| == n + 1 && forall i | 0 < i < n :: gaps[i] > 0
  }

  /** The pieces written out with runs of delimiters around them. */
  function Spread<T>(secs: seq<seq<T>>, gaps: seq<nat>, d: T): seq<T>
    requires |gaps| == |secs| + 1
  {
    Repeat(d, gaps[0]) + if secs == [] then [] else secs[0] + Spread(secs[1..], gaps[1..], d)
  }

  lemma {:induction false} SectionsText<T>(cur: seq<T>, text: seq<T>, rest: seq<T>, d: T)
    requires Free(text, d)
    ensures SectionsFrom(cur, text + rest, d) == SectionsFrom(cur + text, rest, d)
    decreases text
  {
    if text == [] {
      assert text + rest == rest && cur + text == cur;
    } else {
      assert (text + rest)[1..] == text[1..] + rest;
      SectionsText(cur + [text[0]], text[1..], rest, d);
      assert cur + [text[0]] + text[1..] == cur + text;
    }
  }

  lemma {:induction false} SectionsGap<T>(n: nat, rest: seq<T>, d: T)
    ensures SectionsFrom([], Repeat(d, n) + rest, d) == SectionsFrom([], rest, d)
  {
    if n == 0 {
      assert Repeat(d, 0) + rest == rest;
    } else {
      assert (Repeat(d, n) + rest)[1..] == Repeat(d, n - 1) + rest;
      SectionsGap(n - 1, rest, d);
    }
  }

  /** A piece, a delimiter, and the rest. */
  lemma SectionsCut<T>(text: seq<T>, rest: seq<T>, d: T)
    requires Free(text, d)
    ensures Sections(text + ([d] + rest), d) == (if text == [] then [] else [text]) + Sections(rest, d)
    ensures Sections(text, d) == if text == [] then [] else [text]
  {
    SectionsText([], text, [d] + rest, d);
    assert [] + text == text;
    assert ([d] + rest)[1..] == rest;
    SectionsText([], text, [], d);
    assert text + [] == text;
  }

  /** Whatever the gaps, the pieces come back. */
  lemma {:induction false} SectionsOfSpread<T>(secs: seq<seq<T>>, gaps: seq<nat>, d: T)
    requires AreGaps(gaps, |secs|)
    requires forall i | 0 <= i < |secs| :: IsSection(secs[i], d)
    ensures Sections(Spread(secs, gaps, d), d) == secs
  {
    if secs == [] {
      assert Repeat(d, gaps[0]) + [] == Spread(secs, gaps, d);
      SectionsGap(gaps[0], [], d);
    } else {
      var tail := Spread(secs[1..], gaps[1..], d);
      SectionsGap(gaps[0], secs[0] + tail, d);
      SectionsOfSpread(secs[1..], gaps[1..], d);
      if |secs| == 1 && gaps[1] == 0 {
        assert tail == [];
        assert secs[0] + tail == secs[0];
        SectionsCut(secs[0], [], d);
      } else {
        var rest := tail[1..];
        assert tail == [d] + rest;
        SectionsCut(secs[0], rest, d);
        assert [] + rest == rest;
      }
    }
  }

  lemma {:induction false} SectionsAreSections<T>(cur: seq<T>, rest: seq<T>, d: T)
    requires Free(cur, d)
    ensures forall i | 0 <= i < |SectionsFrom(cur, rest, d)| :: IsSection(SectionsFrom(cur, rest, d)[i], d)
    decreases rest
  {
    if rest == [] {
    } else {
      if rest[0] != d {
        SectionsAreSections(cur + [rest[0]], rest[1..], d);
      } else {
        SectionsAreSections([], rest[1..], d);
      }
    }
  }

  /** Every string is its pieces with gaps between them. */
  lemma {:induction false} SpreadOfSections<T>(cur: seq<T>, rest: seq<T>, d: T) returns (gaps: seq<nat>)
    requires Free(cur, d)
    ensures AreGaps(gaps, |SectionsFrom(cur, rest, d)|)
    ensures Spread(SectionsFrom(cur, rest, d), gaps, d) == cur + rest
    ensures cur != [] ==> gaps[0] == 0
    decreases rest
  {
    if rest == [] {
      if cur == [] {
        gaps := [0];
      } else {
        gaps := [0, 0];
        assert Spread([], [0], d) == [];
      }
    } else if rest[0] != d {
      gaps := SpreadOfSections(cur + [rest[0]], rest[1..], d);
      assert cur + [rest[0]] + rest[1..] == cur + rest;
    } else {
      var more := SpreadOfSections([], rest[1..], d);
      var wider := more[0 := more[0] + 1];
      var secs := SectionsFrom([], rest[1..], d);
      assert wider[1..] == more[1..];
      assert Spread(secs, wider, d) == [d] + Spread(secs, more, d);
      assert Spread(secs, wider, d) == rest;
      if cur == [] {
        gaps := wider;
      } else {
        gaps := [0] + wider;
        assert ([cur] + secs)[1..] == secs;
      }
    }
  }

  /** `secs` is the split of `s` exactly when they are delimiter-free pieces that spread to `s`. */
  lemma SectionsExact<T>(s: seq<T>, secs: seq<seq<T>>, d: T)
    ensures secs == Sections(s, d) <==>
            && (forall i | 0 <= i < |secs| :: IsSection(secs[i], d))
            && exists gaps :: AreGaps(gaps, |secs|) && Spread(secs, gaps, d) == s
  {
    if secs == Sections(s, d) {
      SectionsAreSections([], s, d);
      var gaps := SpreadOfSections([], s, d);
      assert [] + s == s;
    }
    if (forall i | 0 <= i < |secs| :: IsSection(secs[i], d))
       && exists gaps :: AreGaps(gaps, |secs|) && Spread(secs, gaps, d) == s {
      var gaps :| AreGaps(gaps, |secs|) && Spread(secs, gaps, d) == s;
      SectionsOfSpread(secs, gaps, d);
    }
  }

  /** `std::string::find` and `strchr` of one character: its first position from `from` on, or `end`. */
  method Find<T(==)>(s: seq<T>, d: T, from: nat, end: nat) returns (pos: nat)
    requires from <= end <= |s|
    ensures from <= pos <= end && Free(s[from..pos], d) && (pos < end ==> s[pos] == d)
  {
    pos := from;
    while pos < end && s[pos] != d
      invariant from <= pos <= end && Free(s[from..pos], d)
    {
      assert s[from..pos + 1] == s[from..pos] + [s[pos]];
      pos := pos + 1;
    }
  }

  lemma SectionsAt<T>(s: seq<T>, previous: nat, current: nat, d: T)
    requires previous <= current <= |s| && Free(s[previous..current], d)
    requires current < |s| ==> s[current] == d
    ensures Sections(s[previous..], d) ==
            (if previous < current then [s[previous..current]] else []) +
            (if current < |s| then Sections(s[current + 1..], d) else [])
  {
    var text := s[previous..current];
    if current < |s| {
      assert s[previous..] == text + ([d] + s[current + 1..]);
      SectionsCut(text, s[current + 1..], d);
    } else {
      assert s[previous..] == text;
      SectionsCut(text, [], d);
    }
  }

  /** `split`: appends the pieces of `str` to a container. */
  method Split<T(==)>(str: seq<T>, cont: seq<seq<T>>, delim: T) returns (result: seq<seq<T>>)
    ensures result == cont + Sections(str, delim)
  {
    result := cont;
    var previous := 0;
    var current := Find(str, delim, 0, |str|);
    assert str[0..] == str;
    while current != |str|
      invariant previous <= current <= |str| && Free(str[previous..current], delim)
      invariant current < |str| ==> str[current] == delim
      invariant cont + Sections(str, delim) == result + Sections(str[previous..], delim)
      decreases |str| - current
    {
      SectionsAt(str, previous, current, delim);
      if previous < current {
        result := result + [str[previous..current]];
      }
      previous := current + 1;
      current := Find(str, delim, previous, |str|);
    }
    SectionsAt(str, previous, current, delim);
    assert str[previous..current] == str[previous..];
    if previous < |str| {
      result := result + [str[previous..]];
    }
  }
}
