/** Paths written with a separator, and their parts. */
module Segments {

  const SLASH := '/'

  ghost predicate Plain(part: string) {
    part != "" && SLASH !in part
  }

  ghost predicate AllPlain(parts: seq<string>) {
    forall p :: p in parts ==> Plain(p)
  }

  /** The pieces between separators, empty ones included. */
  function SplitOn(sep: char, s: string): (r: seq<string>)
    ensures r != []
    ensures forall p :: p in r ==> sep !in p
  {
    if s == "" then [""]
    else
      var rest := SplitOn(sep, s[1..]);
      if s[0] == sep then [""] + rest else [[s[0]] + rest[0]] + rest[1..]
  }

  function JoinWith(sep: char, parts: seq<string>): string {
    if parts == [] then ""
    else if |parts| == 1 then parts[0]
    else parts[0] + [sep] + JoinWith(sep, parts[1..])
  }

  function Split(s: string): seq<string> {
    SplitOn(SLASH, s)
  }

  function Join(parts: seq<string>): string {
    JoinWith(SLASH, parts)
  }

  function NonEmpty(parts: seq<string>): (r: seq<string>)
    ensures forall p :: p in r <==> p in parts && p != ""
  {
    if parts == [] then []
    else (if parts[0] == "" then [] else [parts[0]]) + NonEmpty(parts[1..])
  }

  function PartsOf(s: string): (r: seq<string>)
    ensures AllPlain(r)
  {
    NonEmpty(Split(s))
  }

  lemma {:induction false} SplitAppends(sep: char, a: string, s: string)
    requires sep !in a
    ensures SplitOn(sep, a + s) == [a + SplitOn(sep, s)[0]] + SplitOn(sep, s)[1..]
  {
    if a == "" {
      assert a + s == s;
      assert a + SplitOn(sep, s)[0] == SplitOn(sep, s)[0];
      assert SplitOn(sep, s) == [SplitOn(sep, s)[0]] + SplitOn(sep, s)[1..];
    } else {
      assert (a + s)[1..] == a[1..] + s;
      SplitAppends(sep, a[1..], s);
      assert [a[0]] + (a[1..] + SplitOn(sep, s)[0]) == a + SplitOn(sep, s)[0];
    }
  }

  lemma {:induction false} JoinIs(part: string, parts: seq<string>)
    ensures Join([]) == "" && Join([part]) == part
    ensures parts != [] ==> Join([part] + parts) == part + "/" + Join(parts)
  {
    assert ([part] + parts)[1..] == parts;
  }

  /** The parts of a path are what stands between slashes, empty pieces left out. */
  lemma {:induction false} PartsAre(part: string, s: string)
    requires '/' !in part
    ensures PartsOf(part) == if part == "" then [] else [part]
    ensures PartsOf(part + "/" + s) == (if part == "" then [] else [part]) + PartsOf(s)
  {
    var tail := "/" + s;
    var more := SplitOn('/', s);
    SplitAppends('/', part, "");
    SplitAppends('/', part, tail);
    assert part + "" == part && Split(part) == [part] + [];
    assert tail[1..] == s && ([""] + more)[1..] == more;
    assert part + "/" + s == part + tail;
    assert Split(part + "/" + s) == [part] + more;
    OnePieceMore(part, []);
    OnePieceMore(part, more);
  }

  lemma {:induction false} OnePieceMore(part: string, rest: seq<string>)
    ensures NonEmpty([part] + rest) == (if part == "" then [] else [part]) + NonEmpty(rest)
  {
    assert ([part] + rest)[1..] == rest;
  }

  /** Splitting undoes joining, for parts without the separator. */
  lemma {:induction false} SplitJoins(sep: char, parts: seq<string>)
    requires parts != [] && forall p :: p in parts ==> sep !in p
    ensures SplitOn(sep, JoinWith(sep, parts)) == parts
    decreases |parts|
  {
    if |parts| == 1 {
      SplitAppends(sep, parts[0], "");
      assert parts[0] + "" == parts[0];
    } else {
      SplitJoins(sep, parts[1..]);
      var tail := [sep] + JoinWith(sep, parts[1..]);
      assert tail[1..] == JoinWith(sep, parts[1..]);
      assert parts[0] + [sep] + JoinWith(sep, parts[1..]) == parts[0] + tail;
      SplitAppends(sep, parts[0], tail);
      assert parts[0] + "" == parts[0];
    }
  }

  lemma {:induction false} PlainIsNonEmpty(parts: seq<string>)
    requires AllPlain(parts)
    ensures NonEmpty(parts) == parts
  {
    if parts != [] {
      assert parts[0] in parts && Plain(parts[0]);
      PlainIsNonEmpty(parts[1..]);
      assert parts == [parts[0]] + parts[1..];
    }
  }

  /** A rooted path's parts are the parts it was joined from. */
  lemma {:induction false} RootedParts(parts: seq<string>)
    requires AllPlain(parts)
    ensures PartsOf([SLASH] + Join(parts)) == parts
  {
    var s := [SLASH] + Join(parts);
    assert s[1..] == Join(parts);
    PlainIsNonEmpty(parts);
    if parts != [] {
      SplitJoins(SLASH, parts);
      assert ([""] + parts)[1..] == parts;
    } else {
      assert s == [SLASH] && Split(s[1..]) == [""];
      assert Split(s) == [""] + [""];
      assert (["", ""])[1..] == [""];
      assert NonEmpty([""]) == [""][1..];
    }
  }
}
