/** Unit-relative paths: producing a stored key, consuming it again, and confining what it may name. */
module RelPath {
  import opened Segments
  import opened Wrappers

  type Parts = seq<string>

  const DOT := "."
  const DOTS := ".."

  // ---- normalising segments ----------------------------------------------------------------------------

  /** One segment from an absolute path: "." and "" stay, ".." goes up (not above the top), a name goes down. */
  function Step(at: Parts, s: string): Parts {
    if s == "" || s == DOT then at
    else if s == DOTS then (if at == [] then [] else at[..|at| - 1])
    else at + [s]
  }

  function Norm(at: Parts, segs: Parts): Parts
    decreases |segs|
  {
    if segs == [] then at else Norm(Step(at, segs[0]), segs[1..])
  }

  /** The way after one more segment: two dots take a step back if there is one, a dot and nothing stay. */
  lemma {:induction false} LastSegment(at: Parts, segs: Parts, s: string)
    ensures var here := Norm(at, segs);
            Norm(at, segs + [s]) ==
              if s == "" || s == "." then here
              else if s != ".." then here + [s]
              else if here == [] then [] else here[..|here| - 1]
    decreases |segs|
  {
    if segs == [] {
      assert segs + [s] == [s] && [s][1..] == [];
    } else {
      assert (segs + [s])[1..] == segs[1..] + [s];
      LastSegment(Step(at, segs[0]), segs[1..], s);
    }
  }

  /** A name a normalised path can hold. */
  predicate IsName(s: string) {
    s != "" && s != DOT && s != DOTS && SLASH !in s
  }

  ghost predicate Normal(p: Parts) {
    forall s :: s in p ==> IsName(s)
  }

  /** On a platform with another separator the name holds none of that either; on POSIX a backslash is ordinary. */
  ghost predicate NormalOn(sep: char, p: Parts) {
    forall s :: s in p ==> IsName(s) && sep !in s
  }

  /** An absolute path from its top. */
  function Rooted(sep: char, p: Parts): string {
    [sep] + JoinWith(sep, p)
  }

  function Abs(p: Parts): string {
    Rooted(SLASH, p)
  }

  predicate IsAbsolute(s: string) {
    s != "" && s[0] == SLASH
  }

  predicate EndsWithSep(sep: char, s: string) {
    s != "" && s[|s| - 1] == sep
  }

  /** `path.posix.normalize` of an absolute path: one trailing slash is kept. */
  function Normalize(s: string): string
    requires IsAbsolute(s)
  {
    var p := Norm([], Split(s));
    if p != [] && EndsWithSep(SLASH, s) then Abs(p) + [SLASH] else Abs(p)
  }

  /** `path.posix.join` of an absolute path and more pieces: empty pieces are left out. */
  function JoinPath(root: string, pieces: Parts): (s: string)
    requires IsAbsolute(root)
    ensures IsAbsolute(s)
  {
    JoinStarts(root, NonEmpty(pieces));
    Normalize(Join([root] + NonEmpty(pieces)))
  }

  /** `path.posix.resolve` of one path, from the current directory. */
  function Resolve(cwd: Parts, s: string): string {
    Abs(Norm(if IsAbsolute(s) then [] else cwd, Split(s)))
  }

  lemma {:induction false} JoinStarts(root: string, pieces: Parts)
    requires IsAbsolute(root)
    ensures IsAbsolute(Join([root] + pieces))
  {
    if pieces == [] {
      assert [root] + pieces == [root];
    } else {
      assert ([root] + pieces)[1..] == pieces;
    }
  }

  // ---- the program -------------------------------------------------------------------------------------

  function JoinRel(root: string, rel: string): string
    requires IsAbsolute(root)
  {
    JoinPath(root, Split(rel))
  }

  predicate IsLetter(c: char) {
    'A' <= c <= 'Z' || 'a' <= c <= 'z'
  }

  const BACKSLASH := '\\'

  /** `C:\x` or `C:/x`. */
  predicate HasDrive(s: string) {
    |s| >= 3 && IsLetter(s[0]) && s[1] == ':' && (s[2] == BACKSLASH || s[2] == SLASH)
  }

  /** `\\host\share`. */
  predicate IsUnc(s: string) {
    |s| >= 2 && s[0] == BACKSLASH && s[1] == BACKSLASH
  }

  predicate NamesAPlace(rel: string) {
    IsAbsolute(rel) || HasDrive(rel) || IsUnc(rel)
  }

  /** On a platform with another separator a key that starts with that is absolute as well. */
  predicate NamesAPlaceOn(sep: char, rel: string) {
    NamesAPlace(rel) || (rel != "" && rel[0] == sep)
  }

  predicate StartsWith(s: string, start: string) {
    |start| <= |s| && s[..|start|] == start
  }

  function JoinRelConfined(cwd: Parts, root: string, rel: string): Option<string> {
    if NamesAPlace(rel) then None
    else
      var base := Resolve(cwd, root);
      var abs := Resolve(cwd, JoinRel(base, rel));
      if abs == base then None
      else if StartsWith(abs, if EndsWithSep(SLASH, base) then base else base + [SLASH]) then Some(abs)
      else None
  }

  // ---- strings against segments ------------------------------------------------------------------------

  lemma {:induction false} NormIsNormal(at: Parts, segs: Parts)
    requires Normal(at) && forall s :: s in segs ==> SLASH !in s
    ensures Normal(Norm(at, segs))
    decreases |segs|
  {
    if segs != [] {
      assert segs[0] in segs;
      NormIsNormal(Step(at, segs[0]), segs[1..]);
    }
  }

  lemma {:induction false} NormTwice(at: Parts, a: Parts, b: Parts)
    ensures Norm(at, a + b) == Norm(Norm(at, a), b)
    decreases |a|
  {
    if a == [] {
      assert a + b == b;
    } else {
      assert (a + b)[1..] == a[1..] + b;
      NormTwice(Step(at, a[0]), a[1..], b);
    }
  }

  lemma {:induction false} NormOfNames(at: Parts, p: Parts)
    requires Normal(p)
    ensures Norm(at, p) == at + p
    decreases |p|
  {
    if p == [] {
      assert at + p == at;
    } else {
      assert p[0] in p;
      NormOfNames(at + [p[0]], p[1..]);
      assert (at + [p[0]]) + p[1..] == at + p;
    }
  }

  /** Empty segments change nothing. */
  lemma {:induction false} NormSkipsEmpty(at: Parts, segs: Parts)
    ensures Norm(at, NonEmpty(segs)) == Norm(at, segs)
    decreases |segs|
  {
    if segs != [] {
      NormSkipsEmpty(Step(at, segs[0]), segs[1..]);
      assert segs[0] == "" ==> NonEmpty(segs) == NonEmpty(segs[1..]);
      assert segs[0] != "" ==> NonEmpty(segs)[1..] == NonEmpty(segs[1..]);
    }
  }

  lemma {:induction false} SplitAt(sep: char, a: string, b: string)
    ensures SplitOn(sep, a + [sep] + b) == SplitOn(sep, a) + SplitOn(sep, b)
  {
    var whole := a + [sep] + b;
    if a == "" {
      assert whole == [sep] + b && whole[1..] == b;
    } else {
      SplitAt(sep, a[1..], b);
      assert whole[0] == a[0] && whole[1..] == a[1..] + [sep] + b;
      FirstPiece(a[0], SplitOn(sep, a[1..]), SplitOn(sep, b));
    }
  }

  lemma {:induction false} FirstPiece(c: char, a: Parts, b: Parts)
    requires a != []
    ensures [""] + (a + b) == ([""] + a) + b
    ensures [[c] + (a + b)[0]] + (a + b)[1..] == ([[c] + a[0]] + a[1..]) + b
  {
    assert (a + b)[1..] == a[1..] + b;
  }

  lemma {:induction false} SplitOfAbs(p: Parts)
    requires Normal(p)
    ensures Norm([], Split(Abs(p))) == p
  {
    assert Abs(p) == "" + [SLASH] + Join(p);
    SplitAt(SLASH, "", Join(p));
    if p == [] {
      assert Split("") + Split("") == ["", ""];
      assert ["", ""][1..] == [""];
    } else {
      SplitJoins(SLASH, p);
      assert Split("") + Split(Join(p)) == [""] + p;
      assert ([""] + p)[1..] == p;
      NormOfNames([], p);
      assert [] + p == p;
    }
  }

  lemma {:induction false} SplitOfJoined(root: string, pieces: Parts)
    requires forall s :: s in pieces ==> SLASH !in s
    ensures Split(Join([root] + pieces)) == Split(root) + pieces
  {
    if pieces == [] {
      assert [root] + pieces == [root];
      assert Split(root) + [] == Split(root);
    } else {
      assert ([root] + pieces)[1..] == pieces;
      SplitAt(SLASH, root, Join(pieces));
      SplitJoins(SLASH, pieces);
    }
  }

  /** Resolving a normalised absolute path reads its segments, trailing slash or not. */
  lemma {:induction false} ResolveNormalize(cwd: Parts, s: string)
    requires IsAbsolute(s)
    ensures Resolve(cwd, Normalize(s)) == Abs(Norm([], Split(s)))
  {
    var p := Norm([], Split(s));
    NormIsNormal([], Split(s));
    SplitOfAbs(p);
    if p != [] && EndsWithSep(SLASH, s) {
      var t := Abs(p) + [SLASH];
      assert t == Abs(p) + [SLASH] + "" && Split("") == [""];
      SplitAt(SLASH, Abs(p), "");
      NormTwice([], Split(Abs(p)), [""]);
      assert Norm(p, [""]) == p by {
        assert [""][1..] == [];
      }
    }
  }

  /** What a key names under a root, in segments. */
  function Target(base: Parts, rel: string): Parts {
    Norm(base, Split(rel))
  }

  lemma {:induction false} JoinEndsInName(parts: Parts)
    requires parts != [] && parts[|parts| - 1] != "" && SLASH !in parts[|parts| - 1]
    ensures Join(parts) != "" && !EndsWithSep(SLASH, Join(parts))
    decreases |parts|
  {
    if |parts| > 1 {
      JoinEndsInName(parts[1..]);
    }
  }

  lemma {:induction false} JoinedTarget(cwd: Parts, base: Parts, rel: string)
    requires Normal(base)
    ensures JoinRel(Abs(base), rel) == Abs(Target(base, rel))
    ensures Resolve(cwd, JoinRel(Abs(base), rel)) == Abs(Target(base, rel))
  {
    var pieces := NonEmpty(Split(rel));
    var joined := Join([Abs(base)] + pieces);
    JoinStarts(Abs(base), pieces);
    ResolveNormalize(cwd, joined);
    SplitOfJoined(Abs(base), pieces);
    NormTwice([], Split(Abs(base)), pieces);
    SplitOfAbs(base);
    NormSkipsEmpty(base, Split(rel));
    if pieces != [] {
      assert pieces[|pieces| - 1] in pieces;
      JoinEndsInName([Abs(base)] + pieces);
    } else if base != [] {
      assert base[|base| - 1] in base;
      JoinEndsInName(base);
    }
  }

  ghost predicate Extends(base: Parts, p: Parts) {
    exists more: Parts :: more != [] && base + more == p
  }

  lemma {:induction false} JoinOfBoth(sep: char, a: Parts, b: Parts)
    requires a != [] && b != []
    ensures JoinWith(sep, a + b) == JoinWith(sep, a) + [sep] + JoinWith(sep, b)
  {
    if |a| == 1 {
      assert (a + b)[1..] == b;
    } else {
      assert (a + b)[1..] == a[1..] + b;
      JoinOfBoth(sep, a[1..], b);
    }
  }

  /** The string a path under `base` must start with. */
  function Start(sep: char, base: string): string {
    if EndsWithSep(sep, base) then base else base + [sep]
  }

  lemma {:induction false} StartIs(sep: char, base: Parts)
    requires NormalOn(sep, base)
    ensures Start(sep, Rooted(sep, base)) == if base == [] then [sep] else Rooted(sep, base) + [sep]
  {
    if base != [] {
      LastOfJoin(sep, base);
    }
  }

  lemma {:induction false} LastOfJoin(sep: char, p: Parts)
    requires NormalOn(sep, p) && p != []
    ensures JoinWith(sep, p) != "" && JoinWith(sep, p)[|JoinWith(sep, p)| - 1] != sep
  {
    assert p[0] in p;
    if |p| > 1 {
      LastOfJoin(sep, p[1..]);
    }
  }

  lemma {:induction false} SameRooted(sep: char, p: Parts, q: Parts)
    requires NormalOn(sep, p) && NormalOn(sep, q) && Rooted(sep, p) == Rooted(sep, q)
    ensures p == q
  {
    if p != [] {
      LastOfJoin(sep, p);
    }
    if q != [] {
      LastOfJoin(sep, q);
    }
    if p != [] && q != [] {
      SplitOfRooted(sep, p);
      SplitOfRooted(sep, q);
      assert p == ([""] + p)[1..] == ([""] + q)[1..] == q;
    } else {
      assert |Rooted(sep, [])| == 1;
    }
  }

  /** The prefix test on strings agrees with the prefix test on segments, whatever the separator. */
  lemma {:induction false} PrefixTestIsExact(sep: char, base: Parts, p: Parts)
    requires NormalOn(sep, base) && NormalOn(sep, p)
    ensures Rooted(sep, p) != Rooted(sep, base) && StartsWith(Rooted(sep, p), Start(sep, Rooted(sep, base)))
            <==> Extends(base, p)
  {
    StartIs(sep, base);
    var from, path := Start(sep, Rooted(sep, base)), Rooted(sep, p);
    if Extends(base, p) {
      var more: Parts :| more != [] && base + more == p;
      ExtendingStarts(sep, base, more);
    }
    if path != Rooted(sep, base) && StartsWith(path, from) {
      if base == [] {
        assert p != [];
        assert base + p == p;
      } else {
        var rest := path[|from|..];
        assert path == Rooted(sep, base) + [sep] + rest;
        StartingExtends(sep, base, p, rest);
      }
    }
  }

  lemma {:induction false} ExtendingStarts(sep: char, base: Parts, more: Parts)
    requires NormalOn(sep, base) && NormalOn(sep, base + more) && more != []
    ensures Rooted(sep, base + more) != Rooted(sep, base)
    ensures StartsWith(Rooted(sep, base + more), Start(sep, Rooted(sep, base)))
  {
    StartIs(sep, base);
    if Rooted(sep, base + more) == Rooted(sep, base) {
      SameRooted(sep, base + more, base);
    }
    if base != [] {
      JoinOfBoth(sep, base, more);
      assert Rooted(sep, base + more) == (Rooted(sep, base) + [sep]) + JoinWith(sep, more);
    }
  }

  lemma {:induction false} StartingExtends(sep: char, base: Parts, p: Parts, rest: string)
    requires NormalOn(sep, base) && NormalOn(sep, p) && base != []
    requires Rooted(sep, p) == Rooted(sep, base) + [sep] + rest
    ensures Extends(base, p)
  {
    assert |Rooted(sep, p)| > 1 && |Rooted(sep, [])| == 1;
    SplitAt(sep, Rooted(sep, base), rest);
    SplitOfRooted(sep, base);
    SplitOfRooted(sep, p);
    SameAfterFirst("", p, base, SplitOn(sep, rest));
  }

  lemma {:induction false} SameAfterFirst<T>(x: T, p: seq<T>, base: seq<T>, more: seq<T>)
    requires [x] + p == ([x] + base) + more
    ensures p == base + more
  {
    assert ([x] + base) + more == [x] + (base + more);
    assert ([x] + p)[1..] == p && ([x] + (base + more))[1..] == base + more;
  }

  lemma {:induction false} SplitOfRooted(sep: char, p: Parts)
    requires NormalOn(sep, p) && p != []
    ensures SplitOn(sep, Rooted(sep, p)) == [""] + p
  {
    assert Rooted(sep, p) == "" + [sep] + JoinWith(sep, p);
    SplitAt(sep, "", JoinWith(sep, p));
    SplitJoins(sep, p);
  }

  /**
   A key is accepted exactly when it names no place of its own and its segments, applied to the root's, lead
   strictly below the root; it then names that place.
   */
  lemma {:induction false} ConfinementIsExact(cwd: Parts, root: string, rel: string)
    requires Normal(cwd)
    ensures var base := Norm(if IsAbsolute(root) then [] else cwd, Split(root));
            var target := Target(base, rel);
            JoinRelConfined(cwd, root, rel) ==
              if !NamesAPlace(rel) && Extends(base, target) then Some(Abs(target)) else None
  {
    var base := Norm(if IsAbsolute(root) then [] else cwd, Split(root));
    NormIsNormal(if IsAbsolute(root) then [] else cwd, Split(root));
    NormIsNormal(base, Split(rel));
    JoinedTarget(cwd, base, rel);
    PrefixTestIsExact(SLASH, base, Target(base, rel));
  }
}
