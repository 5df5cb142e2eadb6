/** Stored path keys: the round trip through either platform's separator, and folding the two spellings of a key. */
module PathKeys {
  import opened Segments
  import opened RelPath
  import opened Wrappers

  // ---- producing and consuming a key on either platform ------------------------------------------------

  function Common(a: Parts, b: Parts): Parts {
    if a != [] && b != [] && a[0] == b[0] then [a[0]] + Common(a[1..], b[1..]) else []
  }

  /** What two paths have after their common start. */
  function Fork(a: Parts, b: Parts): (Parts, Parts) {
    if a != [] && b != [] && a[0] == b[0] then Fork(a[1..], b[1..]) else (a, b)
  }

  function Ups(k: nat): Parts {
    if k == 0 then [] else [DOTS] + Ups(k - 1)
  }

  function RelativeParts(from: Parts, to: Parts): Parts {
    Ups(|Fork(from, to).0|) + Fork(from, to).1
  }

  /** `path.relative` between two absolute paths, in the platform's spelling. */
  function Relative(sep: char, from: Parts, to: Parts): string {
    JoinWith(sep, RelativeParts(from, to))
  }

  function ToPosixRel(sep: char, rel: string): string {
    if sep == SLASH then rel else Join(SplitOn(sep, rel))
  }

  function RelPosix(sep: char, root: Parts, abs: Parts): string {
    ToPosixRel(sep, Relative(sep, root, abs))
  }

  /** The platform's path library splits each piece it is handed at its own separator too. */
  function NativePieces(sep: char, pieces: Parts): Parts {
    if pieces == [] then [] else SplitOn(sep, pieces[0]) + NativePieces(sep, pieces[1..])
  }

  /** `joinRel`, in segments. */
  function JoinRelOn(sep: char, root: Parts, key: string): Parts {
    Norm(root, NativePieces(sep, Split(key)))
  }

  lemma {:induction false} SplitWhole(sep: char, s: string)
    requires sep !in s
    ensures SplitOn(sep, s) == [s]
  {
    SplitAppends(sep, s, "");
    assert s + "" == s;
  }

  lemma {:induction false} PiecesStay(sep: char, pieces: Parts)
    requires forall s :: s in pieces ==> sep !in s
    ensures NativePieces(sep, pieces) == pieces
  {
    if pieces != [] {
      assert pieces[0] in pieces;
      SplitWhole(sep, pieces[0]);
      PiecesStay(sep, pieces[1..]);
      assert pieces == [pieces[0]] + pieces[1..];
    }
  }

  /** On POSIX this is the join that confinement is proved of. */
  lemma {:induction false} PosixJoinIsTarget(root: Parts, key: string)
    ensures JoinRelOn(SLASH, root, key) == Target(root, key)
  {
    PiecesStay(SLASH, Split(key));
  }

  lemma {:induction false} ForkIs(a: Parts, b: Parts)
    ensures a == Common(a, b) + Fork(a, b).0 && b == Common(a, b) + Fork(a, b).1
  {
    if a != [] && b != [] && a[0] == b[0] {
      ForkIs(a[1..], b[1..]);
      assert a == [a[0]] + a[1..] && b == [b[0]] + b[1..];
    } else {
      assert [] + a == a && [] + b == b;
    }
  }

  lemma {:induction false} GoingUp(at: Parts, down: Parts)
    ensures Norm(at + down, Ups(|down|)) == at
    decreases |down|
  {
    if down == [] {
      assert at + down == at;
    } else {
      assert (at + down)[..|at + down| - 1] == at + down[..|down| - 1];
      assert Ups(|down|)[1..] == Ups(|down| - 1);
      GoingUp(at, down[..|down| - 1]);
    }
  }

  lemma {:induction false} UpsHaveNo(sep: char, k: nat)
    requires sep != '.'
    ensures forall s :: s in Ups(k) ==> sep !in s
  {
    if k > 0 {
      UpsHaveNo(sep, k - 1);
    }
  }

  lemma {:induction false} RelativeHasNo(sep: char, c: char, from: Parts, to: Parts)
    requires NormalOn(sep, to) && c != '.' && (c == sep || c == SLASH)
    ensures forall s :: s in RelativeParts(from, to) ==> c !in s
  {
    ForkIs(from, to);
    UpsHaveNo(c, |Fork(from, to).0|);
    forall s | s in Fork(from, to).1
      ensures c !in s
    {
      assert s in to;
    }
  }

  /** The key of a path spells its relative parts with slashes, on either platform. */
  lemma {:induction false} KeyIsPosix(sep: char, root: Parts, abs: Parts)
    requires NormalOn(sep, abs) && sep != '.'
    ensures RelPosix(sep, root, abs) == Join(RelativeParts(root, abs))
  {
    var parts := RelativeParts(root, abs);
    if sep != SLASH {
      if parts == [] {
        assert SplitOn(sep, "") == [""] && Join([""]) == "";
      } else {
        RelativeHasNo(sep, sep, root, abs);
        SplitJoins(sep, parts);
      }
    }
  }

  /** Consuming a produced key gives the path back, with either separator, for every path and root. */
  lemma {:induction false} JoinUndoesRelative(sep: char, root: Parts, abs: Parts)
    requires NormalOn(sep, root) && NormalOn(sep, abs) && sep != '.'
    ensures JoinRelOn(sep, root, RelPosix(sep, root, abs)) == abs
  {
    var parts, common := RelativeParts(root, abs), Common(root, abs);
    var (up, down) := Fork(root, abs);
    KeyIsPosix(sep, root, abs);
    ForkIs(root, abs);
    RelativeHasNo(sep, sep, root, abs);
    RelativeHasNo(sep, SLASH, root, abs);
    NormTwice(root, Ups(|up|), down);
    GoingUp(common, up);
    assert Normal(down) by {
      forall s | s in down
        ensures IsName(s)
      {
        assert s in abs;
      }
    }
    NormOfNames(common, down);
    if parts == [] {
      assert Split("") == [""];
      SplitWhole(sep, "");
      assert NativePieces(sep, [""]) == [""];
      NormOfNothing(root);
    } else {
      SplitJoins(SLASH, parts);
      PiecesStay(sep, parts);
    }
  }

  lemma {:induction false} NormOfNothing(at: Parts)
    ensures Norm(at, [""]) == at
  {
    assert [""][1..] == [];
  }

  // ---- confinement on either platform ------------------------------------------------------------------

  /** An absolute path as its platform spells it: `C:` before the first separator on Windows, nothing on POSIX. */
  function AbsOn(drive: string, sep: char, p: Parts): string {
    drive + Rooted(sep, p)
  }

  /** `joinRelConfined` below an absolute root, with the path library's joins read in segments. */
  function JoinRelConfinedOn(drive: string, sep: char, root: Parts, rel: string): Option<string> {
    if NamesAPlaceOn(sep, rel) then None
    else
      var base, abs := AbsOn(drive, sep, root), AbsOn(drive, sep, JoinRelOn(sep, root, rel));
      if abs == base then None
      else if StartsWith(abs, Start(sep, base)) then Some(abs)
      else None
  }

  lemma {:induction false} NativePiecesAreParts(sep: char, pieces: Parts)
    requires forall s :: s in pieces ==> SLASH !in s
    ensures forall s :: s in NativePieces(sep, pieces) ==> sep !in s && SLASH !in s
  {
    if pieces != [] {
      assert pieces[0] in pieces;
      NativePiecesAreParts(sep, pieces[1..]);
      SplitHasNo(sep, SLASH, pieces[0]);
    }
  }

  lemma {:induction false} SplitHasNo(sep: char, c: char, s: string)
    requires c !in s
    ensures forall p :: p in SplitOn(sep, s) ==> c !in p
  {
    if s != "" {
      assert s == [s[0]] + s[1..];
      SplitHasNo(sep, c, s[1..]);
    }
  }

  lemma {:induction false} NormIsNormalOn(sep: char, at: Parts, segs: Parts)
    requires NormalOn(sep, at) && forall s :: s in segs ==> sep !in s && SLASH !in s
    ensures NormalOn(sep, Norm(at, segs))
    decreases |segs|
  {
    if segs != [] {
      assert segs[0] in segs;
      NormIsNormalOn(sep, Step(at, segs[0]), segs[1..]);
    }
  }

  lemma {:induction false} DriveCancels(drive: string, sep: char, base: string, s: string)
    requires base != ""
    ensures drive + s == drive + base <==> s == base
    ensures StartsWith(drive + s, Start(sep, drive + base)) <==> StartsWith(s, Start(sep, base))
  {
    assert (drive + s)[|drive|..] == s && (drive + base)[|drive|..] == base;
    assert Start(sep, drive + base) == drive + Start(sep, base);
    PrefixCancels(drive, Start(sep, base), s);
  }

  lemma {:induction false} PrefixCancels(drive: string, start: string, s: string)
    ensures StartsWith(drive + s, drive + start) <==> StartsWith(s, start)
  {
    if |start| <= |s| {
      assert (drive + s)[..|drive + start|] == drive + s[..|start|];
      assert (drive + s[..|start|])[|drive|..] == s[..|start|] && (drive + start)[|drive|..] == start;
    }
  }

  /**
   With either separator a key is accepted exactly when it names no place of its own and its segments lead strictly
   below the root; it then names that place.
   */
  lemma {:induction false} ConfinementOn(drive: string, sep: char, root: Parts, rel: string)
    requires NormalOn(sep, root)
    ensures var target := JoinRelOn(sep, root, rel);
            JoinRelConfinedOn(drive, sep, root, rel) ==
              if !NamesAPlaceOn(sep, rel) && Extends(root, target) then Some(AbsOn(drive, sep, target)) else None
  {
    var target := JoinRelOn(sep, root, rel);
    NativePiecesAreParts(sep, Split(rel));
    NormIsNormalOn(sep, root, NativePieces(sep, Split(rel)));
    DriveCancels(drive, sep, Rooted(sep, root), Rooted(sep, target));
    PrefixTestIsExact(sep, root, target);
  }

  /** On POSIX this is the confinement that is proved on whole strings. */
  lemma {:induction false} PosixConfinement(cwd: Parts, root: Parts, rel: string)
    requires Normal(cwd) && Normal(root)
    ensures JoinRelConfinedOn("", SLASH, root, rel) == JoinRelConfined(cwd, Abs(root), rel)
  {
    PosixJoinIsTarget(root, rel);
    ConfinementOn("", SLASH, root, rel);
    ConfinementIsExact(cwd, Abs(root), rel);
    SplitOfAbs(root);
    assert "" + Rooted(SLASH, Target(root, rel)) == Abs(Target(root, rel));
  }

  /** What names a place of its own: a leading slash or separator, a drive, or a host. */
  lemma {:induction false} PlacesAre(sep: char, rel: string)
    ensures NamesAPlaceOn(sep, rel) <==>
              || (|rel| >= 1 && (rel[0] == '/' || rel[0] == sep))
              || (|rel| >= 3 && ('a' <= rel[0] <= 'z' || 'A' <= rel[0] <= 'Z') && rel[1] == ':'
                  && (rel[2] == '/' || rel[2] == '\\'))
              || (|rel| >= 2 && rel[0] == '\\' && rel[1] == '\\')
  {
  }

  /** A key that starts with the separator, or with a slash, is refused. */
  lemma {:induction false} RootedKeyIsRefused(drive: string, sep: char, root: Parts, rel: string)
    requires NormalOn(sep, root) && rel != "" && (rel[0] == sep || rel[0] == SLASH)
    ensures JoinRelConfinedOn(drive, sep, root, rel).None?
  {
    ConfinementOn(drive, sep, root, rel);
  }

  const ROOTED := [BACKSLASH] + "x"

  /** On Windows that shuts out a key with one leading backslash, which leads below the root. */
  lemma {:induction false} RootedWindowsKey(drive: string, root: Parts)
    requires NormalOn(BACKSLASH, root)
    ensures JoinRelOn(BACKSLASH, root, ROOTED) == root + ["x"] && Extends(root, root + ["x"])
    ensures !NamesAPlace(ROOTED) && JoinRelConfinedOn(drive, BACKSLASH, root, ROOTED).None?
  {
    SplitWhole(SLASH, ROOTED);
    SplitWhole(BACKSLASH, "x");
    assert ROOTED[1..] == "x";
    assert NativePieces(BACKSLASH, [ROOTED]) == ["", "x"] + [];
    assert ["", "x"] + [] == ["", "x"] && ["", "x"][1..] == ["x"] && ["x"][1..] == [];
    RootedKeyIsRefused(drive, BACKSLASH, root, ROOTED);
  }

  lemma {:induction false} ForkOfExtension(root: Parts, more: Parts)
    ensures Fork(root, root + more) == ([], more)
  {
    if root == [] {
      assert root + more == more;
    } else {
      assert (root + more)[1..] == root[1..] + more;
      ForkOfExtension(root[1..], more);
    }
  }

  /** The key of a path below the root does not start with a separator. */
  lemma {:induction false} ProducedKeyStarts(sep: char, root: Parts, more: Parts)
    requires NormalOn(sep, root + more) && sep != '.' && more != []
    ensures var key := RelPosix(sep, root, root + more); key != "" && key[0] != sep && key[0] != SLASH
  {
    KeyIsPosix(sep, root, root + more);
    ForkOfExtension(root, more);
    assert Ups(0) + more == more;
    assert more[0] in root + more;
  }

  /** The key of a path below the root is accepted and names it, unless the key itself reads as a drive or a host. */
  lemma {:induction false} ProducedKeyIsAccepted(drive: string, sep: char, root: Parts, abs: Parts)
    requires NormalOn(sep, root) && NormalOn(sep, abs) && sep != '.' && Extends(root, abs)
    ensures var key := RelPosix(sep, root, abs);
            JoinRelConfinedOn(drive, sep, root, key) ==
              if HasDrive(key) || IsUnc(key) then None else Some(AbsOn(drive, sep, abs))
  {
    var more: Parts :| more != [] && root + more == abs;
    ProducedKeyStarts(sep, root, more);
    JoinUndoesRelative(sep, root, abs);
    ConfinementOn(drive, sep, root, RelPosix(sep, root, abs));
  }

  // ---- folding two spellings of one key ----------------------------------------------------------------

  predicate HasWindowsSeparator(s: string) {
    BACKSLASH in s
  }

  function HealWindowsPath(s: string): (r: string)
    ensures !HasWindowsSeparator(r)
    ensures !HasWindowsSeparator(s) ==> r == s
  {
    if s == "" then ""
    else
      assert s == [s[0]] + s[1..];
      [if s[0] == BACKSLASH then SLASH else s[0]] + HealWindowsPath(s[1..])
  }

  /** A healed path is as long as it was, with a slash just where a separator of Windows stood. */
  lemma {:induction false} HealedPathIs(s: string, j: nat)
    requires j < |s|
    ensures |HealWindowsPath(s)| == |s|
    ensures HealWindowsPath(s)[j] == if s[j] == '\\' then '/' else s[j]
  {
    if |s| > 1 {
      HealedPathIs(s[1..], if j > 0 then j - 1 else 0);
    }
  }

  /** A key spelled with backslashes that heals to `p`. */
  predicate Misspells(k: string, p: string) {
    HasWindowsSeparator(k) && HealWindowsPath(k) == p
  }

  /** The first misspelling of `p` among the keys. */
  function FirstMisspelling(keys: seq<string>, p: string): (k: Option<string>)
    ensures k.Some? ==> k.value in keys && Misspells(k.value, p)
    ensures k.None? ==> forall x :: x in keys ==> !Misspells(x, p)
  {
    if keys == [] then None
    else
      var k := FirstMisspelling(keys[..|keys| - 1], p);
      assert forall x :: x in keys <==> x in keys[..|keys| - 1] || x == keys[|keys| - 1];
      if k.Some? then k else if Misspells(keys[|keys| - 1], p) then Some(keys[|keys| - 1]) else None
  }

  lemma {:induction false} FirstMore(keys: seq<string>, k: string, p: string)
    ensures FirstMisspelling(keys + [k], p) ==
            if FirstMisspelling(keys, p).Some? then FirstMisspelling(keys, p)
            else if Misspells(k, p) then Some(k)
            else None
  {
    assert (keys + [k])[..|keys|] == keys;
  }

  type Prefer<!T> = Option<(T, T) -> T>

  /** What the healed table holds for `p`, given which of the keys are to count as correctly spelled. */
  function Healed<T>(keys: seq<string>, right: set<string>, m: map<string, T>, prefer: Prefer<T>, p: string): Option<T>
    requires forall k :: k in keys ==> k in m
  {
    var wrong := FirstMisspelling(keys, p);
    if p in right && p in m && !HasWindowsSeparator(p) then
      Some(if wrong.Some? && prefer.Some? then prefer.value(m[p], m[wrong.value]) else m[p])
    else if wrong.Some? then Some(m[wrong.value])
    else None
  }

  ghost predicate Holds<T(!new)>(out: map<string, T>, keys: seq<string>, right: set<string>, m: map<string,
                          T>, prefer: Prefer<T>)
    requires forall k :: k in keys ==> k in m
  {
    && (forall p :: p in out <==> Healed(keys, right, m, prefer, p).Some?)
    && (forall p :: p in out ==> out[p] == Healed(keys, right, m, prefer, p).value)
  }

  /** The `i`-th key is the first that is spelled with a backslash and heals to `p`. */
  ghost predicate FirstWrong(keys: seq<string>, p: string, i: nat) {
    && i < |keys| && '\\' in keys[i] && HealWindowsPath(keys[i]) == p
    && forall j :: 0 <= j < i ==> !('\\' in keys[j] && HealWindowsPath(keys[j]) == p)
  }

  lemma {:induction false} FirstIs(keys: seq<string>, p: string, i: nat)
    requires FirstWrong(keys, p, i)
    ensures FirstMisspelling(keys, p) == Some(keys[i])
  {
    var front := keys[..|keys| - 1];
    if i < |keys| - 1 {
      FirstIs(front, p, i);
    } else {
      NoneIs(front, p);
    }
  }

  lemma {:induction false} NoneIs(keys: seq<string>, p: string)
    requires forall k :: k in keys ==> !('\\' in k && HealWindowsPath(k) == p)
    ensures FirstMisspelling(keys, p).None?
  {
  }

  /** What a healed table holds: the right spelling unless `prefer` votes for the first wrong one, or else that. */
  lemma {:induction false} HealedTableHolds<T(!new)>(out: map<string, T>, keys: seq<string>, m: map<string, T>,
                                                     prefer: Prefer<T>, p: string, i: nat)
    requires (forall k :: k in keys <==> k in m) && Holds(out, keys, m.Keys, m, prefer)
    ensures p in m && '\\' !in p && (forall k :: k in keys && '\\' in k ==> HealWindowsPath(k) != p) ==>
              p in out && out[p] == m[p]
    ensures FirstWrong(keys, p, i) && p in m && prefer.None? ==> p in out && out[p] == m[p]
    ensures FirstWrong(keys, p, i) && p in m && prefer.Some? ==> p in out && out[p] == prefer.value(m[p], m[keys[i]])
    ensures FirstWrong(keys, p, i) && p !in m ==> p in out && out[p] == m[keys[i]]
  {
    if FirstWrong(keys, p, i) {
      FirstIs(keys, p, i);
    }
  }

  predicate AnyMisspelled(keys: seq<string>) {
    exists k :: k in keys && HasWindowsSeparator(k)
  }

  lemma {:induction false} RightOneMore<T(!new)>(out: map<string, T>, keys: seq<string>, right: set<string>,
                                                 m: map<string, T>, prefer: Prefer<T>, k: string)
    requires forall x :: x in keys ==> x in m
    requires Holds(out, keys, right, m, prefer) && k in m && k !in right
    ensures HasWindowsSeparator(k) ==> Holds(out, keys, right + {k}, m, prefer)
    ensures !HasWindowsSeparator(k) ==>
              Holds(out[k := if k in out && prefer.Some? then prefer.value(m[k], out[k]) else m[k]],
                    keys, right + {k}, m, prefer)
  {
    forall p | p != k || HasWindowsSeparator(k)
      ensures Healed(keys, right + {k}, m, prefer, p) == Healed(keys, right, m, prefer, p)
    {
    }
    assert k in out <==> Healed(keys, right, m, prefer, k).Some?;
  }

  /**
   Fold the table's two spellings of each key. A correctly spelled key has the last word, or the vote of
   `prefer`; among misspellings of one key the first counts.
   */
  method HealPathKeyedMap<T(!new)>(keys: seq<string>, m: map<string, T>, prefer: Prefer<T>) returns (out: map<string,
                            T>)
    requires forall k :: k in keys <==> k in m
    requires forall i, j :: 0 <= i < j < |keys| ==> keys[i] != keys[j]
    ensures !AnyMisspelled(keys) ==> out == m
    ensures Holds(out, keys, m.Keys, m, prefer)
  {
    if !AnyMisspelled(keys) {
      return m;
    }
    out := Misspelled(keys, m, prefer);
    ghost var wrong := out;
    var i := 0;
    ghost var right: set<string> := {};
    while i < |keys|
      invariant i <= |keys|
      invariant right == set j | 0 <= j < i :: keys[j]
      invariant Holds(out, keys, right, m, prefer)
    {
      var k := keys[i];
      RightOneMore(out, keys, right, m, prefer, k);
      if !HasWindowsSeparator(k) {
        out := out[k := if k in out && prefer.Some? then prefer.value(m[k], out[k]) else m[k]];
      }
      right := right + {k};
      i := i + 1;
    }
    assert right == m.Keys;
  }

  lemma {:induction false} WrongOneMore<T(!new)>(out: map<string, T>, keys: seq<string>, m: map<string,
                                          T>, prefer: Prefer<T>, k: string)
    requires forall x :: x in keys ==> x in m
    requires Holds(out, keys, {}, m, prefer) && k in m
    ensures var p := HealWindowsPath(k);
            Holds(if HasWindowsSeparator(k) && p !in out then out[p := m[k]] else out, keys + [k], {}, m, prefer)
  {
    forall p
      ensures Healed(keys + [k], {}, m, prefer, p) ==
              if p !in out && Misspells(k, p) then Some(m[k]) else Healed(keys, {}, m, prefer, p)
    {
      FirstMore(keys, k, p);
    }
  }

  method Misspelled<T(!new)>(keys: seq<string>, m: map<string, T>, prefer: Prefer<T>) returns (out: map<string, T>)
    requires forall k :: k in keys ==> k in m
    ensures Holds(out, keys, {}, m, prefer)
  {
    out := map[];
    var i := 0;
    while i < |keys|
      invariant i <= |keys|
      invariant Holds(out, keys[..i], {}, m, prefer)
    {
      var k := keys[i];
      assert keys[..i + 1] == keys[..i] + [k];
      WrongOneMore(out, keys[..i], m, prefer, k);
      if HasWindowsSeparator(k) {
        var key := HealWindowsPath(k);
        if key !in out {
          out := out[key := m[k]];
        }
      }
      i := i + 1;
    }
    assert keys[..i] == keys;
  }

  /** Every entry is there under its healed key, nothing else is, and no backslash is left. */
  lemma {:induction false} HealingKeepsEveryKey<T(!new)>(out: map<string, T>, keys: seq<string>, m: map<string,
                                                  T>, prefer: Prefer<T>, p: string)
    requires forall k :: k in keys <==> k in m
    requires Holds(out, keys, m.Keys, m, prefer)
    ensures p in out <==> exists k :: k in keys && HealWindowsPath(k) == p
    ensures p in out ==> !HasWindowsSeparator(p)
  {
    if k :| k in keys && HealWindowsPath(k) == p {
      if !HasWindowsSeparator(k) {
        assert p == k;
      } else {
        assert Misspells(k, p);
      }
    }
    if p in out {
      var wrong := FirstMisspelling(keys, p);
      if p in m && !HasWindowsSeparator(p) {
        assert p in keys && HealWindowsPath(p) == p;
      } else {
        assert wrong.value in keys;
      }
    }
  }

  /** A healed table is left alone. */
  lemma {:induction false} HealedStays<T(!new)>(out: map<string, T>, keys: seq<string>, m: map<string,
                                         T>, prefer: Prefer<T>, again: seq<string>)
    requires forall k :: k in keys <==> k in m
    requires Holds(out, keys, m.Keys, m, prefer)
    requires forall k :: k in again <==> k in out
    ensures !AnyMisspelled(again)
  {
    forall k | k in again
      ensures !HasWindowsSeparator(k)
    {
      HealingKeepsEveryKey(out, keys, m, prefer, k);
    }
  }
}
