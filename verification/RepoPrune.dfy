/**
 Pruning what a move has emptied, bottom up: `.DS_Store` files go, and directories in which no other file is
 left. Each directory's entries are seen to in any order, with a count of those that remain.
 */
module RepoPrune {
  import opened FileTree
  import opened RepoSync

  predicate IsDsStore(p: Path) {
    p != [] && p[|p| - 1] == DS_STORE
  }

  /** Some file that is not a `.DS_Store` stands at or below `p`. */
  ghost predicate HasKeeper(fs: Tree, p: Path) {
    exists f :: IsFile(fs, f) && p <= f && !IsDsStore(f)
  }

  /** Nothing has gone but `.DS_Store` files and directories without any other file, at or below `dir`. */
  ghost predicate Pruned(before: Disk, after: Disk, dir: Path) {
    && after.times == before.times
    && (forall p :: p in after.fs ==> p in before.fs && after.fs[p] == before.fs[p])
    && (forall p :: p in before.fs && p !in after.fs ==>
          dir <= p && (if before.fs[p] == Dir then !HasKeeper(before.fs, p) else IsDsStore(p)))
  }

  /** A file goes only if it is called `.DS_Store`; a directory only if no other file stands below it. */
  lemma {:induction false} WhatGoes(before: Disk, after: Disk, dir: Path, p: Path, name: string, f: Path, other: string)
    requires Pruned(before, after, dir) && other != ".DS_Store"
    ensures IsFile(before.fs, p + [name]) && p + [name] !in after.fs ==> name == ".DS_Store"
    ensures IsDir(before.fs, p) && p <= f + [other] && IsFile(before.fs, f + [other]) ==> p in after.fs
  {
    assert !IsDsStore(f + [other]);
  }

  /** What is left at or below `dir` is what keeps some other file. */
  ghost predicate KeepersLeft(before: Disk, after: Disk, dir: Path) {
    forall p :: p in before.fs && dir <= p ==> (p in after.fs <==> HasKeeper(before.fs, p))
  }

  /** Paths at or below `dir` have no more than this many parts. */
  ghost predicate Bounded(fs: Tree, dir: Path, depth: nat) {
    forall p :: p in fs && dir <= p ==> |p| <= depth
  }

  /** These names have been seen, and these remain. */
  ghost predicate Parted(names: set<string>, seen: set<string>, rest: set<string>) {
    names == seen + rest && seen !! rest
  }

  lemma {:induction false} PartedOn(names: set<string>, seen: set<string>, rest: set<string>, n: string)
    requires Parted(names, seen, rest) && n in rest
    ensures n in names && n !in seen && Parted(names, seen + {n}, rest - {n})
  {
  }

  // ---- pruning, entry by entry ---------------------------------------------------------------------------

  ghost predicate SameBelow(before: Disk, after: Disk, p: Path) {
    forall q :: p <= q ==> (q in before.fs <==> q in after.fs) && (q in before.fs ==> after.fs[q] == before.fs[q])
  }

  /** The entries among these that are still there. */
  function Left(dir: Path, fs: Tree, names: set<string>): set<string> {
    set n | n in names && dir + [n] in fs
  }

  lemma {:induction false} SameKeepers(before: Disk, after: Disk, p: Path, q: Path)
    requires SameBelow(before, after, p) && p <= q
    ensures HasKeeper(after.fs, q) <==> HasKeeper(before.fs, q)
  {
    forall f | q <= f
      ensures IsFile(after.fs, f) <==> IsFile(before.fs, f)
    {
      assert p <= f;
    }
  }

  /** Where pruning stands with these entries of `dir` seen to. */
  ghost predicate PrunedEntries(before: Disk, now: Disk, dir: Path, seen: set<string>, exact: bool) {
    && Pruned(before, now, dir)
    && IsDir(now.fs, dir)
    && (exact ==> forall n :: n in seen ==> KeepersLeft(before, now, dir + [n]))
  }

  lemma {:induction false} SiblingStays(b: Disk, d: Disk, dir: Path, n: string, x: string)
    requires Pruned(b, d, dir + [n]) && x != n
    ensures SameBelow(b, d, dir + [x])
  {
    forall q | q in b.fs && dir + [x] <= q
      ensures q in d.fs
    {
      assert q[|dir|] == x;
    }
  }

  /** Pruning one entry leaves the others alone. */
  lemma {:induction false} PrunedOne(a: Disk, b: Disk, d: Disk, dir: Path, seen: set<string>, n: string, exact: bool)
    requires PrunedEntries(a, b, dir, seen, exact) && n !in seen
    requires SameBelow(a, b, dir + [n])
    requires Pruned(b, d, dir + [n]) && (exact ==> KeepersLeft(b, d, dir + [n]))
    ensures PrunedEntries(a, d, dir, seen + {n}, exact)
    ensures forall x :: x != n ==> SameBelow(b, d, dir + [x])
    ensures Left(dir, d.fs, seen + {n}) == Left(dir, b.fs, seen) + (if dir + [n] in d.fs then {n} else {})
  {
    forall x | x != n
      ensures SameBelow(b, d, dir + [x])
    {
      SiblingStays(b, d, dir, n, x);
    }
    forall p | p in b.fs && p !in d.fs
      ensures dir <= p && (if a.fs[p] == Dir then !HasKeeper(a.fs, p) else IsDsStore(p))
    {
      assert dir <= dir + [n] <= p;
      SameKeepers(a, b, dir + [n], p);
    }
    if exact {
      forall x, p | x in seen + {n} && p in a.fs && dir + [x] <= p
        ensures p in d.fs <==> HasKeeper(a.fs, p)
      {
        if x == n {
          SameKeepers(a, b, dir + [n], p);
        } else {
          assert SameBelow(b, d, dir + [x]);
        }
      }
    }
  }

  /** The same, with the count that the pruning keeps. */
  ghost predicate Pruning(a: Disk, now: Disk, dir: Path, names: set<string>, seen: set<string>, rest: set<string>,
                          remaining: int, exact: bool)
  {
    && names == Names(a.fs, dir)
    && Parted(names, seen, rest)
    && PrunedEntries(a, now, dir, seen, exact)
    && remaining == |rest| + |Left(dir, now.fs, seen)|
    && forall n :: n in rest ==> SameBelow(a, now, dir + [n])
  }

  lemma {:induction false} PruningStarts(a: Disk, dir: Path, exact: bool)
    requires IsDir(a.fs, dir)
    ensures var names := Names(a.fs, dir); Pruning(a, a, dir, names, {}, names, |names|, exact)
  {
    assert Left(dir, a.fs, {}) == {};
  }

  lemma {:induction false} LeftCount(dir: Path, b: Tree, d: Tree, seen: set<string>, n: string)
    requires n !in seen
    requires Left(dir, d, seen + {n}) == Left(dir, b, seen) + (if dir + [n] in d then {n} else {})
    ensures |Left(dir, d, seen + {n})| == |Left(dir, b, seen)| + (if dir + [n] in d then 1 else 0)
  {
  }

  lemma {:induction false} SameTwice(a: Disk, b: Disk, d: Disk, p: Path)
    requires SameBelow(a, b, p) && SameBelow(b, d, p)
    ensures SameBelow(a, d, p)
  {
  }

  lemma {:induction false} PruningOn(a: Disk, b: Disk, d: Disk, dir: Path, names: set<string>, seen: set<string>,
                                     rest: set<string>,
                                     remaining: int, n: string, exact: bool)
    requires Pruning(a, b, dir, names, seen, rest, remaining, exact) && n in rest
    requires Pruned(b, d, dir + [n]) && (exact ==> KeepersLeft(b, d, dir + [n]))
    ensures Pruning(a, d, dir, names, seen + {n}, rest - {n}, remaining - (if dir + [n] in d.fs then 0 else 1), exact)
  {
    PartedOn(names, seen, rest, n);
    PrunedOne(a, b, d, dir, seen, n, exact);
    LeftCount(dir, b.fs, d.fs, seen, n);
    forall x | x in rest - {n}
      ensures SameBelow(a, d, dir + [x])
    {
      SameTwice(a, b, d, dir + [x]);
    }
  }

  lemma {:induction false} PruningNext(a: Disk, b: Disk, dir: Path, names: set<string>, seen: set<string>,
                                       rest: set<string>,
                                       remaining: int, n: string, depth: nat, exact: bool)
    requires Pruning(a, b, dir, names, seen, rest, remaining, exact) && n in rest && Bounded(a.fs, dir, depth)
    ensures dir + [n] in b.fs && Bounded(b.fs, dir, depth)
  {
    assert SameBelow(a, b, dir + [n]);
    assert dir + [n] in a.fs;
  }

  lemma {:induction false} PruningEnds(a: Disk, b: Disk, dir: Path, names: set<string>, seen: set<string>,
                                       remaining: int, exact: bool)
    requires WellFormed(a.fs) && WellFormed(b.fs) && IsDir(a.fs, dir)
    requires Pruning(a, b, dir, names, seen, {}, remaining, exact)
    ensures Pruned(a, b, dir) && dir in b.fs
    ensures remaining <= 0 ==>
              var d := b.(fs := b.fs - {dir});
              WellFormed(d.fs) && Pruned(a, d, dir) && (exact ==> KeepersLeft(a, d, dir))
    ensures exact && remaining > 0 ==> KeepersLeft(a, b, dir)
  {
    assert seen == names;
    PrunedAll(a, b, dir, names, exact);
    if remaining <= 0 {
      RemoveIsWellFormed(b.fs, dir);
    }
  }

  lemma {:induction false} KeptBelow(a: Disk, b: Disk, dir: Path, f: Path)
    requires Pruned(a, b, dir) && IsDir(a.fs, dir)
    requires IsFile(a.fs, f) && dir <= f && !IsDsStore(f)
    ensures f in b.fs && dir < f
  {
    assert f[..|f|] == f && f[..|dir|] == dir;
  }

  lemma {:induction false} NoneLeft(a: Disk, b: Disk, dir: Path)
    requires WellFormed(b.fs) && Pruned(a, b, dir) && IsDir(a.fs, dir)
    requires forall n :: dir + [n] !in b.fs
    ensures Empty(b.fs, dir) && !HasKeeper(a.fs, dir)
  {
    forall p | p in b.fs
      ensures !(dir < p)
    {
      if dir < p {
        var n := ChildOf(b.fs, dir, p);
      }
    }
    if HasKeeper(a.fs, dir) {
      var f :| IsFile(a.fs, f) && dir <= f && !IsDsStore(f);
      KeptBelow(a, b, dir, f);
      assert false;
    }
  }

  lemma {:induction false} SomeLeft(a: Disk, b: Disk, dir: Path, n: string)
    requires Pruned(a, b, dir) && KeepersLeft(a, b, dir + [n]) && dir + [n] in b.fs
    ensures HasKeeper(a.fs, dir)
  {
    assert HasKeeper(a.fs, dir + [n]);
    assert dir <= dir + [n];
  }

  lemma {:induction false} EntriesKeep(a: Disk, b: Disk, dir: Path)
    requires WellFormed(a.fs) && IsDir(a.fs, dir)
    requires forall n :: dir + [n] in a.fs ==> KeepersLeft(a, b, dir + [n])
    requires dir in b.fs <==> HasKeeper(a.fs, dir)
    ensures KeepersLeft(a, b, dir)
  {
    forall p | p in a.fs && dir <= p
      ensures p in b.fs <==> HasKeeper(a.fs, p)
    {
      if p != dir {
        var n := ChildOf(a.fs, dir, p);
        assert KeepersLeft(a, b, dir + [n]);
      }
    }
  }

  lemma {:induction false} PrunedBut(a: Disk, b: Disk, dir: Path, n: string)
    requires KeepersLeft(a, b, dir + [n])
    ensures KeepersLeft(a, b.(fs := b.fs - {dir}), dir + [n])
  {
    forall p | p in a.fs && dir + [n] <= p
      ensures p != dir
    {
      assert |p| >= |dir| + 1;
    }
  }

  /** With every entry seen to, the directory goes just when nothing in it is left, and that is as it should be. */
  lemma {:induction false} PrunedAll(a: Disk, b: Disk, dir: Path, names: set<string>, exact: bool)
    requires WellFormed(a.fs) && WellFormed(b.fs) && IsDir(a.fs, dir)
    requires PrunedEntries(a, b, dir, names, exact) && names == Names(a.fs, dir)
    ensures Left(dir, b.fs, names) == {} ==>
              var d := b.(fs := b.fs - {dir});
              Empty(b.fs, dir) && Pruned(a, d, dir) && (exact ==> KeepersLeft(a, d, dir))
    ensures exact && Left(dir, b.fs, names) != {} ==> KeepersLeft(a, b, dir)
  {
    if Left(dir, b.fs, names) == {} {
      forall n
        ensures dir + [n] !in b.fs
      {
        assert n !in Left(dir, b.fs, names);
      }
      NoneLeft(a, b, dir);
      if exact {
        forall n | dir + [n] in a.fs {
          PrunedBut(a, b, dir, n);
        }
        EntriesKeep(a, b.(fs := b.fs - {dir}), dir);
      }
    } else if exact {
      var n :| n in Left(dir, b.fs, names);
      SomeLeft(a, b, dir, n);
      EntriesKeep(a, b, dir);
    }
  }
}
